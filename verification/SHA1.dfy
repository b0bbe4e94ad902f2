/** The streaming SHA-1 of src/common/SHA1.cc, proved against FIPS 180-4. Bytes are copied as on a
    little endian machine (SHA1_LITTLE_ENDIAN); variables are not wiped. */
module SHA1 {
  import opened Sha1Spec
  import opened Wrappers

  const TWO32 := 0x1_0000_0000
  const TWO64 := 0x1_0000_0000_0000_0000

  /** UINT_32 */
  type UInt32 = i: nat | i < TWO32

  // ----- the macros

  function LittleEndian(b0: Byte, b1: Byte, b2: Byte, b3: Byte): Word {
    (b0 as Word) | (b1 as Word << 8) | (b2 as Word << 16) | (b3 as Word << 24)
  }

  /** The byte swap of SHABLK0. */
  function Swap(w: Word): Word {
    (RotL(w, 24) & 0xFF00FF00) | (RotL(w, 8) & 0x00FF00FF)
  }

  lemma SwapLittleEndian(b0: Byte, b1: Byte, b2: Byte, b3: Byte)
    ensures Swap(LittleEndian(b0, b1, b2, b3)) == BigEndian(b0, b1, b2, b3)
  {
  }

  lemma MacroCh(w: Word, x: Word, y: Word)
    ensures ((w & (x ^ y)) ^ y) == Ch(w, x, y)
  {
  }

  lemma MacroMaj(w: Word, x: Word, y: Word)
    ensures (((w | x) & y) | (w & x)) == Maj(w, x, y)
  {
  }

  /** The function part of macro S_R0, S_R1 ... S_R4 with index i. */
  function MacroF(i: nat, w: Word, x: Word, y: Word): Word {
    if i < 20 then (w & (x ^ y)) ^ y
    else if i < 40 then w ^ x ^ y
    else if i < 60 then ((w | x) & y) | (w & x)
    else w ^ x ^ y
  }

  lemma MacroFIsF(i: nat, w: Word, x: Word, y: Word)
    ensures MacroF(i, w, x, y) == F(i, w, x, y)
  {
    MacroCh(w, x, y);
    MacroMaj(w, x, y);
  }

  /** The constant in macro S_R0, S_R1 ... S_R4 with index i. */
  function MacroK(i: nat): Word {
    if i < 20 then 0x5A827999
    else if i < 40 then 0x6ED9EBA1
    else if i < 60 then 0x8F1BBCDC
    else 0xCA62C1D6
  }

  lemma MacroKIsK(i: nat)
    ensures MacroK(i) == K(i)
  {
  }

  function MacroSum(z: Word, f: Word, block: Word, k: Word, r: Word): Word {
    z + (f + block + k + r)
  }

  lemma MacroSumIs(z: Word, f: Word, l: Word, k: Word, r: Word)
    ensures MacroSum(z, f, l, k, r) == Sum(r, f, z, k, l)
  {
  }

  lemma MacroRound(v: Word, w: Word, x: Word, y: Word, z: Word, f: Word, k: Word, l: Word)
    ensures Words(MacroSum(z, f, l, k, RotL(v, 5)), v, RotL(w, 30), x, y) == Round(Words(v, w, x, y, z), f, k, l)
  {
    MacroSumIs(z, f, l, k, RotL(v, 5));
    hide MacroSum, Sum, RotL;
  }

  /** pState[k] += x */
  function StateSum(state: Word, x: Word): Word {
    state + x
  }

  lemma StateSumIs(state: Word, x: Word)
    ensures StateSum(state, x) == Plus(state, x)
  {
  }

  // ----- the 16 word workspace

  /** Before macro i the workspace holds the last 16 words of the schedule and, up to the 16th macro,
      the block words not yet swapped. */
  ghost predicate HoldsSchedule(l: seq<Word>, block: seq<Byte>, i: nat)
    requires |l| == 16 && |block| == BLOCK
  {
    && (forall t: nat :: t < i <= t + 16 ==> l[t % 16] == Schedule(block, t))
    && (forall j: nat :: i <= j < 16 ==>
        l[j] == LittleEndian(block[4 * j], block[4 * j + 1], block[4 * j + 2], block[4 * j + 3]))
  }

  lemma NextScheduleWord(l: seq<Word>, block: seq<Byte>, i: nat)
    requires |l| == 16 && |block| == BLOCK && HoldsSchedule(l, block, i)
    ensures i < 16 ==> Swap(l[i]) == Schedule(block, i)
    ensures i >= 16 ==> RotL(l[(i + 13) % 16] ^ l[(i + 8) % 16] ^ l[(i + 2) % 16] ^ l[i % 16], 1) == Schedule(block, i)
  {
    if i < 16 {
      SwapLittleEndian(block[4 * i], block[4 * i + 1], block[4 * i + 2], block[4 * i + 3]);
    } else {
      hide RotL, LittleEndian;
      assert (i + 13) % 16 == (i - 3) % 16 && (i + 8) % 16 == (i - 8) % 16
          && (i + 2) % 16 == (i - 14) % 16 && i % 16 == (i - 16) % 16;
    }
  }

  lemma ModDiffers(t: nat, i: nat)
    requires t < i < t + 16
    ensures t % 16 != i % 16
  {
  }

  lemma StoreScheduleWord(l: seq<Word>, block: seq<Byte>, i: nat)
    requires |l| == 16 && |block| == BLOCK && HoldsSchedule(l, block, i)
    ensures HoldsSchedule(l[i % 16 := Schedule(block, i)], block, i + 1)
  {
    hide Schedule, LittleEndian;
    var l' := l[i % 16 := Schedule(block, i)];
    forall t: nat | t < i + 1 <= t + 16
      ensures l'[t % 16] == Schedule(block, t)
    {
      if t < i {
        ModDiffers(t, i);
      }
    }
  }

  /** Update's test for a full block, with a 32 bit sum. */
  predicate FullBlock(j: nat, uLen: nat) {
    (j + uLen) % TWO32 > 63
  }

  /** The sum of the bytes in the buffer and the new ones is a 32 bit sum. Its test for a full block is right exactly
      for the calls that Update is specified for; for the others, whose data is almost 2^32 bytes long, it finds no
      block. */
  lemma BufferSumHolds(j: nat, uLen: UInt32)
    requires j < BLOCK
    ensures (FullBlock(j, uLen) <==> j + uLen > 63) <==> j + uLen < TWO32
  {
  }

  /** One byte in the buffer and the longest data that Update takes: the test finds no block. */
  lemma BufferSumFails()
    ensures !FullBlock(1, 0xFFFF_FFFF) && 1 + 0xFFFF_FFFF > 63
  {
    BufferSumHolds(1, 0xFFFF_FFFF);
  }

  /** The state of a running hash computation; `message` is what has been fed in since the last reset, and
      the first `hashed` bytes of it have gone into the state. */
  class CSHA1 {
    const m_state: array<Word>
    const m_block: array<Word>
    const m_buffer: array<Byte>
    const m_digest: array<Byte>
    var count0: UInt32
    var count1: UInt32
    ghost var message: seq<Byte>
    ghost var hashed: nat

    ghost predicate Shape() {
      && m_state.Length == 5 && m_block.Length == 16 && m_buffer.Length == BLOCK && m_digest.Length == 20
      && m_state != m_block && m_buffer != m_digest
    }

    function State(): Words
      reads m_state
      requires m_state.Length == 5
    {
      Words(m_state[0], m_state[1], m_state[2], m_state[3], m_state[4])
    }

    /** SHABLK0(i) and SHABLK(i): the next schedule word, stored in place. */
    method ScheduleWord(i: nat, ghost block: seq<Byte>) returns (w: Word)
      requires Shape() && |block| == BLOCK && HoldsSchedule(m_block[..], block, i)
      modifies m_block
      ensures HoldsSchedule(m_block[..], block, i + 1) && w == Schedule(block, i)
    {
      hide HoldsSchedule, Schedule, Swap, RotL;
      NextScheduleWord(m_block[..], block, i);
      StoreScheduleWord(m_block[..], block, i);
      if i < 16 {
        w := Swap(m_block[i]);
        m_block[i] := w;
      } else {
        w := RotL(m_block[(i + 13) % 16] ^ m_block[(i + 8) % 16] ^ m_block[(i + 2) % 16] ^ m_block[i % 16], 1);
        m_block[i % 16] := w;
      }
      assert m_block[..] == old(m_block[..])[i % 16 := w];
    }

    /** Macro S_R0(v,w,x,y,z,i), or S_R1 ... S_R4, as i demands: updates z and w. */
    method S_R(v: Word, w: Word, x: Word, y: Word, z: Word, i: nat, ghost block: seq<Byte>) returns (z': Word, w': Word)
      requires Shape() && |block| == BLOCK && HoldsSchedule(m_block[..], block, i)
      modifies m_block
      ensures HoldsSchedule(m_block[..], block, i + 1)
      ensures Words(z', v, w', x, y) == Round(Words(v, w, x, y, z), F(i, w, x, y), K(i), Schedule(block, i))
    {
      var l := ScheduleWord(i, block);
      z' := MacroSum(z, MacroF(i, w, x, y), l, MacroK(i), RotL(v, 5));
      w' := RotL(w, 30);
      MacroFIsF(i, w, x, y);
      MacroKIsK(i);
      MacroRound(v, w, x, y, z, MacroF(i, w, x, y), K(i), l);
    }

    /** memcpy(m_block, pBuffer, 64) */
    method LoadBlock(block: seq<Byte>)
      requires Shape() && |block| == BLOCK
      modifies m_block
      ensures HoldsSchedule(m_block[..], block, 0)
    {
      forall j | 0 <= j < 16 {
        m_block[j] := LittleEndian(block[4 * j], block[4 * j + 1], block[4 * j + 2], block[4 * j + 3]);
      }
    }

    /** Five macro calls, after which the roles are back in their first order. */
    method FiveRounds(a0: Word, b0: Word, c0: Word, d0: Word, e0: Word, i: nat, ghost h: Words, ghost block: seq<Byte>)
      returns (a: Word, b: Word, c: Word, d: Word, e: Word)
      requires Shape() && |block| == BLOCK && HoldsSchedule(m_block[..], block, i)
      requires Words(a0, b0, c0, d0, e0) == Rounds(h, block, i)
      modifies m_block
      ensures HoldsSchedule(m_block[..], block, i + 5)
      ensures Words(a, b, c, d, e) == Rounds(h, block, i + 5)
    {
      a, b, c, d, e := a0, b0, c0, d0, e0;
      e, b := S_R(a, b, c, d, e, i, block);
      assert Words(e, a, b, c, d) == Rounds(h, block, i + 1);
      d, a := S_R(e, a, b, c, d, i + 1, block);
      assert Words(d, e, a, b, c) == Rounds(h, block, i + 2);
      c, e := S_R(d, e, a, b, c, i + 2, block);
      assert Words(c, d, e, a, b) == Rounds(h, block, i + 3);
      b, d := S_R(c, d, e, a, b, i + 3, block);
      assert Words(b, c, d, e, a) == Rounds(h, block, i + 4);
      a, c := S_R(b, c, d, e, a, i + 4, block);
    }

    /** One block; the 80 macro calls repeat their order of roles every five calls. */
    method Transform(block: seq<Byte>)
      requires Shape() && |block| == BLOCK
      modifies m_state, m_block
      ensures State() == Compress(old(State()), block)
    {
      hide HoldsSchedule, Schedule, Round, F, K, RotL;
      var a, b, c, d, e := m_state[0], m_state[1], m_state[2], m_state[3], m_state[4];
      ghost var h := State();
      LoadBlock(block);
      var i := 0;
      while i < 80
        invariant i % 5 == 0 && i <= 80
        invariant HoldsSchedule(m_block[..], block, i)
        invariant Words(a, b, c, d, e) == Rounds(h, block, i)
        invariant State() == h
      {
        a, b, c, d, e := FiveRounds(a, b, c, d, e, i, h, block);
        i := i + 5;
      }
      AddToState(a, b, c, d, e);
    }

    /** Adds the working variables back into the state. */
    method AddToState(a: Word, b: Word, c: Word, d: Word, e: Word)
      requires Shape()
      modifies m_state
      ensures State() == AddWords(old(State()), Words(a, b, c, d, e))
    {
      hide Plus, StateSum;
      StateSumIs(m_state[0], a);
      m_state[0] := StateSum(m_state[0], a);
      StateSumIs(m_state[1], b);
      m_state[1] := StateSum(m_state[1], b);
      StateSumIs(m_state[2], c);
      m_state[2] := StateSum(m_state[2], c);
      StateSumIs(m_state[3], d);
      m_state[3] := StateSum(m_state[3], d);
      StateSumIs(m_state[4], e);
      m_state[4] := StateSum(m_state[4], e);
    }

    constructor ()
      ensures Valid() && fresh(m_state) && fresh(m_block) && fresh(m_buffer) && fresh(m_digest)
      ensures message == []
    {
      m_state := new Word[5];
      m_block := new Word[16];
      m_buffer := new Byte[BLOCK];
      m_digest := new Byte[20];
      new;
      Reset();
    }

    method Reset()
      requires Shape()
      modifies this, m_state
      ensures Valid() && message == []
    {
      m_state[0] := 0x67452301;
      m_state[1] := 0xEFCDAB89;
      m_state[2] := 0x98BADCFE;
      m_state[3] := 0x10325476;
      m_state[4] := 0xC3D2E1F0;
      count0, count1 := 0, 0;
      message, hashed := [], 0;
    }

    /** The counter holds the message length in bits, all complete blocks are hashed, and the rest of
        the message waits in the buffer. */
    ghost predicate Valid()
      reads this, m_state, m_buffer
    {
      && Shape()
      && Counts(count0, count1, |message|)
      && Absorbed(message, hashed)
      && |message| - hashed < BLOCK
      && m_buffer[..|message| - hashed] == message[hashed..]
    }

    /** The state is the hash of the first `done` bytes of m. */
    ghost predicate Absorbed(m: seq<Byte>, done: nat)
      reads m_state
      requires Shape()
    {
      done <= |m| && done % BLOCK == 0 && State() == HashBlocks(m[..done])
    }

    /** One more block of m into the state. */
    method Absorb(block: seq<Byte>, ghost m: seq<Byte>, ghost done: nat)
      requires Shape() && Absorbed(m, done)
      requires done + BLOCK <= |m| && block == m[done..done + BLOCK]
      modifies m_state, m_block
      ensures Absorbed(m, done + BLOCK)
    {
      Transform(block);
      assert m[..done + BLOCK][..done] == m[..done];
      assert m[..done + BLOCK][done..] == block;
    }

    /** The bit counter: two words and a carry. */
    method CountBytes(uLen: UInt32, ghost length: nat)
      requires Counts(count0, count1, length)
      modifies this`count0, this`count1
      ensures Counts(count0, count1, length + uLen)
    {
      CountMore(count0, count1, length, uLen);
      var shifted := uLen * 8 % TWO32;
      count0 := (count0 + shifted) % TWO32;
      if count0 < shifted {
        count1 := (count1 + 1) % TWO32;
      }
      count1 := (count1 + uLen / 0x2000_0000) % TWO32;
    }

    /** memcpy(&m_buffer[at], bytes, |bytes|) */
    method CopyToBuffer(at: nat, bytes: seq<Byte>)
      requires Shape() && at + |bytes| <= BLOCK
      modifies m_buffer
      ensures m_buffer[..at] == old(m_buffer[..at]) && m_buffer[at..at + |bytes|] == bytes
    {
      forall k | 0 <= k < |bytes| {
        m_buffer[at + k] := bytes[k];
      }
    }

    /** Completes the block in the buffer and hashes it. */
    method AbsorbBuffer(data: seq<Byte>, j: nat, ghost m: seq<Byte>) returns (i: nat)
      requires Shape() && j < BLOCK && j <= |m| && j + |data| > 63
      requires m_buffer[..j] == m[|m| - j..] && Absorbed(m, |m| - j)
      modifies m_state, m_block, m_buffer
      ensures i == 64 - j && Absorbed(m + data, |m| + i)
    {
      ghost var full := m + data;
      AbsorbedMore(m, data, |m| - j);
      hide HashBlocks, Absorbed;
      i := 64 - j;
      CopyToBuffer(j, data[..i]);
      assert m_buffer[j..] == data[..i];
      BufferFilled(m, data, j, old(m_buffer[..]), m_buffer[..]);
      Absorb(m_buffer[..], full, |m| - j);
    }

    /** The loop's test, with a 32 bit sum. */
    static predicate MoreBlocks(i: nat, uLen: nat) {
      (i + 63) % TWO32 < uLen
    }

    /** The sum does not wrap where the blocks begin. */
    static lemma BlockSumHolds(j: nat, i: nat, uLen: nat, k: nat)
      requires j + i == BLOCK * k && i <= uLen && j + uLen < TWO32
      ensures MoreBlocks(i, uLen) <==> i + 63 < uLen
    {
    }

    /** Hashes the blocks that data completes; returns how much of data went into them. */
    method AbsorbBlocks(data: seq<Byte>, j: nat, ghost m: seq<Byte>) returns (i: nat)
      requires Shape() && j + |data| < TWO32 && j < BLOCK && j <= |m| && j + |data| > 63
      requires m_buffer[..j] == m[|m| - j..] && Absorbed(m, |m| - j)
      modifies m_state, m_block, m_buffer
      ensures 0 < i <= |data| < i + 64
      ensures Absorbed(m + data, |m| + i)
    {
      hide MoreBlocks, Absorbed, CSHA1.Shape, HashBlocks;
      i := AbsorbBuffer(data, j, m);
      ghost var full := m + data;
      ghost var k := 1;
      BlockSumHolds(j, i, |data|, k);
      while MoreBlocks(i, |data|)
        invariant 0 < i <= |data| && j + i == BLOCK * k && Absorbed(full, |m| + i)
        invariant MoreBlocks(i, |data|) <==> i + 63 < |data|
        decreases |data| - i
      {
        NextBlock(m, data, i);
        Absorb(data[i..i + 64], full, |m| + i);
        i := i + 64;
        k := k + 1;
        BlockSumHolds(j, i, |data|, k);
      }
    }

    static lemma NextBlock(m: seq<Byte>, data: seq<Byte>, i: nat)
      requires i + 64 <= |data|
      ensures data[i..i + 64] == (m + data)[|m| + i..|m| + i + 64]
    {
    }

    lemma AbsorbedMore(m: seq<Byte>, data: seq<Byte>, done: nat)
      requires Shape() && Absorbed(m, done)
      ensures Absorbed(m + data, done)
    {
      assert (m + data)[..done] == m[..done];
    }

    /** Feeds data in, as long as it fits into 32 bits together with what is in the buffer: see BufferSumHolds. */
    method Update(data: seq<Byte>)
      requires Valid() && |message| % BLOCK + |data| < TWO32
      modifies this, m_state, m_block, m_buffer
      ensures Valid() && message == old(message) + data
    {
      hide Counts, Absorbed, FullBlock;
      var j := BufferIndex();
      CountBytes(|data|, |message|);
      AbsorbedMore(message, data, hashed);
      var i: nat := 0;
      BufferSumHolds(j, |data|);
      if FullBlock(j, |data|) {
        i := AbsorbBlocks(data, j, message);
        j := 0;
      }
      StoreRest(data, i, j);
    }

    /** Keeps the bytes of the incomplete block in the buffer. */
    method StoreRest(data: seq<Byte>, i: nat, j: nat)
      requires Shape() && i <= |data| && j <= |message| + i && j + |data| - i < BLOCK
      requires Counts(count0, count1, |message| + |data|)
      requires Absorbed(message + data, |message| + i - j)
      requires if i == 0 then j <= |message| && m_buffer[..j] == message[|message| - j..] else j == 0
      modifies this`message, this`hashed, m_buffer
      ensures Valid() && message == old(message) + data
    {
      hide Counts, Absorbed;
      CopyRest(data, i, j);
      hashed := |message| + i - j;
      message := message + data;
    }

    method CopyRest(data: seq<Byte>, i: nat, j: nat)
      requires Shape() && i <= |data| && j <= |message| + i && j + |data| - i < BLOCK
      requires if i == 0 then j <= |message| && m_buffer[..j] == message[|message| - j..] else j == 0
      modifies m_buffer
      ensures m_buffer[..j + |data| - i] == (message + data)[|message| + i - j..]
    {
      if |data| - i != 0 {
        CopyToBuffer(j, data[i..]);
      }
      RestInBuffer(message, data, i, j, m_buffer[..j + |data| - i]);
    }

    /** pbFinalCount: the bit counter, most significant byte first. */
    method FinalCount() returns (bytes: seq<Byte>)
      requires Valid() && 8 * |message| < TWO64
      ensures bytes == BytesOf(8 * |message|, 8)
    {
      bytes := [];
      for i := 0 to 8
        invariant |bytes| == i
        invariant forall k :: 0 <= k < i ==> bytes[k] == ByteOf(if k >= 4 then count0 else count1, 3 - k % 4)
      {
        bytes := bytes + [ByteOf(if i >= 4 then count0 else count1, 3 - i % 4)];
      }
      EightBytes(count0, count1, bytes);
      CounterBytes(count0, count1, |message|);
    }

    /** Pads the message up to the length bytes. */
    method AddPadding()
      requires Valid()
      modifies this, m_state, m_block, m_buffer
      ensures Valid() && message == old(message) + [0x80] + Zeros(ZeroBytes(|old(message)|))
    {
      hide Counts, Absorbed;
      ghost var n := |message|;
      Update([0x80]);
      ghost var z: nat := 0;
      assert message == old(message) + [0x80] + Zeros(0);
      var j := BufferIndex();
      while j != 56
        invariant Valid() && z <= ZeroBytes(n) && j == |message| % BLOCK
        invariant message == old(message) + [0x80] + Zeros(z)
        decreases ZeroBytes(n) - z
      {
        PaddingGoesOn(n, z);
        Update([0]);
        assert Zeros(z) + [0] == Zeros(z + 1);
        z := z + 1;
        j := BufferIndex();
      }
      PaddingEnds(n, z);
    }

    /** Completes the hash; it is the SHA-1 digest of everything fed in since the last reset. */
    method Final()
      requires Valid() && 8 * |message| < TWO64
      modifies this, m_state, m_block, m_buffer, m_digest
      ensures m_digest[..] == Sha1(old(message))
    {
      ghost var m := message;
      var pbFinalCount := FinalCount();
      AddPadding();
      Update(pbFinalCount);
      assert message == Pad(m);
      AllHashed(|message|, hashed);
      assert message[..hashed] == message;
      StoreDigest();
    }

    method StoreDigest()
      requires Shape()
      modifies m_digest
      ensures m_digest[..] == Digest(State())
    {
      for i := 0 to 20
        invariant forall k :: 0 <= k < i ==> m_digest[k] == DigestByte(m_state[k / 4], k % 4)
      {
        m_digest[i] := DigestByte(m_state[i / 4], i % 4);
      }
      forall k | 0 <= k < 20
        ensures m_digest[k] == WordBytes(m_state[k / 4])[k % 4]
      {
        DigestByteIs(m_state[k / 4], k % 4);
      }
      DigestOf(m_state[..], m_digest[..]);
    }

    method GetHash() returns (hash: seq<Byte>)
      requires Shape()
      ensures hash == m_digest[..]
    {
      hash := m_digest[..];
    }

    /** How full the buffer is, read off the bit counter. */
    method BufferIndex() returns (j: nat)
      requires Valid()
      ensures j == |message| - hashed && j == |message| % BLOCK
    {
      hide Counts;
      CountedIndex(count0, count1, |message|, hashed);
      RemainderIs(|message|, hashed);
      j := count0 / 8 % 64;
    }
  }

  /** The streaming theorem: however a message is split into updates, the result is its SHA-1 digest. */
  method HashChunks(chunks: seq<seq<Byte>>) returns (hash: seq<Byte>)
    requires forall k :: 0 <= k < |chunks| ==> |Flatten(chunks[..k])| % BLOCK + |chunks[k]| < TWO32
    requires 8 * |Flatten(chunks)| < TWO64
    ensures hash == Sha1(Flatten(chunks))
  {
    var sha1 := new CSHA1();
    for k := 0 to |chunks|
      invariant fresh(sha1) && fresh(sha1.m_state) && fresh(sha1.m_block) && fresh(sha1.m_buffer)
      invariant fresh(sha1.m_digest)
      invariant sha1.Valid() && sha1.message == Flatten(chunks[..k])
    {
      sha1.Update(chunks[k]);
      assert chunks[..k + 1][..k] == chunks[..k];
    }
    assert chunks[..|chunks|] == chunks;
    sha1.Final();
    hash := sha1.GetHash();
  }

  function Flatten(chunks: seq<seq<Byte>>): seq<Byte> {
    if chunks == [] then [] else Flatten(chunks[..|chunks| - 1]) + chunks[|chunks| - 1]
  }

  /** A byte of the digest: the word shifted by (3 - k) * 8. */
  function DigestByte(w: Word, k: nat): Byte
    requires k < 4
  {
    var shift := (3 - k) * 8;
    var shifted := if shift == 24 then w >> 24 else if shift == 16 then w >> 16 else if shift == 8 then w >> 8 else w;
    (shifted & 0xFF) as Byte
  }

  lemma DigestByteIs(w: Word, k: nat)
    requires k < 4
    ensures DigestByte(w, k) == WordBytes(w)[k]
  {
  }

  lemma DigestOf(state: seq<Word>, digest: seq<Byte>)
    requires |state| == 5 && |digest| == 20
    requires forall k :: 0 <= k < 20 ==> digest[k] == WordBytes(state[k / 4])[k % 4]
    ensures digest == Digest(Words(state[0], state[1], state[2], state[3], state[4]))
  {
    hide WordBytes;
    assert digest[0..4] == WordBytes(state[0]) by { DigestQuarter(state, digest, 0); }
    assert digest[4..8] == WordBytes(state[1]) by { DigestQuarter(state, digest, 1); }
    assert digest[8..12] == WordBytes(state[2]) by { DigestQuarter(state, digest, 2); }
    assert digest[12..16] == WordBytes(state[3]) by { DigestQuarter(state, digest, 3); }
    assert digest[16..20] == WordBytes(state[4]) by { DigestQuarter(state, digest, 4); }
    Quarters(digest);
  }

  lemma Quarters<T>(s: seq<T>)
    requires |s| == 20
    ensures s == s[0..4] + s[4..8] + s[8..12] + s[12..16] + s[16..20]
  {
  }

  lemma DigestQuarter(state: seq<Word>, digest: seq<Byte>, m: nat)
    requires |state| == 5 && |digest| == 20 && m < 5
    requires forall k :: 0 <= k < 20 ==> digest[k] == WordBytes(state[k / 4])[k % 4]
    ensures digest[4 * m..4 * m + 4] == WordBytes(state[m])
  {
  }

  // ----- padding

  /** Byte k of a 32 bit word, counted from the least significant one. */
  function ByteOf(word: UInt32, k: nat): Byte
    requires k < 4
  {
    Low(word / (if k == 3 then 0x100_0000 else if k == 2 then 0x1_0000 else if k == 1 then 0x100 else 1))
  }

  function WordBytesOf(word: UInt32): seq<Byte> {
    [ByteOf(word, 3), ByteOf(word, 2), ByteOf(word, 1), ByteOf(word, 0)]
  }

  lemma EightBytes(count0: UInt32, count1: UInt32, bytes: seq<Byte>)
    requires |bytes| == 8
    requires forall k :: 0 <= k < 8 ==> bytes[k] == ByteOf(if k >= 4 then count0 else count1, 3 - k % 4)
    ensures bytes == WordBytesOf(count1) + WordBytesOf(count0)
  {
    hide ByteOf;
  }

  lemma FourBytes(n: nat, count: nat)
    ensures BytesOf(n, count + 4) == BytesOf(n / TWO32, count) + WordBytesOf(n % TWO32)
  {
    hide Low;
    var n1 := n / 0x100;
    var n2 := n1 / 0x100;
    var n3 := n2 / 0x100;
    var n4 := n3 / 0x100;
    var w := n % TWO32;
    LowWordBytes(n, n1, n2, n3, n4);
    LowDepends(n, w);
    LowDepends(n1, w / 0x100);
    LowDepends(n2, w / 0x1_0000);
    LowDepends(n3, w / 0x100_0000);
    assert BytesOf(n, count + 4) == BytesOf(n1, count + 3) + [Low(n)];
    assert BytesOf(n1, count + 3) == BytesOf(n2, count + 2) + [Low(n1)];
    assert BytesOf(n2, count + 2) == BytesOf(n3, count + 1) + [Low(n2)];
    assert BytesOf(n3, count + 1) == BytesOf(n4, count) + [Low(n3)];
    AppendFour(BytesOf(n4, count), Low(n3), Low(n2), Low(n1), Low(n));
  }

  lemma LowDepends(x: nat, y: nat)
    requires x % 256 == y % 256
    ensures Low(x) == Low(y)
  {
  }

  lemma AppendFour<T>(s: seq<T>, a: T, b: T, c: T, d: T)
    ensures s + [a] + [b] + [c] + [d] == s + [a, b, c, d]
  {
  }

  lemma LowWordBytes(n: nat, n1: nat, n2: nat, n3: nat, n4: nat)
    requires n1 == n / 0x100 && n2 == n1 / 0x100 && n3 == n2 / 0x100 && n4 == n3 / 0x100
    ensures n4 == n / TWO32
    ensures n3 % 256 == n % TWO32 / 0x100_0000 % 256
    ensures n2 % 256 == n % TWO32 / 0x1_0000 % 256
    ensures n1 % 256 == n % TWO32 / 0x100 % 256
    ensures n % 256 == n % TWO32 % 256
  {
    var b0, b1, b2, b3 := n % 0x100, n1 % 0x100, n2 % 0x100, n3 % 0x100;
    var w := b0 + 0x100 * b1 + 0x1_0000 * b2 + 0x100_0000 * b3;
    assert n == TWO32 * n4 + w && w < TWO32;
    QuotientIs(n, TWO32, n4, w);
    QuotientIs(w, 0x100_0000, b3, b0 + 0x100 * b1 + 0x1_0000 * b2);
    QuotientIs(w, 0x1_0000, b2 + 0x100 * b3, b0 + 0x100 * b1);
    QuotientIs(w, 0x100, b1 + 0x100 * b2 + 0x1_0000 * b3, b0);
  }

  lemma QuotientIs(n: nat, d: nat, q: nat, r: nat)
    requires n == d * q + r && r < d
    ensures n / d == q && n % d == r
  {
    SmallMultiple(d, n / d - q);
  }

  lemma CounterBytes(count0: UInt32, count1: UInt32, length: nat)
    requires Counts(count0, count1, length) && 8 * length < TWO64
    ensures BytesOf(8 * length, 8) == WordBytesOf(count1) + WordBytesOf(count0)
  {
    hide Low;
    var n := 8 * length;
    assert n == count1 * TWO32 + count0;
    assert n / TWO32 == count1 && n % TWO32 == count0 && count1 % TWO32 == count1;
    FourBytes(n, 4);
    FourBytes(count1, 0);
  }

  lemma PaddingGoesOn(n: nat, z: nat)
    requires (n + 1 + z) % BLOCK != 56 && z <= ZeroBytes(n)
    ensures z < ZeroBytes(n)
  {
  }

  lemma PaddingEnds(n: nat, z: nat)
    requires (n + 1 + z) % BLOCK == 56 && z <= ZeroBytes(n)
    ensures z == ZeroBytes(n)
  {
  }

  lemma RemainderIs(length: nat, hashed: nat)
    requires hashed % 64 == 0 && hashed <= length < hashed + 64
    ensures length % 64 == length - hashed
  {
  }

  lemma AllHashed(length: nat, hashed: nat)
    requires length % 64 == 0 && hashed % 64 == 0 && hashed <= length < hashed + 64
    ensures hashed == length
  {
  }

  /** What is left of the data after its complete blocks is the incomplete block of the message. */
  lemma RestInBuffer(m: seq<Byte>, data: seq<Byte>, i: nat, j: nat, buffer: seq<Byte>)
    requires i <= |data| && |buffer| == j + |data| - i
    requires buffer[j..] == data[i..]
    requires if i == 0 then j <= |m| && buffer[..j] == m[|m| - j..] else j == 0
    ensures buffer == (m + data)[|m| + i - j..]
  {
  }

  // ----- the two word bit counter

  predicate Counts(count0: UInt32, count1: UInt32, length: nat) {
    count1 * TWO32 + count0 == 8 * length % TWO64
  }

  lemma CountedIndex(count0: UInt32, count1: UInt32, length: nat, hashed: nat)
    requires Counts(count0, count1, length)
    requires hashed % 64 == 0 && hashed <= length < hashed + 64
    ensures count0 / 8 % 64 == length - hashed
  {
    var q := 8 * length / TWO64;
    assert 8 * length == q * TWO64 + (count1 * TWO32 + count0) by {
      QuotientOf(8 * length, TWO64);
    }
    EighthIs(length, q, count0, count1);
    RemainderIs(length, hashed);
  }

  lemma QuotientOf(n: nat, d: nat)
    requires d > 0
    ensures n == n / d * d + n % d
  {
  }

  /** A multiple of 8 in parts; all parts but the last are multiples of 512 when divided by 8. */
  lemma EighthIs(length: nat, q: nat, count0: UInt32, count1: UInt32)
    requires 8 * length == q * TWO64 + (count1 * TWO32 + count0)
    ensures count0 / 8 % 64 == length % 64
  {
    var blocks := q * 0x80_0000_0000_0000 + count1 * 0x80_0000;
    assert count0 == 8 * (length - 64 * blocks);
    var rest: nat := length - 64 * blocks;
    QuotientIs(count0, 8, rest, 0);
    QuotientIs(length, 64, blocks + rest / 64, rest % 64);
  }

  lemma ModIs(x: nat, q: nat, r: nat)
    requires x == q * TWO64 + r && r < TWO64
    ensures x % TWO64 == r
  {
  }

  /** The low word: shifting loses the top three bits of `more`, adding may carry. */
  lemma LowWord(count0: UInt32, more: UInt32)
    ensures var shifted := more * 8 % TWO32;
            var c0 := (count0 + shifted) % TWO32;
            && more * 8 == more / 0x2000_0000 * TWO32 + shifted
            && count0 + shifted == (if c0 < shifted then TWO32 else 0) + c0
  {
  }

  lemma HighWord(count1: UInt32, carry: nat, high: nat)
    requires carry <= 1
    ensures ((count1 + carry) % TWO32 + high) % TWO32 == (count1 + carry + high) % TWO32
  {
  }

  /** The carry of the low word and the bits that the shift loses both reach the high word. */
  lemma CountMore(count0: UInt32, count1: UInt32, length: nat, more: UInt32)
    requires Counts(count0, count1, length)
    ensures var shifted := more * 8 % TWO32;
            var c0 := (count0 + shifted) % TWO32;
            var c1 := if c0 < shifted then (count1 + 1) % TWO32 else count1;
            Counts(c0, (c1 + more / 0x2000_0000) % TWO32, length + more)
  {
    var shifted, high := more * 8 % TWO32, more / 0x2000_0000;
    var c0 := (count0 + shifted) % TWO32;
    var carry := if c0 < shifted then 1 else 0;
    LowWord(count0, more);
    HighWord(count1, carry, high);
    var sum := count1 + carry + high;
    var q := 8 * length / TWO64;
    assert 8 * length == q * TWO64 + count1 * TWO32 + count0;
    assert 8 * (length + more) == q * TWO64 + sum * TWO32 + c0;
    assert sum == sum / TWO32 * TWO32 + sum % TWO32;
    ModIs(8 * (length + more), q + sum / TWO32, sum % TWO32 * TWO32 + c0);
  }

  lemma BufferFilled(m: seq<Byte>, data: seq<Byte>, j: nat, before: seq<Byte>, after: seq<Byte>)
    requires j < 64 && j <= |m| && |before| == |after| == 64 && |data| >= 64 - j
    requires before[..j] == m[|m| - j..]
    requires after[..j] == before[..j] && after[j..] == data[..64 - j]
    ensures after == (m + data)[|m| - j..|m| - j + 64]
  {
    var block := (m + data)[|m| - j..|m| - j + 64];
    assert block[..j] == m[|m| - j..];
    assert block[j..] == data[..64 - j];
    assert after == after[..j] + after[j..] && block == block[..j] + block[j..];
  }
}
