/** The index of all peers of a simulation (src/common/PeerStorage.cc and .h): a hash map, and next to it
    one vector of slots per node type and flags, with a free list of its holes. The map and the vectors
    must agree for getRandomNode to terminate and to be fair.

    A peer's address stands for its iterator; an empty slot stands for the map's end(). */
module PeerStorage {
  import opened Wrappers

  type Ip = nat

  datatype AddrPerOverlay = AddrPerOverlay(overlayId: int, ta: nat, bootstrapped: bool)

  datatype PeerInfo = PeerInfo(typeId: nat, malicious: bool)

  datatype BootstrapEntry = BootstrapEntry(addrVector: seq<AddrPerOverlay>, info: PeerInfo, peerVectorIndex: nat)

  type Slots = seq<Option<Ip>>

  const OFFSET_SIZE := 4

  function CalcOffset(bootstrapped: bool, malicious: bool): nat {
    (if bootstrapped then 1 else 0) + if malicious then 2 else 0
  }

  predicate AnyBootstrapped(addrs: seq<AddrPerOverlay>) {
    exists a :: a in addrs && a.bootstrapped
  }

  /** The vector that a peer belongs to. */
  function Bucket(e: BootstrapEntry): nat {
    e.info.typeId * OFFSET_SIZE + CalcOffset(AnyBootstrapped(e.addrVector), e.info.malicious)
  }

  // ----- agreement of map, slots and free lists

  ghost predicate PeerIndexed(ip: Ip, e: BootstrapEntry, vectors: seq<Slots>) {
    Bucket(e) < |vectors| && e.peerVectorIndex < |vectors[Bucket(e)]|
        && vectors[Bucket(e)][e.peerVectorIndex] == Some(ip)
  }

  ghost predicate SlotUsed(slot: Option<Ip>, b: nat, i: nat, m: map<Ip, BootstrapEntry>) {
    slot.Some? ==> slot.value in m && Bucket(m[slot.value]) == b && m[slot.value].peerVectorIndex == i
  }

  /** The free list names every hole of the slots, once. */
  ghost predicate HolesListed(slots: Slots, free: seq<nat>) {
    && Distinct(free)
    && (forall i :: 0 <= i < |free| ==> free[i] < |slots| && slots[free[i]] == None)
    && (forall i: nat :: i < |slots| && slots[i] == None ==> i in free)
  }

  /** Peers and used slots are in bijection, each peer in its bucket. */
  ghost predicate IndexOk(m: map<Ip, BootstrapEntry>, vectors: seq<Slots>, free: seq<seq<nat>>) {
    && |vectors| == |free| && |vectors| % OFFSET_SIZE == 0
    && (forall ip :: ip in m ==> PeerIndexed(ip, m[ip], vectors))
    && (forall b: nat, i: nat :: b < |vectors| && i < |vectors[b]| ==> SlotUsed(vectors[b][i], b, i, m))
    && (forall b: nat :: b < |vectors| ==> HolesListed(vectors[b], free[b]))
  }

  function Without(m: map<Ip, BootstrapEntry>, ip: Ip): map<Ip, BootstrapEntry> {
    map k | k in m && k != ip :: m[k]
  }

  lemma WithoutUpdated(m: map<Ip, BootstrapEntry>, ip: Ip, e: BootstrapEntry)
    ensures Without(m[ip := e], ip) == Without(m, ip)
  {
  }

  function Grown<T>(vs: seq<seq<T>>, n: nat): seq<seq<T>> {
    if |vs| < n then vs + seq(n - |vs|, _ => []) else vs
  }

  lemma GrownOk(m: map<Ip, BootstrapEntry>, vectors: seq<Slots>, free: seq<seq<nat>>, n: nat)
    requires IndexOk(m, vectors, free)
    ensures IndexOk(m, Grown(vectors, n * OFFSET_SIZE), Grown(free, n * OFFSET_SIZE))
  {
  }

  /** Changing one bucket: what has to be shown about the new slots and the new free list. */
  lemma BucketChanged(m: map<Ip, BootstrapEntry>, m': map<Ip, BootstrapEntry>, vectors: seq<Slots>, free: seq<seq<nat>>,
                      b: nat, slots: Slots, holes: seq<nat>, ip: Ip)
    requires IndexOk(m, vectors, free) && b < |vectors| && HolesListed(slots, holes)
    requires forall k :: k != ip ==> (k in m' <==> k in m) && (k in m ==> m'[k] == m[k])
    requires ip in m ==> Bucket(m[ip]) == b
    requires ip in m' ==> PeerIndexed(ip, m'[ip], vectors[b := slots])
    requires forall i: nat :: i < |slots| ==> SlotUsed(slots[i], b, i, m')
    requires forall k :: k in m && k != ip && Bucket(m[k]) == b ==>
               m[k].peerVectorIndex < |slots| && slots[m[k].peerVectorIndex] == Some(k)
    ensures IndexOk(m', vectors[b := slots], free[b := holes])
  {
    var vectors', free' := vectors[b := slots], free[b := holes];
    forall k | k in m'
      ensures PeerIndexed(k, m'[k], vectors')
    {
      if k != ip {
        assert PeerIndexed(k, m[k], vectors);
      }
    }
    forall c: nat, i: nat | c < |vectors'| && i < |vectors'[c]|
      ensures SlotUsed(vectors'[c][i], c, i, m')
    {
      if c != b {
        assert SlotUsed(vectors[c][i], c, i, m);
      }
    }
    forall c: nat | c < |vectors'|
      ensures HolesListed(vectors'[c], free'[c])
    {
      if c != b {
        assert HolesListed(vectors[c], free[c]);
      }
    }
  }

  /** A vector loses a peer: its slot is popped if it is the last one, and becomes a listed hole if not. */
  lemma SlotFreed(slots: Slots, holes: seq<nat>, index: nat)
    requires HolesListed(slots, holes) && index < |slots| && slots[index].Some?
    ensures index == |slots| - 1 ==> HolesListed(slots[..index], holes)
    ensures index < |slots| - 1 ==> HolesListed(slots[index := None], holes + [index])
  {
  }

  /** A vector gains a peer: in the last listed hole if there is one, and at its end if not. */
  lemma SlotTaken(slots: Slots, holes: seq<nat>, ip: Ip)
    requires HolesListed(slots, holes)
    ensures holes == [] ==> HolesListed(slots + [Some(ip)], holes)
    ensures holes != [] ==> holes[|holes| - 1] < |slots| && slots[holes[|holes| - 1]] == None
                            && HolesListed(slots[holes[|holes| - 1] := Some(ip)], holes[..|holes| - 1])
  {
  }

  /** The peer's slot is gone, and so everything agrees without the peer. */
  lemma SlotLost(m: map<Ip, BootstrapEntry>, vectors: seq<Slots>, free: seq<seq<nat>>, ip: Ip, slots: Slots,
                 holes: seq<nat>)
    requires IndexOk(m, vectors, free) && ip in m
    requires PeerIndexed(ip, m[ip], vectors) && HolesListed(slots, holes)
    requires var index, was := m[ip].peerVectorIndex, vectors[Bucket(m[ip])];
             if |was| == index + 1 then slots == was[..index] else slots == was[index := None]
    ensures IndexOk(Without(m, ip), vectors[Bucket(m[ip]) := slots], free[Bucket(m[ip]) := holes])
  {
    var b := Bucket(m[ip]);
    forall i: nat | i < |slots|
      ensures SlotUsed(slots[i], b, i, Without(m, ip))
    {
      assert SlotUsed(vectors[b][i], b, i, m);
    }
    forall k | k in m && k != ip && Bucket(m[k]) == b
      ensures m[k].peerVectorIndex < |slots| && slots[m[k].peerVectorIndex] == Some(k)
    {
      assert PeerIndexed(k, m[k], vectors);
    }
    BucketChanged(m, Without(m, ip), vectors, free, b, slots, holes, ip);
  }

  /** The peer, in no vector before, is found in its slot. */
  lemma SlotGained(m: map<Ip, BootstrapEntry>, m': map<Ip, BootstrapEntry>, vectors: seq<Slots>, free: seq<seq<nat>>,
                   ip: Ip, slots: Slots, holes: seq<nat>)
    requires ip in m' && m == Without(m', ip) && IndexOk(m, vectors, free)
    requires Bucket(m'[ip]) < |vectors| && HolesListed(slots, holes)
    requires var index, was := m'[ip].peerVectorIndex, vectors[Bucket(m'[ip])];
             if index == |was| then slots == was + [Some(ip)]
             else index < |was| && was[index] == None && slots == was[index := Some(ip)]
    ensures IndexOk(m', vectors[Bucket(m'[ip]) := slots], free[Bucket(m'[ip]) := holes])
  {
    var b := Bucket(m'[ip]);
    forall i: nat | i < |slots|
      ensures SlotUsed(slots[i], b, i, m')
    {
      if i != m'[ip].peerVectorIndex {
        assert SlotUsed(vectors[b][i], b, i, m);
      }
    }
    forall k | k in m && k != ip && Bucket(m[k]) == b
      ensures m[k].peerVectorIndex < |slots| && slots[m[k].peerVectorIndex] == Some(k)
    {
      assert PeerIndexed(k, m[k], vectors);
    }
    BucketChanged(m, m', vectors, free, b, slots, holes, ip);
  }

  /** An entry may change where it does not decide the vector. */
  lemma EntryChanged(m: map<Ip, BootstrapEntry>, vectors: seq<Slots>, free: seq<seq<nat>>, ip: Ip, e: BootstrapEntry)
    requires IndexOk(m, vectors, free) && ip in m
    requires Bucket(e) == Bucket(m[ip]) && e.peerVectorIndex == m[ip].peerVectorIndex
    ensures IndexOk(m[ip := e], vectors, free)
  {
  }

  lemma UnindexedIsInvalid(m: map<Ip, BootstrapEntry>, vectors: seq<Slots>, free: seq<seq<nat>>, ip: Ip)
    requires ip in m && IndexOk(Without(m, ip), vectors, free)
    ensures !IndexOk(m, vectors, free)
  {
  }

  // ----- drawing a peer

  datatype Wanted = Wanted(nodeType: int, bootstrappedNeeded: bool, inoffensiveNeeded: bool)

  /** What the caller asks for, in terms of the peer. */
  predicate Eligible(e: BootstrapEntry, w: Wanted) {
    && (w.nodeType > -1 ==> e.info.typeId == w.nodeType)
    && (w.bootstrappedNeeded ==> AnyBootstrapped(e.addrVector))
    && (w.inoffensiveNeeded ==> !e.info.malicious)
  }

  /** What the loops look at: only the number of the vector. */
  predicate Skipped(i: nat, w: Wanted) {
    || (w.nodeType > -1 && w.nodeType != i / OFFSET_SIZE)
    || (w.bootstrappedNeeded && i % 2 == 0)
    || (w.inoffensiveNeeded && i / 2 % 2 == 1)
  }

  lemma SkippedIffNotEligible(e: BootstrapEntry, w: Wanted)
    ensures Skipped(Bucket(e), w) <==> !Eligible(e, w)
  {
    var offset := CalcOffset(AnyBootstrapped(e.addrVector), e.info.malicious);
    assert Bucket(e) / OFFSET_SIZE == e.info.typeId;
    assert Bucket(e) % 2 == offset % 2;
    assert Bucket(e) / 2 % 2 == offset / 2;
  }

  function Used(slots: Slots): (r: set<nat>) {
    set i: nat | i < |slots| && slots[i].Some?
  }

  function Range(n: nat): (r: set<nat>)
    ensures |r| == n
    ensures forall i: nat :: i in r <==> i < n
  {
    if n == 0 then {} else Range(n - 1) + {n - 1}
  }

  /** The free list's length is the number of holes, so the difference that getRandomNode sums up is the
      number of peers in the vector. */
  lemma UsedCount(slots: Slots, holes: seq<nat>)
    requires HolesListed(slots, holes)
    ensures |Used(slots)| == |slots| - |holes|
  {
    var used, empty, all := Used(slots), Elements(holes), Range(|slots|);
    DistinctCount(holes);
    forall i: nat
      ensures i in empty <==> i in all && i !in used
    {
      if i in holes {
        var j :| 0 <= j < |holes| && holes[j] == i;
      }
    }
    assert used + empty == all && used * empty == {};
  }

  function Live(vectors: seq<Slots>, free: seq<seq<nat>>, i: nat): (r: int)
    requires i < |vectors| == |free|
  {
    |vectors[i]| - |free[i]|
  }

  /** How many peers the first n vectors offer to a caller. */
  function Offered(vectors: seq<Slots>, free: seq<seq<nat>>, w: Wanted, n: nat): (r: int)
    requires n <= |vectors| == |free|
  {
    if n == 0 then 0
    else Offered(vectors, free, w, n - 1) + if Skipped(n - 1, w) then 0 else Live(vectors, free, n - 1)
  }

  lemma {:induction false} OfferedGrows(m: map<Ip, BootstrapEntry>, vectors: seq<Slots>, free: seq<seq<nat>>, w: Wanted,
                                        a: nat, b: nat)
    requires IndexOk(m, vectors, free) && a <= b <= |vectors|
    ensures 0 <= Offered(vectors, free, w, a) <= Offered(vectors, free, w, b)
    decreases a + b
  {
    if a < b {
      OfferedGrows(m, vectors, free, w, a, b - 1);
      assert HolesListed(vectors[b - 1], free[b - 1]);
      UsedCount(vectors[b - 1], free[b - 1]);
    } else if a > 0 {
      OfferedGrows(m, vectors, free, w, a - 1, a - 1);
      assert HolesListed(vectors[a - 1], free[a - 1]);
      UsedCount(vectors[a - 1], free[a - 1]);
    }
  }

  /** The number drawn first falls into vector i. */
  ghost predicate DrawHits(vectors: seq<Slots>, free: seq<seq<nat>>, w: Wanted, draw: nat, i: nat)
    requires i < |vectors| == |free|
  {
    !Skipped(i, w) && Offered(vectors, free, w, i) < draw <= Offered(vectors, free, w, i + 1)
  }

  /** The first used slot from slot i on, around the end if need be, is slot j. */
  ghost predicate NextUsed(slots: Slots, i: nat, j: nat) {
    && i < |slots| && j < |slots| && slots[j].Some?
    && (i <= j ==> forall k :: i <= k < j ==> slots[k] == None)
    && (j < i ==> forall k :: 0 <= k < |slots| && (i <= k || k < j) ==> slots[k] == None)
  }

  /** The draws a and b make getRandomNode return the peer. */
  ghost predicate Drawn(vectors: seq<Slots>, free: seq<seq<nat>>, w: Wanted, a: nat, b: nat, ip: Ip)
    requires |vectors| == |free|
  {
    exists i: nat, j: nat :: i < |vectors| && j < |vectors[i]| && DrawHits(vectors, free, w, a, i)
      && 1 <= b <= |vectors[i]| && NextUsed(vectors[i], b - 1, j) && vectors[i][j] == Some(ip)
  }

  /** Nobody is left out: every eligible peer is returned for some draws, both in the ranges asked for. */
  lemma EveryEligiblePeerCanBeDrawn(m: map<Ip, BootstrapEntry>, vectors: seq<Slots>, free: seq<seq<nat>>, w: Wanted,
                                    ip: Ip)
    requires IndexOk(m, vectors, free) && ip in m && Eligible(m[ip], w)
    ensures exists a: nat, b: nat :: 1 <= a <= Offered(vectors, free, w, |vectors|) && Drawn(vectors, free, w, a, b, ip)
  {
    var i, j := Bucket(m[ip]), m[ip].peerVectorIndex;
    assert PeerIndexed(ip, m[ip], vectors) && HolesListed(vectors[i], free[i]);
    SkippedIffNotEligible(m[ip], w);
    UsedCount(vectors[i], free[i]);
    assert j in Used(vectors[i]);
    OfferedGrows(m, vectors, free, w, 0, i);
    OfferedGrows(m, vectors, free, w, i + 1, |vectors|);
    var a, b := Offered(vectors, free, w, i) + 1, j + 1;
    assert DrawHits(vectors, free, w, a, i) && NextUsed(vectors[i], b - 1, j);
    assert Drawn(vectors, free, w, a, b, ip);
  }

  /** Only eligible peers of the map are returned. */
  lemma DrawnIsEligible(m: map<Ip, BootstrapEntry>, vectors: seq<Slots>, free: seq<seq<nat>>, w: Wanted, a: nat, b: nat,
                        ip: Ip)
    requires IndexOk(m, vectors, free) && Drawn(vectors, free, w, a, b, ip)
    ensures ip in m && Eligible(m[ip], w)
  {
    var i: nat, j: nat :| i < |vectors| && j < |vectors[i]| && DrawHits(vectors, free, w, a, i)
      && 1 <= b <= |vectors[i]| && NextUsed(vectors[i], b - 1, j) && vectors[i][j] == Some(ip);
    assert SlotUsed(vectors[i][j], i, j, m);
    SkippedIffNotEligible(m[ip], w);
  }

  /** The sum is zero only if nobody is eligible. */
  lemma {:induction false} NothingOffered(m: map<Ip, BootstrapEntry>, vectors: seq<Slots>, free: seq<seq<nat>>,
                                          w: Wanted)
    requires IndexOk(m, vectors, free)
    ensures Offered(vectors, free, w, |vectors|) == 0 ==> forall ip :: ip in m ==> !Eligible(m[ip], w)
  {
    forall ip | ip in m && Eligible(m[ip], w)
      ensures Offered(vectors, free, w, |vectors|) > 0
    {
      EveryEligiblePeerCanBeDrawn(m, vectors, free, w, ip);
    }
  }

  lemma HitVectorIsUsed(m: map<Ip, BootstrapEntry>, vectors: seq<Slots>, free: seq<seq<nat>>, w: Wanted, a: nat, i: nat)
    requires IndexOk(m, vectors, free) && i < |vectors| && DrawHits(vectors, free, w, a, i)
    ensures exists k: nat :: k < |vectors[i]| && vectors[i][k].Some?
  {
    assert HolesListed(vectors[i], free[i]);
    UsedCount(vectors[i], free[i]);
    var k: nat :| k in Used(vectors[i]);
  }

  lemma HitsOnce(m: map<Ip, BootstrapEntry>, vectors: seq<Slots>, free: seq<seq<nat>>, w: Wanted, a: nat, i: nat,
                 k: nat)
    requires IndexOk(m, vectors, free) && i < |vectors| && k < |vectors|
    requires DrawHits(vectors, free, w, a, i) && DrawHits(vectors, free, w, a, k)
    ensures i == k
  {
    if i < k {
      OfferedGrows(m, vectors, free, w, i + 1, k);
    } else if k < i {
      OfferedGrows(m, vectors, free, w, k + 1, i);
    }
  }

  /** The same two draws never return two peers. */
  lemma DrawnOnce(m: map<Ip, BootstrapEntry>, vectors: seq<Slots>, free: seq<seq<nat>>, w: Wanted, a: nat, b: nat,
                  p: Ip, q: Ip)
    requires IndexOk(m, vectors, free) && |vectors| == |free|
    requires Drawn(vectors, free, w, a, b, p) && Drawn(vectors, free, w, a, b, q)
    ensures p == q
  {
    hide IndexOk, DrawHits;
    var i: nat, j: nat :| i < |vectors| && j < |vectors[i]| && DrawHits(vectors, free, w, a, i)
      && 1 <= b <= |vectors[i]| && NextUsed(vectors[i], b - 1, j) && vectors[i][j] == Some(p);
    var k: nat, l: nat :| k < |vectors| && l < |vectors[k]| && DrawHits(vectors, free, w, a, k)
      && 1 <= b <= |vectors[k]| && NextUsed(vectors[k], b - 1, l) && vectors[k][l] == Some(q);
    HitsOnce(m, vectors, free, w, a, i, k);
    assert j == l;
  }

  // ----- the addresses of one peer

  /** The position of the overlay's first entry, or the length of the vector. */
  function PositionOf(addrs: seq<AddrPerOverlay>, overlayId: int): (i: nat)
    ensures i <= |addrs|
    ensures forall j :: 0 <= j < i ==> addrs[j].overlayId != overlayId
    ensures i < |addrs| ==> addrs[i].overlayId == overlayId
  {
    if addrs == [] then 0
    else
      var last := |addrs| - 1;
      var i := PositionOf(addrs[..last], overlayId);
      if i == last && addrs[last].overlayId != overlayId then last + 1 else i
  }

  function AddressIn(addrs: seq<AddrPerOverlay>, overlayId: int): (ta: Option<nat>) {
    var i := PositionOf(addrs, overlayId);
    if i < |addrs| then Some(addrs[i].ta) else None
  }

  predicate BootstrappedIn(addrs: seq<AddrPerOverlay>, overlayId: int) {
    var i := PositionOf(addrs, overlayId);
    i < |addrs| && addrs[i].bootstrapped
  }

  method GetIterForOverlayId(addrs: seq<AddrPerOverlay>, overlayId: int) returns (i: nat)
    ensures i == PositionOf(addrs, overlayId)
  {
    i := 0;
    while i < |addrs|
      invariant i <= |addrs|
      invariant forall j :: 0 <= j < i ==> addrs[j].overlayId != overlayId
    {
      if addrs[i].overlayId == overlayId {
        return;
      }
      i := i + 1;
    }
  }

  /** Registering an address in one overlay changes no flag and no other overlay's address. */
  method SetAddrForOverlayId(addrs: seq<AddrPerOverlay>, ta: nat, overlayId: int) returns (r: seq<AddrPerOverlay>)
    ensures AnyBootstrapped(r) == AnyBootstrapped(addrs)
    ensures AddressIn(r, overlayId) == Some(ta)
    ensures forall o :: o != overlayId ==> AddressIn(r, o) == AddressIn(addrs, o)
    ensures forall o :: BootstrappedIn(r, o) == BootstrappedIn(addrs, o)
  {
    var i := GetIterForOverlayId(addrs, overlayId);
    if i < |addrs| {
      r := addrs[i := addrs[i].(ta := ta)];
    } else {
      r := addrs + [AddrPerOverlay(overlayId, ta, false)];
    }
    SameFlags(addrs, r);
    forall o
      ensures o != overlayId ==> AddressIn(r, o) == AddressIn(addrs, o)
      ensures BootstrappedIn(r, o) == BootstrappedIn(addrs, o)
    {
      var j, k := PositionOf(addrs, o), PositionOf(r, o);
      assert j < |addrs| ==> r[j].overlayId == addrs[j].overlayId;
      assert k < |addrs| ==> r[k].overlayId == addrs[k].overlayId;
    }
  }

  lemma FlagSet(addrs: seq<AddrPerOverlay>, i: nat, overlayId: int, bootstrapped: bool)
    requires i < |addrs| && i == PositionOf(addrs, overlayId)
    ensures var r := addrs[i := addrs[i].(bootstrapped := bootstrapped)];
            && BootstrappedIn(r, overlayId) == bootstrapped
            && (forall o :: o != overlayId ==> BootstrappedIn(r, o) == BootstrappedIn(addrs, o))
            && (forall o :: AddressIn(r, o) == AddressIn(addrs, o))
  {
    var r := addrs[i := addrs[i].(bootstrapped := bootstrapped)];
    forall o
      ensures PositionOf(r, o) == PositionOf(addrs, o)
    {
      var j, k := PositionOf(addrs, o), PositionOf(r, o);
      assert j < |addrs| ==> r[j].overlayId == addrs[j].overlayId;
      assert k < |addrs| ==> r[k].overlayId == addrs[k].overlayId;
    }
  }

  lemma SameFlags(addrs: seq<AddrPerOverlay>, r: seq<AddrPerOverlay>)
    requires |addrs| <= |r|
    requires forall i :: 0 <= i < |addrs| ==> r[i].bootstrapped == addrs[i].bootstrapped
    requires forall i :: |addrs| <= i < |r| ==> !r[i].bootstrapped
    ensures AnyBootstrapped(r) == AnyBootstrapped(addrs)
  {
  }

  /** The loop over a peer's overlays that opens the insertion into and the removal from a vector. */
  method BucketOf(e: BootstrapEntry) returns (b: nat)
    ensures b == Bucket(e) && b < (e.info.typeId + 1) * OFFSET_SIZE
  {
    var bootstrapped := false;
    var i := 0;
    while i < |e.addrVector|
      invariant i <= |e.addrVector|
      invariant bootstrapped == AnyBootstrapped(e.addrVector[..i])
    {
      assert e.addrVector[..i + 1] == e.addrVector[..i] + [e.addrVector[i]];
      bootstrapped := bootstrapped || e.addrVector[i].bootstrapped;
      i := i + 1;
    }
    assert e.addrVector[..i] == e.addrVector;
    b := e.info.typeId * OFFSET_SIZE + CalcOffset(bootstrapped, e.info.malicious);
  }

  class PeerStorage {
    var peerHashMap: map<Ip, BootstrapEntry>
    var peerVector: seq<Slots>
    var freeVector: seq<seq<nat>>

    ghost predicate Valid()
      reads this
    {
      IndexOk(peerHashMap, peerVector, freeVector)
    }

    /** Everything agrees but for one peer, which is in the map and in no vector. */
    ghost predicate ValidBut(ip: Ip)
      reads this
    {
      IndexOk(Without(peerHashMap, ip), peerVector, freeVector)
    }

    constructor ()
      ensures Valid() && peerHashMap == map[]
    {
      peerHashMap, peerVector, freeVector := map[], [], [];
    }

    /** The vectors are made to reach up to a type's partition. */
    method Reserve(partition: nat)
      modifies this`peerVector, this`freeVector
      ensures peerVector == Grown(old(peerVector), (partition + 1) * OFFSET_SIZE)
      ensures |peerVector| == (if |old(peerVector)| > 4 * partition + 4 then |old(peerVector)| else 4 * partition + 4)
      ensures old(peerVector) <= peerVector && forall b :: |old(peerVector)| <= b < |peerVector| ==> peerVector[b] == []
      ensures |old(peerVector)| == |old(freeVector)| ==>
              freeVector == Grown(old(freeVector), (partition + 1) * OFFSET_SIZE)
    {
      if |peerVector| < (partition + 1) * OFFSET_SIZE {
        peerVector := Grown(peerVector, (partition + 1) * OFFSET_SIZE);
        freeVector := Grown(freeVector, (partition + 1) * OFFSET_SIZE);
      }
    }

    /** A hole is used again if there is one. */
    method TakeSlot(b: nat, ip: Ip) returns (index: nat)
      requires b < |peerVector| == |freeVector| && HolesListed(peerVector[b], freeVector[b])
      modifies this`peerVector, this`freeVector
      ensures |peerVector| == |freeVector| == |old(peerVector)| && HolesListed(peerVector[b], freeVector[b])
      ensures peerVector == old(peerVector)[b := peerVector[b]] && freeVector == old(freeVector)[b := freeVector[b]]
      ensures if index == |old(peerVector)[b]| then peerVector[b] == old(peerVector)[b] + [Some(ip)]
              else index < |old(peerVector)[b]| && old(peerVector)[b][index] == None
                   && peerVector[b] == old(peerVector)[b][index := Some(ip)]
    {
      var slots, holes := peerVector[b], freeVector[b];
      SlotTaken(slots, holes, ip);
      hide HolesListed;
      if |holes| != 0 {
        index := holes[|holes| - 1];
        freeVector := freeVector[b := holes[..|holes| - 1]];
        peerVector := peerVector[b := slots[index := Some(ip)]];
      } else {
        index := |slots|;
        peerVector := peerVector[b := slots + [Some(ip)]];
      }
    }

    method InsertMapIteratorIntoVector(ip: Ip)
      requires ip in peerHashMap && ValidBut(ip)
      modifies this
      ensures Valid() && ip in peerHashMap
      ensures peerHashMap
              == old(peerHashMap)[ip := old(peerHashMap[ip]).(peerVectorIndex := peerHashMap[ip].peerVectorIndex)]
    {
      var entry := peerHashMap[ip];
      ghost var m := Without(peerHashMap, ip);
      var b := BucketOf(entry);
      GrownOk(m, peerVector, freeVector, entry.info.typeId + 1);
      Reserve(entry.info.typeId);
      ghost var vectors, free := peerVector, freeVector;
      assert IndexOk(m, vectors, free);
      assert b < |vectors| == |free| && HolesListed(vectors[b], free[b]);
      hide IndexOk, Grown, AnyBootstrapped;
      var index := TakeSlot(b, ip);
      peerHashMap := peerHashMap[ip := entry.(peerVectorIndex := index)];
      WithoutUpdated(old(peerHashMap), ip, peerHashMap[ip]);
      SlotGained(m, peerHashMap, vectors, free, ip, peerVector[b], freeVector[b]);
    }

    method RemoveMapIteratorFromVector(ip: Ip)
      requires ip in peerHashMap && Valid()
      modifies this`peerVector, this`freeVector
      ensures ValidBut(ip)
    {
      var entry := peerHashMap[ip];
      var b := BucketOf(entry);
      var index := entry.peerVectorIndex;
      ghost var vectors, free := peerVector, freeVector;
      assert PeerIndexed(ip, entry, peerVector) && HolesListed(peerVector[b], freeVector[b]);
      SlotFreed(peerVector[b], freeVector[b], index);
      if |peerVector[b]| == index + 1 {
        peerVector := peerVector[b := peerVector[b][..index]];
      } else {
        peerVector := peerVector[b := peerVector[b][index := None]];
        freeVector := freeVector[b := freeVector[b] + [index]];
      }
      SlotLost(peerHashMap, vectors, free, ip, peerVector[b], freeVector[b]);
      assert freeVector == free[b := freeVector[b]];
    }

    /** A new peer is added; a known address changes nothing. */
    method Insert(ip: Ip, entry: BootstrapEntry) returns (inserted: bool)
      requires Valid()
      modifies this
      ensures Valid()
      ensures inserted <==> ip !in old(peerHashMap)
      ensures !inserted ==>
              peerHashMap == old(peerHashMap) && peerVector == old(peerVector) && freeVector == old(freeVector)
      ensures ip in peerHashMap
      ensures inserted ==>
              peerHashMap == old(peerHashMap)[ip := entry.(peerVectorIndex := peerHashMap[ip].peerVectorIndex)]
    {
      inserted := ip !in peerHashMap;
      if inserted {
        assert Without(peerHashMap, ip) == peerHashMap;
        WithoutUpdated(peerHashMap, ip, entry);
        peerHashMap := peerHashMap[ip := entry];
        InsertMapIteratorIntoVector(ip);
      }
    }

    method Erase(ip: Ip)
      requires Valid() && ip in peerHashMap
      modifies this
      ensures Valid() && peerHashMap == Without(old(peerHashMap), ip)
    {
      RemoveMapIteratorFromVector(ip);
      peerHashMap := Without(peerHashMap, ip);
    }

    /** The peer's address in one overlay is set, and its vector does not change. */
    method RegisterOverlay(ip: Ip, ta: nat, overlayId: int)
      requires Valid() && ip in peerHashMap
      modifies this`peerHashMap
      ensures Valid()
      ensures ip in peerHashMap && AddressIn(peerHashMap[ip].addrVector, overlayId) == Some(ta)
      ensures forall o :: o != overlayId ==>
                AddressIn(peerHashMap[ip].addrVector, o) == AddressIn(old(peerHashMap[ip]).addrVector, o)
      ensures forall o ::
                BootstrappedIn(peerHashMap[ip].addrVector, o) == BootstrappedIn(old(peerHashMap[ip]).addrVector, o)
      ensures peerHashMap == old(peerHashMap)[ip := old(peerHashMap[ip]).(addrVector := peerHashMap[ip].addrVector)]
    {
      var entry := peerHashMap[ip];
      var addrs := SetAddrForOverlayId(entry.addrVector, ta, overlayId);
      peerHashMap := peerHashMap[ip := entry.(addrVector := addrs)];
      EntryChanged(old(peerHashMap), peerVector, freeVector, ip, peerHashMap[ip]);
    }

    method SetMalicious(ip: Ip, malicious: bool)
      requires Valid() && ip in peerHashMap
      modifies this
      ensures Valid() && ip in peerHashMap
      ensures peerHashMap
              == old(peerHashMap)[ip :=
                                  old(peerHashMap[ip]).(info := old(peerHashMap[ip]).info.(malicious := malicious),
                                                                         peerVectorIndex :=
                                                                             peerHashMap[ip].peerVectorIndex)]
    {
      hide *;
      RemoveMapIteratorFromVector(ip);
      Replace(ip, peerHashMap[ip].(info := peerHashMap[ip].info.(malicious := malicious)));
      InsertMapIteratorIntoVector(ip);
    }

    /** The assignments through the iterator between a removal and an insertion. */
    method Replace(ip: Ip, entry: BootstrapEntry)
      requires ip in peerHashMap && ValidBut(ip)
      modifies this`peerHashMap
      ensures peerHashMap == old(peerHashMap)[ip := entry] && ValidBut(ip)
    {
      WithoutUpdated(peerHashMap, ip, entry);
      peerHashMap := peerHashMap[ip := entry];
    }

    /** Fails for an overlay that the peer has not registered for, if the flag is to be set. The exception then
        leaves the peer in the map and out of every vector. */
    method SetBootstrapped(ip: Ip, overlayId: int, bootstrapped: bool) returns (ok: bool)
      requires Valid() && ip in peerHashMap
      modifies this
      ensures ok <==> !bootstrapped || AddressIn(old(peerHashMap[ip]).addrVector, overlayId).Some?
      ensures !ok ==> peerHashMap == old(peerHashMap) && ValidBut(ip) && !Valid()
      ensures ip in peerHashMap && (ok ==> Valid())
      ensures ok ==>
              peerHashMap == old(peerHashMap)[ip := old(peerHashMap[ip]).(addrVector := peerHashMap[ip].addrVector,
                                                                                peerVectorIndex :=
                                                                                    peerHashMap[ip].peerVectorIndex)]
      ensures ok ==> BootstrappedIn(peerHashMap[ip].addrVector, overlayId) == bootstrapped
      ensures ok ==> forall o :: o != overlayId ==>
                BootstrappedIn(peerHashMap[ip].addrVector, o) == BootstrappedIn(old(peerHashMap[ip]).addrVector, o)
      ensures ok ==>
              forall o :: AddressIn(peerHashMap[ip].addrVector, o) == AddressIn(old(peerHashMap[ip]).addrVector, o)
    {
      hide IndexOk, AnyBootstrapped, Bucket;
      RemoveMapIteratorFromVector(ip);
      var entry := peerHashMap[ip];
      var i := GetIterForOverlayId(entry.addrVector, overlayId);
      if i < |entry.addrVector| {
        FlagSet(entry.addrVector, i, overlayId, bootstrapped);
        Replace(ip, entry.(addrVector := entry.addrVector[i := entry.addrVector[i].(bootstrapped := bootstrapped)]));
      } else if bootstrapped {
        UnindexedIsInvalid(peerHashMap, peerVector, freeVector, ip);
        return false;
      }
      InsertMapIteratorIntoVector(ip);
      return true;
    }

    /** The sum over the vectors that are not skipped. */
    method SumOffered(w: Wanted) returns (sum: int)
      requires |peerVector| == |freeVector|
      ensures sum == Offered(peerVector, freeVector, w, |peerVector|)
    {
      sum := 0;
      for i := 0 to |peerVector|
        invariant sum == Offered(peerVector, freeVector, w, i)
      {
        if Skipped(i, w) {
          continue;
        }
        sum := sum + |peerVector[i]| - |freeVector[i]|;
      }
    }

    /** The walk to the vector that a drawn number falls into. */
    method FindVector(w: Wanted, draw: nat) returns (i: nat)
      requires |peerVector| == |freeVector|
      requires 1 <= draw <= Offered(peerVector, freeVector, w, |peerVector|)
      ensures i < |peerVector| && DrawHits(peerVector, freeVector, w, draw, i)
    {
      i := 0;
      var random: int := draw;
      while i < |peerVector|
        invariant i <= |peerVector|
        invariant random == draw - Offered(peerVector, freeVector, w, i) && random >= 1
      {
        if Skipped(i, w) {
          i := i + 1;
        } else if |peerVector[i]| - |freeVector[i]| < random {
          random := random - (|peerVector[i]| - |freeVector[i]|);
          i := i + 1;
        } else {
          break;
        }
      }
    }

    /** The search for the next peer, which wraps around at the end of the vector. */
    method Probe(i: nat, draw: nat) returns (ip: Ip, ghost j: nat)
      requires i < |peerVector| && 1 <= draw <= |peerVector[i]|
      requires exists k: nat :: k < |peerVector[i]| && peerVector[i][k].Some?
      ensures j < |peerVector[i]| && NextUsed(peerVector[i], draw - 1, j) && peerVector[i][j] == Some(ip)
    {
      var slots := peerVector[i];
      ghost var k: nat :| k < |slots| && slots[k].Some?;
      var random := draw;
      var it := slots[random - 1];
      ghost var wrapped := false;
      while it == None
        invariant 1 <= random <= |slots| && it == slots[random - 1]
        invariant !wrapped ==> draw <= random && forall n :: draw - 1 <= n < random - 1 ==> slots[n] == None
        invariant wrapped ==> random < draw && (forall n :: draw - 1 <= n < |slots| ==> slots[n] == None)
                              && (forall n :: 0 <= n < random - 1 ==> slots[n] == None)
        decreases if wrapped then 0 else 1, |slots| - random
      {
        if random == |slots| {
          random := 0;
          wrapped := true;
        }
        random := random + 1;
        it := slots[random - 1];
      }
      return it.value, random - 1;
    }

    ghost predicate DecidedBy(first: nat -> nat, second: nat -> nat, w: Wanted, ip: Ip)
      requires |peerVector| == |freeVector|
      reads this
    {
      var sum := Offered(peerVector, freeVector, w, |peerVector|);
      sum >= 1 &&
      var a := first(sum);
      exists i: nat :: i < |peerVector| && DrawHits(peerVector, freeVector, w, a, i)
        && Drawn(peerVector, freeVector, w, a, second(|peerVector[i]|), ip)
    }

    /** Nobody is returned only if nobody is eligible, and otherwise the eligible peer that the draws decide on.
        The draws stand for the random number generator, asked for a number from 1 to its argument. */
    method GetRandomNode(w: Wanted, first: nat -> nat, second: nat -> nat) returns (r: Option<Ip>)
      requires Valid()
      requires forall n: nat :: n >= 1 ==> 1 <= first(n) <= n && 1 <= second(n) <= n
      ensures r.None? <==> forall ip :: ip in peerHashMap ==> !Eligible(peerHashMap[ip], w)
      ensures r.Some? ==> r.value in peerHashMap && Eligible(peerHashMap[r.value], w)
      ensures r.Some? && w.nodeType > -1 ==> peerHashMap[r.value].info.typeId == w.nodeType
      ensures r.Some? && w.bootstrappedNeeded ==> exists a :: a in peerHashMap[r.value].addrVector && a.bootstrapped
      ensures r.Some? && w.inoffensiveNeeded ==> !peerHashMap[r.value].info.malicious
      ensures r.None? ==> forall ip :: ip in peerHashMap ==>
                var e := peerHashMap[ip];
                || (w.nodeType > -1 && e.info.typeId != w.nodeType)
                || (w.bootstrappedNeeded && forall a :: a in e.addrVector ==> !a.bootstrapped)
                || (w.inoffensiveNeeded && e.info.malicious)
      ensures r.Some? ==> DecidedBy(first, second, w, r.value)
    {
      if |peerHashMap| == 0 {
        return None;
      }
      var sum := SumOffered(w);
      OfferedGrows(peerHashMap, peerVector, freeVector, w, 0, |peerVector|);
      if sum == 0 {
        NothingOffered(peerHashMap, peerVector, freeVector, w);
        return None;
      }
      var a := first(sum);
      var i := FindVector(w, a);
      HitVectorIsUsed(peerHashMap, peerVector, freeVector, w, a, i);
      var b := second(|peerVector[i]|);
      var ip, j := Probe(i, b);
      assert Drawn(peerVector, freeVector, w, a, b, ip);
      DrawnIsEligible(peerHashMap, peerVector, freeVector, w, a, b, ip);
      return Some(ip);
    }
  }
}
