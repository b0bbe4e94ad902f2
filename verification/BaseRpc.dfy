/** Remote procedure calls with retries (src/common/BaseRpc.cc): every call is registered under a nonce until it is
    answered, has timed out for good or is cancelled. Times are ticks of the simulation clock. */
module BaseRpc {
  import opened Wrappers

  type Time = int

  type Key = nat

  type Nonce = nat

  datatype Transport = INTERNAL | UDP | ROUTE

  /** The destination: its key if it is a node handle, and whether its address is specified. */
  datatype Destination = Destination(handleKey: Option<Key>, specified: bool)

  /** timer is the time at which the timeout message is scheduled, if it is. */
  datatype RpcState = RpcState(id: int, dest: Destination, destKey: Option<Key>, transport: Transport,
                               timeSent: Time, retries: int, rto: Time, timer: Option<Time>)

  datatype Message = Timeout(nonce: Nonce) | Response(nonce: Nonce, srcKey: Key, callHopCount: int)

  /** What a message did: nothing, a retry, nothing because of a wrong key, or it ended the call. The neighbor cache is
      told of a timeout or of a round trip time. */
  datatype Reaction = Unknown | Resent | WrongKey | TimedOut(tellCache: bool) | Answered(rtt: Time, tellCache: bool)

  /** A call as it was registered, and how often it was sent. */
  datatype Call = Call(serial: nat, start: Time, retries: int, rto: Time, sends: nat)

  datatype Ending = Ending(reason: Reason, call: Call, time: Time)

  datatype Reason = Response | FinalTimeout | Cancel

  // ----- the timeouts of one call

  /** The timeout after k retries. */
  function Rto(rto: Time, k: nat, backoff: bool): (r: Time)
    ensures rto >= 0 ==> r >= rto
    ensures rto == 0 ==> r == 0
  {
    if k == 0 then rto else Rto(rto, k - 1, backoff) * if backoff then 2 else 1
  }

  /** The time that k timeouts take. */
  function Spent(rto: Time, k: nat, backoff: bool): (r: Time)
    ensures rto >= 0 ==> r >= 0
  {
    if k == 0 then 0 else Spent(rto, k - 1, backoff) + Rto(rto, k - 1, backoff)
  }

  function Factor(k: nat, backoff: bool): nat {
    if backoff then Pow2(k) else 1
  }

  lemma {:induction false} RtoIs(rto: Time, k: nat, backoff: bool)
    ensures Rto(rto, k, backoff) == rto * Factor(k, backoff)
  {
    if k > 0 {
      RtoIs(rto, k - 1, backoff);
      Doubled(rto, Factor(k - 1, backoff));
    }
  }

  lemma Doubled(a: int, b: int)
    ensures a * b * 2 == a * (2 * b) && a * (b - 1) + a * b == a * (2 * b - 1)
  {
  }

  /** All timeouts together: the first one as often as the call is sent, or that times all powers of two. */
  lemma {:induction false} SpentIs(rto: Time, k: nat, backoff: bool)
    ensures Spent(rto, k, backoff) == rto * if backoff then Pow2(k) - 1 else k
  {
    if k > 0 {
      assert Spent(rto, k, backoff) == Spent(rto, k - 1, backoff) + Rto(rto, k - 1, backoff);
      SpentIs(rto, k - 1, backoff);
      RtoIs(rto, k - 1, backoff);
      hide Spent, Rto;
      Doubled(rto, Pow2(k - 1));
      assert rto * (k - 1) + rto == rto * k;
    }
  }

  lemma {:induction false} SpentGrows(rto: Time, j: nat, k: nat, backoff: bool)
    requires j <= k && rto >= 0
    ensures Spent(rto, j, backoff) <= Spent(rto, k, backoff)
    decreases k
  {
    if j < k {
      SpentGrows(rto, j, k - 1, backoff);
    }
  }

  /** How often a call may be sent. */
  function MaxSends(c: Call): (r: nat) {
    if c.retries < 0 then 1 else c.retries + 1
  }

  function Deadline(c: Call, backoff: bool): Time {
    c.start + Spent(c.rto, MaxSends(c), backoff)
  }

  /** A registered call between events: the last of its sends was as long ago as its timer tells. */
  ghost predicate Pending(s: RpcState, c: Call, now: Time, backoff: bool) {
    && 1 <= c.sends <= MaxSends(c) && c.rto >= 0
    && s.retries == c.retries - (c.sends - 1)
    && s.rto == Rto(c.rto, c.sends - 1, backoff)
    && s.timeSent == c.start + Spent(c.rto, c.sends - 1, backoff)
    && s.timeSent <= now
    && s.timer == (if c.rto == 0 then None else Some(s.timeSent + s.rto))
    && (c.rto > 0 ==> now <= s.timer.value)
  }

  lemma SentOnce(s: RpcState, c: Call, now: Time, backoff: bool)
    requires c.sends == 1 && c.start == s.timeSent == now && s.retries == c.retries && s.rto == c.rto >= 0
    requires s.timer == if s.rto != 0 then Some(now + s.rto) else None
    ensures Pending(s, c, now, backoff)
  {
  }

  /** A call that has ended: it was not sent too often, did not last too long, and timed out only after all retries. */
  ghost predicate Ended(e: Ending, backoff: bool) {
    && 1 <= e.call.sends <= MaxSends(e.call)
    && (e.call.rto > 0 ==> e.time <= Deadline(e.call, backoff))
    && (e.reason == FinalTimeout ==>
        e.call.rto > 0 && e.call.sends == MaxSends(e.call) && e.time == Deadline(e.call, backoff))
  }

  lemma PendingInTime(s: RpcState, c: Call, now: Time, backoff: bool, reason: Reason)
    requires Pending(s, c, now, backoff) && reason != FinalTimeout
    ensures Ended(Ending(reason, c, now), backoff)
  {
    if c.rto > 0 {
      SpentGrows(c.rto, c.sends, MaxSends(c), backoff);
    }
  }

  /** The state of a call after a retry. */
  function Again(s: RpcState, now: Time, backoff: bool): RpcState {
    var rto := s.rto * if backoff then 2 else 1;
    s.(retries := s.retries - 1, rto := rto, timer := if rto != 0 then Some(now + rto) else None, timeSent := now)
  }

  /** One retry less; the timeout that starts now is twice as long as the last one under backoff, and just as long
      without. */
  ghost predicate SetAnew(s: RpcState, after: RpcState, now: Time, backoff: bool) {
    && after.id == s.id && after.dest == s.dest && after.destKey == s.destKey && after.transport == s.transport
    && after.retries + 1 == s.retries && after.timeSent == now
    && (if backoff then after.rto == s.rto + s.rto else after.rto == s.rto)
    && (after.rto == 0 ==> after.timer == None) && (after.rto != 0 ==> after.timer == Some(now + after.rto))
  }

  lemma SetAnewIs(s: RpcState, now: Time, backoff: bool)
    ensures SetAnew(s, Again(s, now, backoff), now, backoff)
  {
  }

  function SentAgain(c: Call): (r: Call)
    ensures r.serial == c.serial
  {
    c.(sends := c.sends + 1)
  }

  /** One timer later: a retry, or the end. */
  lemma TimerFires(s: RpcState, c: Call, now: Time, backoff: bool)
    requires Pending(s, c, now, backoff) && s.timer == Some(now)
    ensures s.retries - 1 >= 0 ==>
              Pending(Again(s, now, backoff), SentAgain(c), now, backoff)
    ensures s.retries - 1 < 0 ==> Ended(Ending(FinalTimeout, c, now), backoff)
    ensures s.rto > 0 && c.rto > 0
  {
    assert Rto(c.rto, c.sends, backoff) == Rto(c.rto, c.sends - 1, backoff) * if backoff then 2 else 1;
    assert Spent(c.rto, c.sends, backoff) == Spent(c.rto, c.sends - 1, backoff) + Rto(c.rto, c.sends - 1, backoff);
  }

  // ----- the map of the calls

  type States = map<Nonce, RpcState>

  type Calls = map<Nonce, Call>

  type Endings = map<nat, Ending>

  /** Every call that was ever registered is either registered, under one nonce, or has one ending. */
  ghost predicate RpcsOk(states: States, calls: Calls, endings: Endings, serials: nat, now: Time, backoff: bool) {
    && states.Keys == calls.Keys
    && (forall n :: n in states ==>
        Pending(states[n], calls[n], now, backoff) && calls[n].serial < serials && calls[n].serial !in endings)
    && (forall m, n :: m in calls && n in calls && m != n ==> calls[m].serial != calls[n].serial)
    && (forall i :: i in endings ==> i < serials && endings[i].call.serial == i && Ended(endings[i], backoff))
    && (forall i: nat :: i < serials ==> i in endings || Registered(i, calls))
  }

  ghost predicate Registered(serial: nat, calls: Calls) {
    exists n :: n in calls && calls[n].serial == serial
  }

  lemma OkIfRegistered(states: States, calls: Calls, endings: Endings, serials: nat, now: Time, backoff: bool, n: Nonce,
                       s: RpcState, c: Call)
    requires RpcsOk(states, calls, endings, serials, now, backoff) && n !in states
    requires Pending(s, c, now, backoff) && c.serial == serials
    ensures RpcsOk(states[n := s], calls[n := c], endings, serials + 1, now, backoff)
  {
    hide Pending, Ended;
    var calls' := calls[n := c];
    forall i: nat | i < serials + 1 && i !in endings
      ensures Registered(i, calls')
    {
      if i == serials {
        assert calls'[n].serial == i;
      } else {
        assert Registered(i, calls);
        var m :| m in calls && calls[m].serial == i;
        assert calls'[m].serial == i;
      }
    }
  }

  lemma OkIfResent(states: States, calls: Calls, endings: Endings, serials: nat, now: Time, backoff: bool, n: Nonce,
                   s: RpcState, c: Call)
    requires RpcsOk(states, calls, endings, serials, now, backoff) && n in states
    requires Pending(s, c, now, backoff) && c.serial == calls[n].serial
    ensures RpcsOk(states[n := s], calls[n := c], endings, serials, now, backoff)
  {
    hide Pending, Ended;
    var calls' := calls[n := c];
    forall i: nat | i < serials && i !in endings
      ensures Registered(i, calls')
    {
      assert Registered(i, calls);
      var m :| m in calls && calls[m].serial == i;
      assert calls'[m].serial == i;
    }
  }

  lemma OkIfEnded(states: States, calls: Calls, endings: Endings, serials: nat, now: Time, backoff: bool, n: Nonce,
                  e: Ending)
    requires RpcsOk(states, calls, endings, serials, now, backoff) && n in states
    requires e.call == calls[n] && Ended(e, backoff)
    ensures RpcsOk(states - {n}, calls - {n}, endings[calls[n].serial := e], serials, now, backoff)
  {
    hide Pending, Ended;
    var calls', endings' := calls - {n}, endings[calls[n].serial := e];
    forall i: nat | i < serials && i !in endings'
      ensures Registered(i, calls')
    {
      assert Registered(i, calls);
      var m :| m in calls && calls[m].serial == i;
      assert calls'[m].serial == i;
    }
  }

  lemma NotEndedYet(states: States, calls: Calls, endings: Endings, serials: nat, now: Time, backoff: bool, n: Nonce)
    requires RpcsOk(states, calls, endings, serials, now, backoff) && n in states
    ensures n in calls && calls[n].serial !in endings
  {
  }

  class BaseRpc {
    const rpcExponentialBackoff: bool
    const rpcUdpTimeout: Time
    const rpcKeyTimeout: Time
    const optimizeTimeouts: bool
    var now: Time
    var rpcStates: States

    /** The registered calls, the endings of the others, and how many there were. */
    ghost var calls: Calls
    ghost var endings: Endings
    ghost var serials: nat

    ghost predicate Valid()
      reads this
    {
      && rpcUdpTimeout >= 0 && rpcKeyTimeout >= 0
      && RpcsOk(rpcStates, calls, endings, serials, now, rpcExponentialBackoff)
    }

    constructor (rpcExponentialBackoff: bool, rpcUdpTimeout: Time, rpcKeyTimeout: Time, optimizeTimeouts: bool,
                 now: Time)
      requires rpcUdpTimeout >= 0 && rpcKeyTimeout >= 0
      ensures Valid() && rpcStates == map[] && calls == map[] && endings == map[] && serials == 0 && this.now == now
      ensures this.rpcExponentialBackoff == rpcExponentialBackoff
    {
      this.rpcExponentialBackoff := rpcExponentialBackoff;
      this.rpcUdpTimeout, this.rpcKeyTimeout := rpcUdpTimeout, rpcKeyTimeout;
      this.optimizeTimeouts, this.now := optimizeTimeouts, now;
      rpcStates, calls, endings, serials := map[], map[], map[], 0;
    }

    /** The clock moves on, but not past a scheduled timeout message. */
    method Elapse(later: Time)
      requires Valid() && now <= later
      requires forall n :: n in rpcStates && rpcStates[n].timer.Some? ==> later <= rpcStates[n].timer.value
      modifies this`now
      ensures Valid() && now == later
    {
      forall n | n in rpcStates
        ensures Pending(rpcStates[n], calls[n], later, rpcExponentialBackoff)
      {
        assert Pending(rpcStates[n], calls[n], now, rpcExponentialBackoff);
      }
      hide Pending, Ended;
      now := later;
    }

    /** At any time, a call that is registered and has a timeout has not been sent too often, and its last deadline is
        still to come. */
    lemma RegisteredInTime(n: Nonce)
      requires Valid() && n in rpcStates
      ensures n in calls && calls[n].sends <= MaxSends(calls[n])
      ensures calls[n].rto > 0 ==>
                now <= calls[n].start + calls[n].rto * if rpcExponentialBackoff then Pow2(MaxSends(calls[n])) - 1
                                                       else MaxSends(calls[n])
    {
      var c := calls[n];
      assert Pending(rpcStates[n], c, now, rpcExponentialBackoff);
      PendingInTime(rpcStates[n], c, now, rpcExponentialBackoff, Cancel);
      SpentIs(c.rto, MaxSends(c), rpcExponentialBackoff);
    }

    lemma TimerOf(n: Nonce)
      requires Valid() && n in rpcStates
      ensures n in calls && Pending(rpcStates[n], calls[n], now, rpcExponentialBackoff)
      ensures (calls[n].rto > 0 ==> rpcStates[n].timer.Some? && now <= rpcStates[n].timer.value)
    {
    }

    lemma EndedOf(serial: nat)
      requires Valid() && serial in endings
      ensures Ended(endings[serial], rpcExponentialBackoff)
    {
    }

    function DefaultTimeout(transport: Transport, destKey: Option<Key>, nodeTimeout: Time): (t: Time) {
      match transport
      case INTERNAL => 0
      case UDP => if optimizeTimeouts && nodeTimeout != -1 then nodeTimeout else rpcUdpTimeout
      case ROUTE => if destKey.None? then rpcUdpTimeout else rpcKeyTimeout
    }

    /** A call is registered under a free nonce, its timeout is scheduled unless it is zero, and it is sent. A timeout
        of -1 asks for the default; nodeTimeout is what the neighbor cache knows of the destination, or -1. */
    method SendRpcCall(nonce: Nonce, transport: Transport, dest: Destination, destKey: Option<Key>, timeout: Time,
                       retries: int, id: int, nodeTimeout: Time)
      requires Valid() && nonce !in rpcStates && timeout >= -1 && nodeTimeout >= -1
      modifies this`rpcStates, this`calls, this`serials
      ensures Valid() && nonce in rpcStates && rpcStates == old(rpcStates)[nonce := rpcStates[nonce]]
      ensures serials == old(serials) + 1
      ensures calls == old(calls)[nonce := Call(old(serials), now, retries, rpcStates[nonce].rto, 1)]
      ensures var rto := rpcStates[nonce].rto;
              rpcStates[nonce] == RpcState(id, dest, destKey, transport, now, retries, rto,
                                           if rto == 0 then None else Some(now + rto))
      ensures timeout != -1 ==> rpcStates[nonce].rto == timeout
      ensures timeout == -1 && transport == INTERNAL ==> rpcStates[nonce].rto == 0
      ensures timeout == -1 && transport == UDP && optimizeTimeouts && nodeTimeout != -1 ==>
                rpcStates[nonce].rto == nodeTimeout
      ensures timeout == -1 && transport == UDP && (!optimizeTimeouts || nodeTimeout == -1) ==>
                rpcStates[nonce].rto == rpcUdpTimeout
      ensures timeout == -1 && transport == ROUTE ==>
                rpcStates[nonce].rto == if destKey.Some? then rpcKeyTimeout else rpcUdpTimeout
    {
      var rto := timeout;
      if timeout == -1 {
        rto := DefaultTimeout(transport, destKey, nodeTimeout);
      }
      hide Pending;
      var timer := if rto != 0 then Some(now + rto) else None;
      var state := RpcState(id, dest, destKey, transport, now, retries, rto, timer);
      ghost var call := Call(serials, now, retries, rto, 1);
      SentOnce(state, call, now, rpcExponentialBackoff);
      hide RpcsOk;
      Register(nonce, state, call);
    }

    method Register(nonce: Nonce, state: RpcState, ghost call: Call)
      requires Valid() && nonce !in rpcStates && call.serial == serials
      requires Pending(state, call, now, rpcExponentialBackoff)
      modifies this`rpcStates, this`calls, this`serials
      ensures Valid() && rpcStates == old(rpcStates)[nonce := state] && calls == old(calls)[nonce := call]
      ensures serials == old(serials) + 1
    {
      hide RpcsOk, Pending;
      OkIfRegistered(rpcStates, calls, endings, serials, now, rpcExponentialBackoff, nonce, state, call);
      rpcStates := rpcStates[nonce := state];
      calls, serials := calls[nonce := call], serials + 1;
    }

    /** A call ends without an answer, if it has not ended yet. */
    method CancelRpcMessage(nonce: Nonce)
      requires Valid()
      modifies this`rpcStates, this`calls, this`endings
      ensures Valid() && rpcStates == old(rpcStates) - {nonce}
      ensures if nonce in old(rpcStates)
              then endings == old(endings)[old(calls)[nonce].serial := Ending(Cancel, old(calls)[nonce], now)]
                   && old(calls)[nonce].serial !in old(endings)
              else endings == old(endings)
      ensures calls == old(calls) - {nonce}
    {
      if nonce !in rpcStates {
        return;
      }
      assert Pending(rpcStates[nonce], calls[nonce], now, rpcExponentialBackoff);
      PendingInTime(rpcStates[nonce], calls[nonce], now, rpcExponentialBackoff, Cancel);
      hide RpcsOk, Ended;
      End(nonce, Cancel);
    }

    /** The call leaves the map, and its ending is noted. */
    method End(nonce: Nonce, ghost reason: Reason)
      requires Valid() && nonce in rpcStates && nonce in calls
      requires Ended(Ending(reason, calls[nonce], now), rpcExponentialBackoff)
      modifies this`rpcStates, this`calls, this`endings
      ensures Valid() && Resolved(old(rpcStates), old(calls), old(endings), nonce, reason)
    {
      NotEndedYet(rpcStates, calls, endings, serials, now, rpcExponentialBackoff, nonce);
      hide RpcsOk, Pending, Ended;
      OkIfEnded(rpcStates, calls, endings, serials, now, rpcExponentialBackoff, nonce,
                Ending(reason, calls[nonce], now));
      ghost var call := calls[nonce];
      rpcStates := rpcStates - {nonce};
      calls, endings := calls - {nonce}, endings[call.serial := Ending(reason, call, now)];
    }

    /** Whether a response comes from a node with another key than the one that was called. */
    predicate HasWrongKey(s: RpcState, srcKey: Key) {
      s.destKey.None? && s.dest.handleKey.Some? && s.dest.handleKey.value != srcKey
    }

    /** The timeout message of a call arrives at its time: the call is sent again, with a doubled timeout under backoff,
        or it ends. */
    method HandleTimeout(nonce: Nonce) returns (r: Reaction)
      requires Valid() && nonce in rpcStates && rpcStates[nonce].timer == Some(now)
      modifies this`rpcStates, this`calls, this`endings
      ensures Valid() && nonce in old(calls)
      ensures var s := old(rpcStates)[nonce];
              r == if s.retries > 0 then Resent
                   else TimedOut(s.transport == UDP || (s.dest.specified && s.destKey == None))
      ensures r.Resent? ==>
                nonce in rpcStates && SetAnew(old(rpcStates)[nonce], rpcStates[nonce], now, rpcExponentialBackoff)
      ensures if r.Resent? then Retried(old(rpcStates), old(calls), nonce) && endings == old(endings)
              else Resolved(old(rpcStates), old(calls), old(endings), nonce, FinalTimeout)
    {
      var state := rpcStates[nonce];
      TimerOf(nonce);
      TimerFires(state, calls[nonce], now, rpcExponentialBackoff);
      SetAnewIs(state, now, rpcExponentialBackoff);
      hide Valid, Pending, Ended, RpcsOk, Again, SentAgain, Resolved, SetAnew;
      if state.retries - 1 >= 0 {
        Restore(nonce, Again(state, now, rpcExponentialBackoff), SentAgain(calls[nonce]));
        return Resent;
      }
      End(nonce, FinalTimeout);
      return TimedOut(TellsTimeout(state));
    }

    /** The state goes back into the map. */
    method Restore(nonce: Nonce, state: RpcState, ghost call: Call)
      requires Valid() && nonce in rpcStates && nonce in calls && call.serial == calls[nonce].serial
      requires Pending(state, call, now, rpcExponentialBackoff)
      modifies this`rpcStates, this`calls
      ensures Valid() && rpcStates == old(rpcStates)[nonce := state] && calls == old(calls)[nonce := call]
    {
      hide RpcsOk, Pending;
      OkIfResent(rpcStates, calls, endings, serials, now, rpcExponentialBackoff, nonce, state, call);
      rpcStates := rpcStates[nonce := state];
      calls := calls[nonce := call];
    }

    /** The call was sent once more, and its timer was set anew. */
    ghost predicate Retried(states: States, calls: Calls, nonce: Nonce)
      requires nonce in states && nonce in calls
      reads this
    {
      && rpcStates == states[nonce := Again(states[nonce], now, rpcExponentialBackoff)]
      && this.calls == calls[nonce := SentAgain(calls[nonce])]
    }

    /** Whether the neighbor cache is told of a timeout. */
    predicate TellsTimeout(s: RpcState) {
      s.transport == UDP || (s.dest.specified && s.destKey.None?)
    }

    /** The call has left the map and has an ending, which it had not before. */
    ghost predicate Resolved(states: States, calls: Calls, endings: Endings, nonce: Nonce, reason: Reason)
      requires nonce in calls
      reads this
    {
      && rpcStates == states - {nonce} && this.calls == calls - {nonce}
      && calls[nonce].serial !in endings
      && this.endings == endings[calls[nonce].serial := Ending(reason, calls[nonce], now)]
    }

    lemma EndedAs(states: States, calls: Calls, endings: Endings, nonce: Nonce, reason: Reason)
      requires nonce in calls && Resolved(states, calls, endings, nonce, reason)
      ensures rpcStates == states - {nonce} && this.calls == calls - {nonce}
      ensures this.endings == endings[calls[nonce].serial := Ending(reason, calls[nonce], now)]
    {
    }

    /** A response ends its call, unless its sender has the wrong key: then nothing changes, and the timer stays. */
    method HandleResponse(nonce: Nonce, srcKey: Key, callHopCount: int) returns (r: Reaction)
      requires Valid() && nonce in rpcStates
      modifies this`rpcStates, this`calls, this`endings
      ensures Valid() && (r.WrongKey? || r.Answered?) && nonce in old(calls)
      ensures var s := old(rpcStates)[nonce];
              r.Answered? <==> s.destKey.Some? || s.dest.handleKey == None || s.dest.handleKey == Some(srcKey)
      ensures r.WrongKey? ==> rpcStates == old(rpcStates) && calls == old(calls) && endings == old(endings)
      ensures r.Answered? ==> Resolved(old(rpcStates), old(calls), old(endings), nonce, Reason.Response)
      ensures r.Answered? ==> r.rtt == now - old(rpcStates)[nonce].timeSent >= 0
                              && (r.tellCache <==> old(rpcStates)[nonce].transport == UDP
                                                   || (old(rpcStates)[nonce].transport == ROUTE && callHopCount == 1))
    {
      var state := rpcStates[nonce];
      TimerOf(nonce);
      PendingInTime(state, calls[nonce], now, rpcExponentialBackoff, Reason.Response);
      assert state.timeSent <= now;
      hide Pending, Ended, RpcsOk;
      if HasWrongKey(state, srcKey) {
        return WrongKey;
      }
      End(nonce, Reason.Response);
      var direct := state.transport == UDP || (state.transport != INTERNAL && callHopCount == 1);
      return Answered(now - state.timeSent, direct);
    }

    /** Messages for unknown nonces do nothing. */
    method InternalHandleRpcMessage(msg: Message) returns (r: Reaction)
      requires Valid()
      requires msg.Timeout? && msg.nonce in rpcStates ==> rpcStates[msg.nonce].timer == Some(now)
      modifies this`rpcStates, this`calls, this`endings
      ensures Valid()
      ensures r.Unknown? <==> msg.nonce !in old(rpcStates)
      ensures r.Unknown? || r.WrongKey? ==>
              rpcStates == old(rpcStates) && calls == old(calls) && endings == old(endings)
      ensures !r.Unknown? ==> msg.nonce in old(calls)
      ensures r.TimedOut? || r.Answered? ==>
                Resolved(old(rpcStates), old(calls), old(endings), msg.nonce,
                         if r.TimedOut? then FinalTimeout else Reason.Response)
      ensures r.Resent? ==> msg.nonce in rpcStates && endings == old(endings)
      ensures r.Resent? || r.TimedOut? <==> msg.Timeout? && !r.Unknown?
      ensures !r.Unknown? ==>
                var s := old(rpcStates)[msg.nonce];
                && (r.TimedOut? <==> msg.Timeout? && s.retries <= 0)
                && (r.TimedOut? && r.tellCache <==>
                      r.TimedOut? && (s.transport == UDP || (s.dest.specified && s.destKey == None)))
                && (r.Answered? <==>
                      msg.Response?
                      && (s.destKey.Some? || s.dest.handleKey == None || s.dest.handleKey == Some(msg.srcKey)))
    {
      hide Valid;
      if msg.nonce !in rpcStates {
        return Unknown;
      }
      match msg
      case Timeout(nonce) => r := HandleTimeout(nonce);
      case Response(nonce, srcKey, callHopCount) => r := HandleResponse(nonce, srcKey, callHopCount);
    }
  }

  function SentTimes(c: Call, sends: nat): (r: Call)
    ensures r.serial == c.serial && r.sends == sends && r.rto == c.rto && MaxSends(r) == MaxSends(c)
  {
    c.(sends := sends)
  }

  /** A call that nobody answers, and that nobody cancels, is sent as often as it may be and then times out, exactly at
      its last deadline. */
  method Unanswered(rpc: BaseRpc, nonce: Nonce, timeout: Time, retries: int) returns (sends: nat)
    requires rpc.Valid() && rpc.rpcStates == map[] && timeout > 0
    modifies rpc
    ensures rpc.Valid() && rpc.rpcStates == map[]
    ensures sends == if retries < 0 then 1 else retries + 1
    ensures rpc.now == old(rpc.now) + timeout * if rpc.rpcExponentialBackoff then Pow2(sends) - 1 else sends
    ensures rpc.endings.Keys == old(rpc.endings).Keys + {old(rpc.serials)}
    ensures rpc.endings[old(rpc.serials)].reason == FinalTimeout
  {
    hide *;
    rpc.SendRpcCall(nonce, UDP, Destination(None, true), None, timeout, retries, 0, -1);
    sends := 1;
    ghost var call := rpc.calls[nonce];
    assert rpc.rpcStates.Keys == {nonce};
    SentFirst(call);
    rpc.RegisteredInTime(nonce);
    while nonce in rpc.rpcStates
      invariant rpc.Valid() && rpc.rpcStates.Keys <= {nonce} && 1 <= sends <= MaxSends(call)
      invariant if nonce in rpc.rpcStates
                then nonce in rpc.calls && rpc.calls[nonce] == SentTimes(call, sends) && rpc.endings == old(rpc.endings)
                else
                  rpc.endings == old(rpc.endings)[call.serial := Ending(FinalTimeout, SentTimes(call, sends), rpc.now)]
      decreases if nonce in rpc.rpcStates then MaxSends(call) + 1 - sends else 0
    {
      var resent := NextTimeout(rpc, nonce, call, sends);
      if resent {
        sends := sends + 1;
      }
    }
    rpc.EndedOf(call.serial);
    TimedOutAt(call, sends, rpc.now, rpc.rpcExponentialBackoff);
  }

  lemma SentFirst(call: Call)
    requires call.sends == 1
    ensures call == SentTimes(call, 1)
  {
  }

  /** A call that timed out in the end. */
  lemma TimedOutAt(call: Call, sends: nat, now: Time, backoff: bool)
    requires Ended(Ending(FinalTimeout, SentTimes(call, sends), now), backoff)
    ensures sends == if call.retries < 0 then 1 else call.retries + 1
    ensures now == call.start + call.rto * if backoff then Pow2(sends) - 1 else sends
  {
    SpentIs(call.rto, MaxSends(call), backoff);
  }

  /** Nothing happens until the timer fires: the call is sent once more, or has timed out. */
  method NextTimeout(rpc: BaseRpc, nonce: Nonce, ghost call: Call, ghost sends: nat) returns (resent: bool)
    requires rpc.Valid() && rpc.rpcStates.Keys == {nonce} && call.rto > 0
    requires nonce in rpc.calls && rpc.calls[nonce] == SentTimes(call, sends)
    modifies rpc
    ensures rpc.Valid() && rpc.rpcStates.Keys <= {nonce} && (nonce in rpc.rpcStates <==> resent)
    ensures if resent
            then nonce in rpc.calls && rpc.calls[nonce] == SentTimes(call, sends + 1) && sends + 1 <= MaxSends(call)
                 && rpc.endings == old(rpc.endings)
            else rpc.endings == old(rpc.endings)[call.serial := Ending(FinalTimeout, SentTimes(call, sends), rpc.now)]
  {
    rpc.TimerOf(nonce);
    SentTimesNext(call, sends);
    hide BaseRpc.Valid, SentAgain, SentTimes, MaxSends, Again, Pow2, Spent;
    rpc.Elapse(rpc.rpcStates[nonce].timer.value);
    var r := rpc.HandleTimeout(nonce);
    resent := r.Resent?;
    if resent {
      rpc.RegisteredInTime(nonce);
    }
  }

  lemma SentTimesNext(c: Call, sends: nat)
    ensures SentAgain(SentTimes(c, sends)) == SentTimes(c, sends + 1)
  {
  }

  /** A call to a node whose key is known is ended by that node only: responses from other keys, however many of them
      arrive, leave it registered with its timer, and the first one from the called key ends it. */
  method AnsweredByItsKey(rpc: BaseRpc, nonce: Nonce, key: Key, others: seq<Key>, timeout: Time, retries: int)
    requires rpc.Valid() && rpc.rpcStates == map[] && timeout > 0 && key !in others
    modifies rpc
    ensures rpc.Valid() && rpc.rpcStates == map[] && rpc.now == old(rpc.now)
    ensures rpc.endings.Keys == old(rpc.endings).Keys + {old(rpc.serials)}
    ensures rpc.endings[old(rpc.serials)].reason == Reason.Response && rpc.endings[old(rpc.serials)].call.sends == 1
  {
    hide *;
    rpc.SendRpcCall(nonce, UDP, Destination(Some(key), true), None, timeout, retries, 0, -1);
    ghost var states, calls := rpc.rpcStates, rpc.calls;
    for i := 0 to |others|
      invariant rpc.Valid() && rpc.rpcStates == states && rpc.calls == calls && rpc.endings == old(rpc.endings)
      invariant rpc.now == old(rpc.now) && rpc.rpcStates[nonce].timer == Some(rpc.now + timeout)
    {
      var r := rpc.InternalHandleRpcMessage(Message.Response(nonce, others[i], 0));
      assert r == WrongKey;
    }
    var r := rpc.InternalHandleRpcMessage(Message.Response(nonce, key, 0));
    rpc.EndedAs(states, calls, old(rpc.endings), nonce, Reason.Response);
  }
}
