/** The cache of round trip times (src/common/NeighborCache.cc and .h): a hash map of entries, next to it a
    multimap from times to addresses that orders them for eviction, and the contexts of callers that wait for
    the answer to a ping. Times are ticks of the simulation clock. */
module NeighborCache {
  import opened Wrappers

  type Time = int

  type Address = nat

  const UNSPECIFIED: Address := 0

  datatype RttState = VALID | UNKNOWN | TIMEOUT | WAITING

  /** A caller to be called back; its listener and its context object may be missing. */
  datatype Context = Context(listener: Option<nat>, context: Option<nat>, id: int)

  datatype Entry = Entry(insertTime: Time, rtt: Time, rttState: RttState, lastRtts: seq<Time>, contexts: seq<Context>)

  /** An element of the multimap, which is a sequence in the order of the multimap. */
  datatype Expiry = Expiry(time: Time, node: Address)

  datatype Prox = SELF | NOT_KNOWN | NO_ANSWER | ASKED | Measured(rtt: Time) | Predicted(distance: nat)

  datatype QueryType =
    | AVAILABLE | EXACT | EXACT_TIMEOUT | ESTIMATED | QUERY
    | DEFAULT | DEFAULT_IMMEDIATELY | DEFAULT_QUERY

  datatype Callback = Callback(listener: nat, node: Address, id: int, context: Option<nat>, prox: Prox)

  type Cache = map<Address, Entry>

  type Log = map<Address, seq<Context>>

  type CallLog = map<Address, seq<Callback>>

  function NewEntry(now: Time): Entry {
    Entry(now, 0, UNKNOWN, [], [])
  }

  // ----- the multimap

  /** Equal times keep the order of insertion. */
  function MultimapInsert(s: seq<Expiry>, e: Expiry): seq<Expiry> {
    if s == [] || s[|s| - 1].time <= e.time then s + [e]
    else MultimapInsert(s[..|s| - 1], e) + [s[|s| - 1]]
  }

  /** The element comes behind the last one that is not younger, and nothing else changes. */
  lemma {:induction false} MultimapInsertAt(s: seq<Expiry>, e: Expiry) returns (i: nat)
    ensures i <= |s| && MultimapInsert(s, e) == s[..i] + [e] + s[i..]
    ensures i > 0 ==> s[i - 1].time <= e.time
    ensures forall j :: i <= j < |s| ==> e.time < s[j].time
  {
    if s == [] || s[|s| - 1].time <= e.time {
      i := |s|;
    } else {
      i := MultimapInsertAt(s[..|s| - 1], e);
      LastGoesLast(s, i, e);
    }
  }

  lemma LastGoesLast(s: seq<Expiry>, i: nat, e: Expiry)
    requires i < |s|
    ensures var front := s[..|s| - 1];
            s[..i] + [e] + s[i..] == front[..i] + [e] + front[i..] + [s[|s| - 1]]
  {
  }

  function LowerBound(s: seq<Expiry>, t: Time): (i: nat)
    ensures i <= |s|
    ensures forall j :: i <= j < |s| ==> s[j].time >= t
    ensures i > 0 ==> s[i - 1].time < t
  {
    if s == [] || s[|s| - 1].time < t then |s| else LowerBound(s[..|s| - 1], t)
  }

  /** Every cached address is in the multimap once, in the order of times, and no earlier than its entry says. */
  ghost predicate Agree(cache: Cache, expire: seq<Expiry>, now: Time) {
    && InOrder(expire)
    && (forall i :: 0 <= i < |expire| ==> Listed(expire[i], cache, now))
    && (forall a :: a in cache ==> Has(expire, a))
  }

  ghost predicate InOrder(expire: seq<Expiry>) {
    forall i, j :: 0 <= i < j < |expire| ==> expire[i].time <= expire[j].time && expire[i].node != expire[j].node
  }

  predicate Has(expire: seq<Expiry>, a: Address) {
    exists i :: 0 <= i < |expire| && expire[i].node == a
  }

  ghost predicate Listed(x: Expiry, cache: Cache, now: Time) {
    x.node in cache && cache[x.node].insertTime <= x.time <= now
  }

  function WithoutNode(cache: Cache, node: Address): Cache {
    map a | a in cache && a != node :: cache[a]
  }

  /** The assertions on the two sizes never fail. */
  lemma SameSize(cache: Cache, expire: seq<Expiry>, now: Time)
    requires Agree(cache, expire, now)
    ensures |cache| == |expire|
  {
    var nodes := seq(|expire|, i requires 0 <= i < |expire| => expire[i].node);
    DistinctCount(nodes);
    forall a
      ensures a in cache <==> a in Elements(nodes)
    {
      if a in cache {
        assert Has(expire, a);
        var i :| 0 <= i < |expire| && expire[i].node == a;
        assert nodes[i] == a;
      }
      if a in Elements(nodes) {
        var i :| 0 <= i < |nodes| && nodes[i] == a;
        assert Listed(expire[i], cache, now);
      }
    }
    assert cache.Keys == Elements(nodes);
  }

  lemma HasTake(s: seq<Expiry>, k: nat, i: nat)
    requires i < k <= |s|
    ensures Has(s[..k], s[i].node)
  {
  }

  lemma DroppedInOrder(s: seq<Expiry>, k: nat)
    requires InOrder(s) && k < |s|
    ensures InOrder(s[..k] + s[k + 1..])
    ensures !Has(s[..k] + s[k + 1..], s[k].node)
  {
  }

  lemma DroppedAgree(cache: Cache, expire: seq<Expiry>, now: Time, k: nat)
    requires Agree(cache, expire, now) && k < |expire|
    ensures Agree(WithoutNode(cache, expire[k].node), expire[..k] + expire[k + 1..], now)
  {
    var cache', expire' := WithoutNode(cache, expire[k].node), expire[..k] + expire[k + 1..];
    DroppedInOrder(expire, k);
    hide InOrder;
    forall i | 0 <= i < |expire'|
      ensures Listed(expire'[i], cache', now)
    {
      assert Has(expire', expire'[i].node);
      assert Listed(expire[if i < k then i else i + 1], cache, now);
    }
    forall a | a in cache'
      ensures Has(expire', a)
    {
      assert Has(expire, a);
      var i :| 0 <= i < |expire| && expire[i].node == a;
      assert expire'[if i < k then i else i - 1].node == a;
    }
  }

  lemma AddedAgree(cache: Cache, expire: seq<Expiry>, now: Time, node: Address, e: Entry)
    requires Agree(cache, expire, now) && node !in cache && e.insertTime <= now
    ensures Agree(cache[node := e], expire + [Expiry(now, node)], now)
  {
    var cache', expire' := cache[node := e], expire + [Expiry(now, node)];
    forall i | 0 <= i < |expire|
      ensures Listed(expire[i], cache', now) && expire[i].time <= now && expire[i].node != node
    {
      assert Listed(expire[i], cache, now);
    }
    forall a | a in cache'
      ensures Has(expire', a)
    {
      if a == node {
        assert expire'[|expire|].node == a;
      } else {
        assert Has(expire, a);
        var i :| 0 <= i < |expire| && expire[i].node == a;
        assert expire'[i].node == a;
      }
    }
  }

  /** The clock is not behind any element, so an element for now goes to the end. */
  lemma InsertedLast(cache: Cache, expire: seq<Expiry>, now: Time, node: Address)
    requires Agree(cache, expire, now)
    ensures MultimapInsert(expire, Expiry(now, node)) == expire + [Expiry(now, node)]
  {
  }

  lemma ChangedAgree(cache: Cache, expire: seq<Expiry>, now: Time, node: Address, e: Entry)
    requires Agree(cache, expire, now) && node in cache
    requires forall i :: 0 <= i < |expire| && expire[i].node == node ==> e.insertTime <= expire[i].time
    ensures Agree(cache[node := e], expire, now)
  {
  }

  lemma LaterAgree(cache: Cache, expire: seq<Expiry>, now: Time, later: Time)
    requires Agree(cache, expire, now) && now <= later
    ensures Agree(cache, expire, later)
  {
  }

  /** The address stands at or after the first element that is not older than its entry. */
  lemma StartIsEarly(cache: Cache, expire: seq<Expiry>, now: Time, node: Address) returns (place: nat)
    requires Agree(cache, expire, now) && node in cache
    ensures LowerBound(expire, cache[node].insertTime) <= place < |expire| && expire[place].node == node
  {
    assert Has(expire, node);
    place :| 0 <= place < |expire| && expire[place].node == node;
    assert Listed(expire[place], cache, now);
  }

  /** The address is taken out of its place and put at the end, and the others keep their order. */
  ghost predicate Moved(was: seq<Expiry>, expire: seq<Expiry>, node: Address, now: Time) {
    exists i :: 0 <= i < |was| && was[i].node == node && expire == was[..i] + was[i + 1..] + [Expiry(now, node)]
  }

  lemma MovedAgree(cache: Cache, was: seq<Expiry>, expire: seq<Expiry>, now: Time, node: Address, e: Entry)
    requires Agree(cache, was, now) && Moved(was, expire, node, now) && node in cache && e.insertTime <= now
    ensures Agree(cache[node := e], expire, now)
  {
    var i :| 0 <= i < |was| && was[i].node == node && expire == was[..i] + was[i + 1..] + [Expiry(now, node)];
    DroppedAgree(cache, was, now, i);
    AddedAgree(WithoutNode(cache, node), was[..i] + was[i + 1..], now, node, e);
    assert WithoutNode(cache, node)[node := e] == cache[node := e];
  }

  lemma MovedToEnd(cache: Cache, was: seq<Expiry>, now: Time, i: nat)
    requires Agree(cache, was, now) && i < |was|
    ensures Moved(was, MultimapInsert(was[..i] + was[i + 1..], Expiry(now, was[i].node)), was[i].node, now)
  {
  }

  // ----- eviction

  /** What cleanupCache may throw away. */
  predicate Evictable(e: Entry, now: Time) {
    e.rttState != WAITING && e.insertTime != now
  }

  function Remaining(cache: Cache, gone: seq<Expiry>): Cache {
    map a | a in cache && !Has(gone, a) :: cache[a]
  }

  /** The eviction took the k oldest entries. */
  ghost predicate Evicted(cache: Cache, expire: seq<Expiry>, cache': Cache, expire': seq<Expiry>, now: Time, k: nat) {
    && k <= |expire| && expire' == expire[k..] && cache' == Remaining(cache, expire[..k])
    && (forall i :: 0 <= i < k ==> expire[i].node in cache && Evictable(cache[expire[i].node], now))
  }

  /** cleanupCache evicts in the order of the multimap, nothing while the cache fits, and then half of it,
      unless it meets an entry that it must not throw away. */
  ghost predicate Cleaned(cache: Cache, expire: seq<Expiry>, cache': Cache, expire': seq<Expiry>, now: Time,
                          maxSize: nat) {
    exists k: nat :: Evicted(cache, expire, cache', expire', now, k) && StopsAt(cache, expire, now, maxSize, k)
  }

  ghost predicate StopsAt(cache: Cache, expire: seq<Expiry>, now: Time, maxSize: nat, k: nat) {
    if |cache| <= maxSize then k == 0
    else k == |cache| - maxSize / 2
         || (k < |cache| - maxSize / 2 && k < |expire| && expire[k].node in cache
             && !Evictable(cache[expire[k].node], now))
  }

  /** Waiting and fresh entries survive, and the others are unchanged if they do; the oldest go first. */
  lemma CleanedKeeps(cache: Cache, expire: seq<Expiry>, cache': Cache, expire': seq<Expiry>, now: Time, maxSize: nat)
    requires Agree(cache, expire, now) && Cleaned(cache, expire, cache', expire', now, maxSize)
    ensures Agree(cache', expire', now)
    ensures forall a :: a in cache && !Evictable(cache[a], now) ==> a in cache'
    ensures forall a :: a in cache && (cache[a].rttState == WAITING || cache[a].insertTime == now) ==> a in cache'
    ensures forall a :: a in cache' ==> a in cache && cache'[a] == cache[a]
    ensures |expire'| <= |expire| && expire' == expire[|expire| - |expire'|..]
  {
    hide Agree, StopsAt;
    var k: nat :| Evicted(cache, expire, cache', expire', now, k) && StopsAt(cache, expire, now, maxSize, k);
    EvictedAgree(cache, expire, cache', expire', now, k);
    SurvivorsKept(cache, expire, now, k);
  }

  /** Nothing goes while the cache fits; and when it does not fit, it shrinks to half of its size or is left with a
      front that waits or is fresh. */
  lemma CleanedSize(cache: Cache, expire: seq<Expiry>, cache': Cache, expire': seq<Expiry>, now: Time, maxSize: nat)
    requires Agree(cache, expire, now) && Cleaned(cache, expire, cache', expire', now, maxSize)
    ensures |cache| <= maxSize ==> cache' == cache && expire' == expire
    ensures |cache| > maxSize && |cache'| != maxSize / 2 ==>
              |cache'| > maxSize / 2 && expire' != [] && expire'[0].node in cache'
              && var front := cache'[expire'[0].node]; front.rttState == WAITING || front.insertTime == now
  {
    var k: nat :| Evicted(cache, expire, cache', expire', now, k) && StopsAt(cache, expire, now, maxSize, k);
    EvictedAgree(cache, expire, cache', expire', now, k);
    SameSize(cache, expire, now);
    SameSize(cache', expire', now);
    hide Agree;
    if k == 0 {
      NothingEvicted(cache, expire, now);
    }
  }

  lemma NothingEvicted(cache: Cache, expire: seq<Expiry>, now: Time)
    ensures Evicted(cache, expire, cache, expire, now, 0)
  {
  }

  lemma EvictedFront(cache: Cache, expire: seq<Expiry>, cache': Cache, expire': seq<Expiry>, now: Time, k: nat)
    requires Agree(cache, expire, now) && Evicted(cache, expire, cache', expire', now, k)
    requires exists a :: a in cache && cache[a].insertTime == now
    ensures k < |expire| && |expire'| == |expire| - k && (k == 0 ==> expire' == expire)
    ensures expire'[0] == expire[k] && expire[k].node in cache && expire[k].node in cache'
    ensures cache'[expire[k].node] == cache[expire[k].node]
  {
  }

  lemma SurvivorsKept(cache: Cache, expire: seq<Expiry>, now: Time, k: nat)
    requires k <= |expire| && forall i :: 0 <= i < k ==>
        expire[i].node in cache && Evictable(cache[expire[i].node], now)
    ensures forall a :: a in cache && !Evictable(cache[a], now) ==> a in Remaining(cache, expire[..k])
  {
  }

  lemma {:induction false} EvictedAgree(cache: Cache, expire: seq<Expiry>, cache': Cache, expire': seq<Expiry>,
                                        now: Time, k: nat)
    requires Agree(cache, expire, now) && Evicted(cache, expire, cache', expire', now, k)
    ensures Agree(cache', expire', now)
    ensures k < |expire| ==> expire[k].node in cache'
  {
    forall i | 0 <= i < |expire'|
      ensures Listed(expire'[i], cache', now)
    {
      assert Listed(expire[i + k], cache, now);
    }
    forall a | a in cache'
      ensures Has(expire', a)
    {
      assert Has(expire, a);
      var i :| 0 <= i < |expire| && expire[i].node == a;
      if i < k {
        HasTake(expire, k, i);
      }
      assert expire'[i - k].node == a;
    }
    if k < |expire| {
      assert expire'[0] == expire[k] && Listed(expire'[0], cache', now);
    }
  }

  lemma EvictNext(cache: Cache, expire: seq<Expiry>, cache': Cache, expire': seq<Expiry>, now: Time, k: nat)
    requires Agree(cache, expire, now) && Evicted(cache, expire, cache', expire', now, k)
    requires expire' != [] && expire'[0].node in cache' && Evictable(cache'[expire'[0].node], now)
    ensures Evicted(cache, expire, WithoutNode(cache', expire'[0].node), expire'[1..], now, k + 1)
  {
    assert expire[..k + 1] == expire[..k] + [expire[k]];
    var rest := Remaining(cache, expire[..k + 1]);
    forall a
      ensures a in rest <==> a in cache' && a != expire[k].node
    {
      if Has(expire[..k], a) {
        var i :| 0 <= i < k && expire[..k][i].node == a;
        assert expire[..k + 1][i].node == a;
      }
      assert expire[..k + 1][k].node == expire[k].node;
    }
    assert WithoutNode(cache', expire'[0].node) == rest;
  }

  // ----- contexts

  function Get<T>(log: map<Address, seq<T>>, a: Address): seq<T> {
    if a in log then log[a] else []
  }

  function Append<T(==)>(log: map<Address, seq<T>>, a: Address, items: seq<T>): map<Address, seq<T>> {
    if items == [] then log else log[a := Get(log, a) + items]
  }

  function Stored(cache: Cache, a: Address): seq<Context> {
    if a in cache then cache[a].contexts else []
  }

  /** A context object comes with a listener that takes it. */
  predicate Owned(contexts: seq<Context>) {
    forall i :: 0 <= i < |contexts| ==> contexts[i].listener.Some? || contexts[i].context.None?
  }

  /** An entry with its node's logs: a measured time is positive, and a zero time is that of a node which has not been
      measured yet; the history is bounded; and if the cache is enabled, contexts are stored only while the node is
      asked, and every context that was accepted for the node has been called back or is stored, once and in the order
      of acceptance. */
  ghost predicate EntryOk(e: Entry, c: Config, accepted: seq<Context>, delivered: seq<Context>) {
    && e.rtt >= 0 && (e.rttState == VALID ==> e.rtt > 0)
    && (Unmeasured(e) ==> e.lastRtts == []) && (c.rttHistory > 0 && e.lastRtts == [] ==> Unmeasured(e))
    && |e.lastRtts| <= (if c.rttHistory == 0 then 1 else c.rttHistory)
    && (forall i :: 0 <= i < |e.lastRtts| ==> e.lastRtts[i] > 0)
    && Owned(e.contexts)
    && (c.enableNeighborCache ==> (e.contexts != [] ==> e.rttState == WAITING) && accepted == delivered + e.contexts)
  }

  /** The entry still has the zero time of a new one. */
  predicate Unmeasured(e: Entry) {
    e.rtt == 0
  }

  ghost predicate EntriesOk(cache: Cache, c: Config, accepted: Log, delivered: Log) {
    && (forall a :: a in cache ==> EntryOk(cache[a], c, Get(accepted, a), Get(delivered, a)))
    && (c.enableNeighborCache ==> forall a :: a !in cache ==> Get(accepted, a) == Get(delivered, a))
  }

  /** The state of the cache and its logs between events. */
  ghost predicate CacheOk(cache: Cache, expire: seq<Expiry>, now: Time, c: Config, accepted: Log, delivered: Log) {
    Agree(cache, expire, now) && EntriesOk(cache, c, accepted, delivered)
  }

  ghost predicate OnlyLogged(node: Address, accepted: Log, delivered: Log, accepted': Log, delivered': Log) {
    forall a :: a != node ==> Get(accepted', a) == Get(accepted, a) && Get(delivered', a) == Get(delivered, a)
  }

  lemma OnlyLoggedIfAppended(node: Address, accepted: Log, delivered: Log, a: seq<Context>, d: seq<Context>)
    ensures OnlyLogged(node, accepted, delivered, Append(accepted, node, a), delivered)
    ensures OnlyLogged(node, accepted, delivered, accepted, Append(delivered, node, d))
    ensures Get(Append(accepted, node, a), node) == Get(accepted, node) + a
    ensures Get(Append(delivered, node, d), node) == Get(delivered, node) + d
  {
  }

  lemma EntriesIfPut(cache: Cache, c: Config, accepted: Log, delivered: Log, node: Address, e: Entry, accepted': Log,
                     delivered': Log)
    requires EntriesOk(cache, c, accepted, delivered) && OnlyLogged(node, accepted, delivered, accepted', delivered')
    requires EntryOk(e, c, Get(accepted', node), Get(delivered', node))
    ensures EntriesOk(cache[node := e], c, accepted', delivered')
  {
  }

  lemma OkIfMoved(cache: Cache, was: seq<Expiry>, expire: seq<Expiry>, now: Time, c: Config, accepted: Log,
                  delivered: Log, node: Address, e: Entry, accepted': Log, delivered': Log)
    requires CacheOk(cache, was, now, c, accepted, delivered) && node in cache && Moved(was, expire, node, now)
    requires e.insertTime <= now && EntryOk(e, c, Get(accepted', node), Get(delivered', node))
    requires OnlyLogged(node, accepted, delivered, accepted', delivered')
    ensures CacheOk(cache[node := e], expire, now, c, accepted', delivered')
  {
    hide Agree, EntriesOk, EntryOk, OnlyLogged, Moved;
    MovedAgree(cache, was, expire, now, node, e);
    EntriesIfPut(cache, c, accepted, delivered, node, e, accepted', delivered');
  }

  lemma OkIfChanged(cache: Cache, expire: seq<Expiry>, now: Time, c: Config, accepted: Log, delivered: Log,
                    node: Address, e: Entry, accepted': Log, delivered': Log)
    requires CacheOk(cache, expire, now, c, accepted, delivered) && node in cache
    requires e.insertTime <= cache[node].insertTime && EntryOk(e, c, Get(accepted', node), Get(delivered', node))
    requires OnlyLogged(node, accepted, delivered, accepted', delivered')
    ensures CacheOk(cache[node := e], expire, now, c, accepted', delivered')
  {
    EntriesIfPut(cache, c, accepted, delivered, node, e, accepted', delivered');
    hide EntriesOk, EntryOk, OnlyLogged;
    ChangedAgree(cache, expire, now, node, e);
  }

  /** Nothing that waits is lost by eviction. */
  lemma EntriesIfCleaned(cache: Cache, cache': Cache, now: Time, c: Config, accepted: Log, delivered: Log)
    requires EntriesOk(cache, c, accepted, delivered)
    requires forall a :: a in cache && !Evictable(cache[a], now) ==> a in cache'
    requires forall a :: a in cache' ==> a in cache && cache'[a] == cache[a]
    ensures EntriesOk(cache', c, accepted, delivered)
  {
  }

  lemma OkIfAdded(cache: Cache, expire: seq<Expiry>, now: Time, c: Config, accepted: Log, delivered: Log,
                  node: Address, e: Entry, accepted': Log, delivered': Log, cache': Cache, expire': seq<Expiry>)
    requires CacheOk(cache, expire, now, c, accepted, delivered) && node !in cache
    requires e.insertTime == now && EntryOk(e, c, Get(accepted', node), Get(delivered', node))
    requires OnlyLogged(node, accepted, delivered, accepted', delivered')
    requires Cleaned(cache[node := e], expire + [Expiry(now, node)], cache', expire', now, c.maxSize)
    ensures CacheOk(cache', expire', now, c, accepted', delivered')
    ensures node in cache' && cache'[node] == e
  {
    hide Agree, Cleaned, EntriesOk, EntryOk, OnlyLogged;
    AddedAgree(cache, expire, now, node, e);
    CleanedKeeps(cache[node := e], expire + [Expiry(now, node)], cache', expire', now, c.maxSize);
    EntriesIfPut(cache, c, accepted, delivered, node, e, accepted', delivered');
    EntriesIfCleaned(cache[node := e], cache', now, c, accepted', delivered');
    assert !Evictable(cache[node := e][node], now);
  }

  lemma WaitsToo(e: Entry, c: Config, accepted: seq<Context>, delivered: seq<Context>, context: Context)
    requires EntryOk(e, c, accepted, delivered) && Owned([context])
    ensures e.rttState == WAITING || !c.enableNeighborCache ==>
              EntryOk(WithContext(e, context), c, accepted + [context], delivered)
  {
  }

  lemma Flushed(e: Entry, c: Config, accepted: seq<Context>, delivered: seq<Context>)
    requires EntryOk(e, c, accepted, delivered)
    ensures forall t, state :: state != VALID ==>
            EntryOk(e.(insertTime := t, rttState := state, contexts := []), c, accepted, delivered + e.contexts)
    ensures Owned(e.contexts)
  {
  }

  lemma AskedNow(e: Entry, c: Config, accepted: seq<Context>, delivered: seq<Context>, now: Time)
    requires EntryOk(e, c, accepted, delivered)
    ensures EntryOk(e.(rttState := WAITING, insertTime := now), c, accepted, delivered + [])
  {
  }

  function WithContext(e: Entry, context: Context): (r: Entry) {
    e.(contexts := e.contexts + [context])
  }

  /** The entry after a measurement. */
  function WithRtt(e: Entry, now: Time, rtt: Time, rttHistory: nat): (r: Entry) {
    var lastRtts := e.lastRtts + [rtt];
    Entry(now, if e.rttState != VALID || e.rtt > rtt then rtt else e.rtt, VALID,
          if |lastRtts| > rttHistory then lastRtts[1..] else lastRtts, [])
  }

  lemma Remembered(e: Entry, c: Config, accepted: seq<Context>, delivered: seq<Context>, now: Time, rtt: Time)
    requires EntryOk(e, c, accepted, delivered) && rtt > 0
    ensures EntryOk(WithRtt(e, now, rtt, c.rttHistory), c, accepted, delivered + e.contexts)
  {
  }

  /** Whom a call is for: the listener of the context at that place, with its id and its context object. */
  ghost predicate IsFor(call: Callback, node: Address, c: Context) {
    c.listener == Some(call.listener) && call.node == node && call.id == c.id && call.context == c.context
  }

  /** The places of the contexts that were called back, in order; every context with a listener is among them. */
  ghost predicate CalledAt(calls: seq<Callback>, node: Address, contexts: seq<Context>, places: seq<nat>) {
    && |places| == |calls|
    && (forall k :: 0 <= k < |calls| ==> places[k] < |contexts| && IsFor(calls[k], node, contexts[places[k]]))
    && (forall k, l :: 0 <= k < l < |places| ==> places[k] < places[l])
    && (forall i :: 0 <= i < |contexts| && contexts[i].listener.Some? ==> i in places)
  }

  /** Each context with a listener is called back once, in order, and nobody else is. */
  ghost predicate CalledBack(calls: seq<Callback>, node: Address, contexts: seq<Context>) {
    if contexts == [] then calls == []
    else
      var front, last := contexts[..|contexts| - 1], contexts[|contexts| - 1];
      if last.listener.None? then CalledBack(calls, node, front)
      else calls != [] && IsFor(calls[|calls| - 1], node, last) && CalledBack(calls[..|calls| - 1], node, front)
  }

  lemma NobodyCalled(node: Address)
    ensures CalledBack([], node, [])
  {
  }

  lemma {:induction false} CalledInOrder(calls: seq<Callback>, node: Address, contexts: seq<Context>)
      returns (places: seq<nat>)
    requires CalledBack(calls, node, contexts)
    ensures CalledAt(calls, node, contexts, places)
  {
    if contexts == [] {
      places := [];
    } else {
      var front, last := contexts[..|contexts| - 1], contexts[|contexts| - 1];
      if last.listener.None? {
        places := CalledInOrder(calls, node, front);
      } else {
        var before := CalledInOrder(calls[..|calls| - 1], node, front);
        places := before + [|front|];
        forall i | 0 <= i < |contexts| && contexts[i].listener.Some?
          ensures i in places
        {
          assert i < |front| ==> i in before;
          assert places[|before|] == |front|;
        }
      }
    }
  }

  lemma {:induction false} CalledMore(calls: seq<Callback>, more: seq<Callback>, node: Address, contexts: seq<Context>,
                                      later: seq<Context>)
    requires CalledBack(calls, node, contexts) && CalledBack(more, node, later)
    ensures CalledBack(calls + more, node, contexts + later)
  {
    if later == [] {
      assert calls + more == calls && contexts + later == contexts;
    } else {
      var all, n := contexts + later, |later| - 1;
      assert all[..|all| - 1] == contexts + later[..n];
      if later[n].listener.None? {
        CalledMore(calls, more, node, contexts, later[..n]);
      } else {
        CalledMore(calls, more[..|more| - 1], node, contexts, later[..n]);
        assert (calls + more)[..|calls + more| - 1] == calls + more[..|more| - 1];
      }
    }
  }

  /** The calls to the listeners are of this kind. */
  lemma {:induction false} CallbacksReachAll(node: Address, contexts: seq<Context>, prox: Prox)
    ensures CalledBack(Callbacks(node, contexts, prox), node, contexts)
    ensures forall k :: 0 <= k < |Callbacks(node, contexts, prox)| ==> Callbacks(node, contexts, prox)[k].prox == prox
  {
    if contexts != [] {
      var front, last := contexts[..|contexts| - 1], contexts[|contexts| - 1];
      CallbacksReachAll(node, front, prox);
      var calls, before := Callbacks(node, contexts, prox), Callbacks(node, front, prox);
      if last.listener.Some? {
        assert calls == before + [Callback(last.listener.value, node, last.id, last.context, prox)];
        assert calls[..|calls| - 1] == before;
      } else {
        assert calls == before;
      }
    }
  }

  /** For every node, the calls so far are those for the contexts that have left its entry. */
  ghost predicate CallsOk(called: CallLog, delivered: Log) {
    forall a :: CalledBack(Get(called, a), a, Get(delivered, a))
  }

  lemma CallsOkIfAppended(called: CallLog, delivered: Log, node: Address, flushed: seq<Context>, prox: Prox)
    requires CallsOk(called, delivered)
    ensures CallsOk(Append(called, node, Callbacks(node, flushed, prox)), Append(delivered, node, flushed))
  {
    CallbacksReachAll(node, flushed, prox);
    CalledMore(Get(called, node), Callbacks(node, flushed, prox), node, Get(delivered, node), flushed);
    hide CalledBack;
    var called', delivered' := Append(called, node, Callbacks(node, flushed, prox)), Append(delivered, node, flushed);
    forall a
      ensures CalledBack(Get(called', a), a, Get(delivered', a))
    {
      assert CalledBack(Get(called, a), a, Get(delivered, a));
      assert Get(called, a) + [] == Get(called, a) && Get(delivered, a) + [] == Get(delivered, a);
    }
  }

  /** The calls for the contexts that have a listener. */
  function Callbacks(node: Address, contexts: seq<Context>, prox: Prox): (r: seq<Callback>)
    ensures |r| <= |contexts|
  {
    if contexts == [] then []
    else
      var c := contexts[|contexts| - 1];
      Callbacks(node, contexts[..|contexts| - 1], prox)
        + if c.listener.Some? then [Callback(c.listener.value, node, c.id, c.context, prox)] else []
  }

  /** The entry of a node from the moment on that it is asked. */
  function AskedEntry(cache: Cache, node: Address, now: Time): (r: Entry)
    ensures r.rttState == WAITING
  {
    if node !in cache then NewEntry(now).(rttState := WAITING)
    else if cache[node].rttState == WAITING then cache[node]
    else cache[node].(rttState := WAITING, insertTime := now)
  }

  /** A caller that has to wait for a node: its context is the last one of the entry, which waits. A node that was asked
      already has been waiting since then; otherwise it waits from now on, and what was measured stays. */
  lemma WaitingEntryIs(cache: Cache, node: Address, now: Time, c: Config, context: Context)
    ensures var e := WithContext(AskedEntry(Looked(cache, node, now, c), node, now), context);
            && e.rttState == WAITING
            && (node !in cache ==> e.insertTime == now && e.rtt == 0 && e.lastRtts == [] && e.contexts == [context])
            && (node in cache ==>
                  && e.insertTime == (if cache[node].rttState == WAITING then cache[node].insertTime else now)
                  && e.rtt == cache[node].rtt && e.lastRtts == cache[node].lastRtts
                  && e.contexts == cache[node].contexts + [context])
  {
  }

  predicate Asked(cache: Cache, node: Address) {
    node in cache && cache[node].rttState == WAITING
  }

  /** What queryProx leaves behind. */
  ghost predicate Queried(cache: Cache, expire: seq<Expiry>, cache': Cache, expire': seq<Expiry>, now: Time,
                          maxSize: nat, node: Address, context: Context)
  {
    if node in cache then cache' == cache[node := WithContext(cache[node], context)] && expire' == expire
    else Cleaned(cache[node := WithContext(NewEntry(now), context)], expire + [Expiry(now, node)], cache', expire', now,
                 maxSize)
  }

  /** A full cache drops its oldest entry for another node, unless that one waits or is fresh, and whatever contexts it
      has; a cache that is not full keeps all entries. */
  lemma UnaskedIsDropped(cache: Cache, expire: seq<Expiry>, now: Time, cache': Cache, expire': seq<Expiry>,
                         maxSize: nat, other: Address, context: Context)
    requires Agree(cache, expire, now) && expire != [] && other !in cache
    requires Listed(expire[0], cache, now) ==> Evictable(cache[expire[0].node], now)
    requires Queried(cache, expire, cache', expire', now, maxSize, other, context)
    ensures |cache| >= maxSize ==> expire[0].node !in cache'
    ensures |cache| < maxSize ==>
            cache' == cache[other := WithContext(NewEntry(now), context)] && expire' == expire + [Expiry(now, other)]
  {
    var added, list := cache[other := WithContext(NewEntry(now), context)], expire + [Expiry(now, other)];
    var k: nat :| Evicted(added, list, cache', expire', now, k) && StopsAt(added, list, now, maxSize, k);
    assert Listed(expire[0], cache, now) && list[0] == expire[0];
    if k > 0 {
      HasTake(list, k, 0);
    } else {
      assert added.Keys == cache.Keys + {other};
      NothingEvicted(added, list, now);
    }
  }

  lemma NobodyElseAdded(cache: Cache, expire: seq<Expiry>, now: Time, cache': Cache, expire': seq<Expiry>, maxSize: nat,
                        other: Address, context: Context, a: Address)
    requires Queried(cache, expire, cache', expire', now, maxSize, other, context) && a !in cache && a != other
    ensures a !in cache'
  {
  }

  // ----- answers

  function Resolved(t: QueryType, c: Config): (r: QueryType)
    requires c.Valid()
    ensures !r.DEFAULT? && !r.DEFAULT_IMMEDIATELY? && !r.DEFAULT_QUERY?
    ensures t.DEFAULT_IMMEDIATELY? ==> r.AVAILABLE? || r.ESTIMATED?
    ensures t.DEFAULT_QUERY? ==> r.EXACT? || r.EXACT_TIMEOUT? || r.QUERY?
  {
    match t
    case DEFAULT => c.defaultQueryType
    case DEFAULT_IMMEDIATELY => c.defaultQueryTypeI
    case DEFAULT_QUERY => c.defaultQueryTypeQ
    case _ => t
  }

  datatype Config = Config(enableNeighborCache: bool, rttExpirationTime: Time, maxSize: nat, rttHistory: nat,
                           thisNode: Address,
                           defaultQueryType: QueryType, defaultQueryTypeI: QueryType, defaultQueryTypeQ: QueryType)
  {
    /** What the start of the module accepts. */
    predicate Valid() {
      && (defaultQueryType.EXACT? || defaultQueryType.EXACT_TIMEOUT? || defaultQueryType.AVAILABLE?
          || defaultQueryType.ESTIMATED?)
      && (defaultQueryTypeI.AVAILABLE? || defaultQueryTypeI.ESTIMATED?)
      && (defaultQueryTypeQ.EXACT? || defaultQueryTypeQ.EXACT_TIMEOUT? || defaultQueryTypeQ.QUERY?)
    }
  }

  /** Every immediate type but the defaults may be the immediate default, and every query type the query default. */
  lemma DefaultsAllowed(c: Config)
    ensures c.Valid() <==> c.defaultQueryType in {EXACT, EXACT_TIMEOUT, AVAILABLE, ESTIMATED}
                           && c.defaultQueryTypeI in {AVAILABLE, ESTIMATED}
                           && c.defaultQueryTypeQ in {EXACT, EXACT_TIMEOUT, QUERY}
  {
  }

  /** An entry after it has been looked at: a measurement or a timeout that is too old counts no more. */
  function Aged(e: Entry, now: Time, rttExpirationTime: Time): (r: Entry)
    ensures r.contexts == e.contexts && r.insertTime == e.insertTime
    ensures r.rttState == WAITING <==> e.rttState == WAITING
  {
    if e.rttState != WAITING && e.rttState != UNKNOWN && now - e.insertTime >= rttExpirationTime
    then e.(rttState := UNKNOWN) else e
  }

  /** The cache after a look at a node. */
  function Looked(cache: Cache, a: Address, now: Time, c: Config): Cache {
    if c.enableNeighborCache && a != UNSPECIFIED && a in cache then cache[a := Aged(cache[a], now, c.rttExpirationTime)]
    else cache
  }

  /** The entry that is looked at, or what stands for one if there is none. */
  function Known(cache: Cache, a: Address, now: Time, c: Config): Entry {
    if c.enableNeighborCache && a != UNSPECIFIED && a in cache then cache[a] else NewEntry(now)
  }

  lemma LookedAt(cache: Cache, a: Address, now: Time, c: Config, accepted: seq<Context>, delivered: seq<Context>)
    requires c.enableNeighborCache && a != UNSPECIFIED && a in cache && EntryOk(cache[a], c, accepted, delivered)
    ensures var e := cache[a];
            && (e.rttState == VALID ==> e.rtt > 0)
            && Known(cache, a, now, c) == e
            && Known(cache[a := e.(rttState := UNKNOWN)], a, now, c) == e.(rttState := UNKNOWN)
            && if e.rttState != WAITING && e.rttState != UNKNOWN && now - e.insertTime >= c.rttExpirationTime
               then Looked(cache, a, now, c) == cache[a := e.(rttState := UNKNOWN)]
                    && EntryOk(e.(rttState := UNKNOWN), c, accepted + [], delivered)
               else Looked(cache, a, now, c) == cache
  {
  }

  lemma LookedAsked(cache: Cache, a: Address, now: Time, c: Config)
    ensures a in Looked(cache, a, now, c) <==> a in cache
    ensures Asked(Looked(cache, a, now, c), a) <==> Asked(cache, a)
  {
  }

  /** What getProx answers, and whether it stores the caller's context. The entry is the one looked at, a new
      one if there is none. */
  function Answer(t: QueryType, e: Entry, cached: bool, now: Time, coordinates: Option<nat>): (Prox, bool)
    requires !t.DEFAULT? && !t.DEFAULT_IMMEDIATELY? && !t.DEFAULT_QUERY?
  {
    match t
    case EXACT =>
      (match e.rttState
       case TIMEOUT => if e.insertTime == now then (NO_ANSWER, false) else (ASKED, true)
       case VALID => (Measured(e.rtt), false)
       case _ => (ASKED, true))
    case EXACT_TIMEOUT =>
      (match e.rttState
       case TIMEOUT => (NO_ANSWER, false)
       case VALID => (Measured(e.rtt), false)
       case _ => (ASKED, true))
    case ESTIMATED =>
      (match e.rttState
       case TIMEOUT => (NO_ANSWER, false)
       case UNKNOWN => (if cached && coordinates.Some? then Predicted(coordinates.value) else NOT_KNOWN, false)
       case _ => (Measured(e.rtt), false))
    case AVAILABLE =>
      (match e.rttState
       case TIMEOUT => (NO_ANSWER, false)
       case WAITING => (ASKED, false)
       case UNKNOWN => (NOT_KNOWN, false)
       case VALID => (Measured(e.rtt), false))
    case QUERY => (ASKED, true)
  }

  /** The same by what is known of the node: a valid time is answered, but for a query; a timeout counts as an answer,
      but for an exact question unless it is new; of an unknown node an immediate question gets at most a prediction;
      and a node that is asked already is worth waiting for, but for an estimate. */
  lemma AnswersByState(t: QueryType, e: Entry, cached: bool, now: Time, coordinates: Option<nat>)
    requires !t.DEFAULT? && !t.DEFAULT_IMMEDIATELY? && !t.DEFAULT_QUERY?
    ensures var (prox, stored) := Answer(t, e, cached, now, coordinates);
            && (e.rttState == VALID && t != QUERY ==> prox == Measured(e.rtt) && !stored)
            && (t == QUERY ==> prox == ASKED && stored)
            && (e.rttState == TIMEOUT && (t != EXACT || e.insertTime == now) && t != QUERY ==>
                prox == NO_ANSWER && !stored)
            && (e.rttState == TIMEOUT && t == EXACT && e.insertTime != now ==> prox == ASKED && stored)
            && (e.rttState == UNKNOWN || e.rttState == WAITING ==>
                  (t == EXACT || t == EXACT_TIMEOUT ==> prox == ASKED && stored))
            && (e.rttState == UNKNOWN && t == AVAILABLE ==> prox == NOT_KNOWN && !stored)
            && (e.rttState == UNKNOWN && t == ESTIMATED && cached && coordinates.Some? ==>
                  prox == Predicted(coordinates.value) && !stored)
            && (e.rttState == UNKNOWN && t == ESTIMATED && (!cached || coordinates.None?) ==>
                prox == NOT_KNOWN && !stored)
            && (e.rttState == WAITING && t == AVAILABLE ==> prox == ASKED && !stored)
            && (e.rttState == WAITING && t == ESTIMATED ==> prox == Measured(e.rtt) && !stored)
  {
  }

  /** The answer and the choice of a call for another node. */
  function Reply(cache: Cache, node: Address, t: QueryType, now: Time, c: Config, coordinates: Option<nat>)
      : (Prox, bool)
    requires c.Valid()
  {
    var looked := Looked(cache, node, now, c);
    Answer(Resolved(t, c), Known(looked, node, now, c), node in cache, now, coordinates)
  }

  /** A call for a node of which nothing is known: a query asks, an immediate call does not. */
  lemma NothingKnown(cache: Cache, node: Address, t: QueryType, now: Time, c: Config, coordinates: Option<nat>)
    requires c.Valid() && c.enableNeighborCache && node != UNSPECIFIED && node !in cache
    ensures t in {EXACT, EXACT_TIMEOUT, QUERY, DEFAULT_QUERY} ==>
            Reply(cache, node, t, now, c, coordinates) == (ASKED, true)
    ensures t in {AVAILABLE, ESTIMATED, DEFAULT_IMMEDIATELY} ==>
              Reply(cache, node, t, now, c, coordinates) == (NOT_KNOWN, false)
  {
  }

  /** A call for a node that has been measured: the time is answered until it expires, and then the node counts as
      unknown. */
  lemma MeasuredUntilExpired(cache: Cache, node: Address, t: QueryType, now: Time, c: Config, coordinates: Option<nat>)
    requires c.Valid() && c.enableNeighborCache && node != UNSPECIFIED && node in cache && cache[node].rttState == VALID
    ensures now - cache[node].insertTime < c.rttExpirationTime && t in {EXACT, EXACT_TIMEOUT, AVAILABLE, ESTIMATED} ==>
              Reply(cache, node, t, now, c, coordinates) == (Measured(cache[node].rtt), false)
    ensures now - cache[node].insertTime >= c.rttExpirationTime && t in {EXACT, EXACT_TIMEOUT} ==>
              Reply(cache, node, t, now, c, coordinates) == (ASKED, true)
    ensures now - cache[node].insertTime >= c.rttExpirationTime && t == AVAILABLE ==>
              Reply(cache, node, t, now, c, coordinates) == (NOT_KNOWN, false)
    ensures now - cache[node].insertTime >= c.rttExpirationTime && t == ESTIMATED ==>
              Reply(cache, node, t, now, c, coordinates)
              == (if coordinates.Some? then Predicted(coordinates.value) else NOT_KNOWN, false)
    ensures t == QUERY ==> Reply(cache, node, t, now, c, coordinates) == (ASKED, true)
  {
  }

  /** The three default types stand for the configured ones. */
  lemma DefaultsAre(cache: Cache, node: Address, now: Time, c: Config, coordinates: Option<nat>)
    requires c.Valid()
    ensures Reply(cache, node, DEFAULT, now, c, coordinates)
            == Reply(cache, node, c.defaultQueryType, now, c, coordinates)
    ensures Reply(cache, node, DEFAULT_IMMEDIATELY, now, c, coordinates)
            == Reply(cache, node, c.defaultQueryTypeI, now, c, coordinates)
    ensures Reply(cache, node, DEFAULT_QUERY, now, c, coordinates)
            == Reply(cache, node, c.defaultQueryTypeQ, now, c, coordinates)
  {
  }

  /** Whether a call ends with the context accepted. */
  predicate Waits(cache: Cache, node: Address, t: QueryType, now: Time, c: Config, coordinates: Option<nat>)
    requires c.Valid()
  {
    !c.enableNeighborCache
        || (node != c.thisNode && node != UNSPECIFIED && Reply(cache, node, t, now, c, coordinates).1)
  }

  lemma WaitsIf(cache: Cache, node: Address, t: QueryType, now: Time, c: Config, coordinates: Option<nat>)
    requires c.Valid() && c.enableNeighborCache && node != c.thisNode && node != UNSPECIFIED
    ensures Waits(cache, node, t, now, c, coordinates) <==> Reply(cache, node, t, now, c, coordinates).1
    ensures Asked(cache, node) <==> node in cache && cache[node].rttState == WAITING
  {
  }

  /** A caller of a query type is told to wait if and only if its context is stored, and so will be called back;
      a caller of an immediate type is never called back, although AVAILABLE may tell it to wait. */
  lemma AskedMeansCalledBack(t: QueryType, e: Entry, cached: bool, now: Time, coordinates: Option<nat>)
    requires !t.DEFAULT? && !t.DEFAULT_IMMEDIATELY? && !t.DEFAULT_QUERY?
    ensures var (prox, stored) := Answer(t, e, cached, now, coordinates);
            && (t.EXACT? || t.EXACT_TIMEOUT? || t.QUERY? ==> (prox == ASKED <==> stored))
            && (t.AVAILABLE? || t.ESTIMATED? ==> !stored)
            && (t.AVAILABLE? ==> (prox == ASKED <==> e.rttState == WAITING))
            && prox != SELF
  {
  }

  /** A measurement in an answer is one, that is positive, but for one case: an estimate for a node that is asked and
      has not been measured yet is the zero that a new entry starts with. */
  lemma MeasuredIsMeasured(t: QueryType, e: Entry, cached: bool, now: Time, coordinates: Option<nat>, c: Config,
                           accepted: seq<Context>, delivered: seq<Context>)
    requires !t.DEFAULT? && !t.DEFAULT_IMMEDIATELY? && !t.DEFAULT_QUERY?
    requires EntryOk(e, c, accepted, delivered)
    ensures var prox := Answer(t, e, cached, now, coordinates).0;
            prox.Measured? && prox.rtt <= 0 <==> t == ESTIMATED && e.rttState == WAITING && Unmeasured(e)
  {
  }

  class NeighborCache {
    const config: Config
    var now: Time
    var neighborCache: Cache
    var neighborCacheExpireMap: seq<Expiry>

    /** The contexts that were accepted and called back since the start, for each node. */
    ghost var accepted: Log
    ghost var delivered: Log
    /** The calls that the listeners have got, for each node. */
    ghost var called: CallLog

    ghost predicate Valid()
      reads this
    {
      && config.Valid()
      && CacheOk(neighborCache, neighborCacheExpireMap, now, config, accepted, delivered)
      && CallsOk(called, delivered)
    }

    constructor (config: Config, now: Time)
      requires config.Valid()
      ensures Valid() && this.config == config && this.now == now && neighborCache == map[]
      ensures neighborCacheExpireMap == [] && accepted == delivered == map[] && called == map[]
    {
      this.config, this.now := config, now;
      neighborCache, neighborCacheExpireMap, accepted, delivered, called := map[], [], map[], map[], map[];
    }

    /** Time passes between events. */
    method Elapse(later: Time)
      requires Valid() && now <= later
      modifies this`now
      ensures Valid() && now == later
    {
      hide CallsOk, CalledBack;
      LaterAgree(neighborCache, neighborCacheExpireMap, now, later);
      now := later;
    }

    method CleanupCache() returns (result: bool)
      requires Agree(neighborCache, neighborCacheExpireMap, now)
      requires exists a :: a in neighborCache && neighborCache[a].insertTime == now
      modifies this`neighborCache, this`neighborCacheExpireMap
      ensures Cleaned(old(neighborCache), old(neighborCacheExpireMap), neighborCache, neighborCacheExpireMap, now,
                      config.maxSize)
      ensures result <==> neighborCacheExpireMap != old(neighborCacheExpireMap)
    {
      result := false;
      var size := |neighborCache|;
      ghost var cache, expire := neighborCache, neighborCacheExpireMap;
      NothingEvicted(cache, expire, now);
      hide Evicted, Agree, Remaining;
      if size > config.maxSize {
        var i := 0;
        while i < size - config.maxSize / 2
          invariant i <= size - config.maxSize / 2
          invariant Evicted(cache, expire, neighborCache, neighborCacheExpireMap, now, i)
          invariant result <==> i > 0
          invariant |neighborCacheExpireMap| == |expire| - i
        {
          EvictedFront(cache, expire, neighborCache, neighborCacheExpireMap, now, i);
          var it := neighborCacheExpireMap[0];
          if neighborCache[it.node].rttState == WAITING || neighborCache[it.node].insertTime == now {
            assert StopsAt(cache, expire, now, config.maxSize, i);
            return;
          }
          EvictNext(cache, expire, neighborCache, neighborCacheExpireMap, now, i);
          neighborCache := WithoutNode(neighborCache, it.node);
          neighborCacheExpireMap := neighborCacheExpireMap[1..];
          result := true;
          i := i + 1;
        }
      }
    }

    /** The scan that starts at the first element that is not older than the entry finds the address before the end,
        even if the element has become younger than the entry. */
    method UpdateEntry(address: Address, insertTime: Time)
      requires Agree(neighborCache, neighborCacheExpireMap, now)
      requires address in neighborCache && neighborCache[address].insertTime == insertTime
      modifies this`neighborCacheExpireMap
      ensures Moved(old(neighborCacheExpireMap), neighborCacheExpireMap, address, now)
    {
      var it := LowerBound(neighborCacheExpireMap, insertTime);
      ghost var place := StartIsEarly(neighborCache, neighborCacheExpireMap, now, address);
      hide LowerBound, Agree;
      while neighborCacheExpireMap[it].node != address
        invariant it <= place
        decreases place - it
      {
        it := it + 1;
      }
      MovedToEnd(neighborCache, neighborCacheExpireMap, now, it);
      neighborCacheExpireMap := neighborCacheExpireMap[..it] + neighborCacheExpireMap[it + 1..];
      neighborCacheExpireMap := MultimapInsert(neighborCacheExpireMap, Expiry(now, address));
    }

    method InsertAndCleanup(handle: Address, entry: Entry)
      requires Agree(neighborCache, neighborCacheExpireMap, now) && handle !in neighborCache && entry.insertTime == now
      modifies this`neighborCache, this`neighborCacheExpireMap
      ensures Cleaned(old(neighborCache)[handle := entry], old(neighborCacheExpireMap) + [Expiry(now, handle)],
                      neighborCache, neighborCacheExpireMap, now, config.maxSize)
    {
      InsertedLast(neighborCache, neighborCacheExpireMap, now, handle);
      AddedAgree(neighborCache, neighborCacheExpireMap, now, handle, entry);
      hide Agree, MultimapInsert, Cleaned;
      neighborCache := neighborCache[handle := entry];
      neighborCacheExpireMap := MultimapInsert(neighborCacheExpireMap, Expiry(now, handle));
      assert neighborCache[handle].insertTime == now;
      var _ := CleanupCache();
    }

    /** The five places that create an entry: insert it, list it, clean up. The new entry is fresh and survives. */
    method AddEntry(handle: Address, entry: Entry, ghost taken: seq<Context>)
      requires Valid() && handle !in neighborCache && entry.insertTime == now
      requires EntryOk(entry, config, Get(accepted, handle) + taken, Get(delivered, handle))
      modifies this`neighborCache, this`neighborCacheExpireMap, this`accepted
      ensures Valid() && handle in neighborCache && neighborCache[handle] == entry
      ensures accepted == Append(old(accepted), handle, taken)
      ensures Cleaned(old(neighborCache)[handle := entry], old(neighborCacheExpireMap) + [Expiry(now, handle)],
                      neighborCache, neighborCacheExpireMap, now, config.maxSize)
    {
      hide CallsOk, CalledBack;
      ghost var cache, expire := neighborCache, neighborCacheExpireMap;
      OnlyLoggedIfAppended(handle, accepted, delivered, taken, []);
      hide Agree, Cleaned, EntriesOk, EntryOk, OnlyLogged, Get, Append;
      InsertAndCleanup(handle, entry);
      accepted := Append(accepted, handle, taken);
      OkIfAdded(cache, expire, now, config, old(accepted), delivered, handle, entry, accepted, delivered, neighborCache,
                neighborCacheExpireMap);
    }

    /** The same, seen from the other nodes. */
    method AddEntryOnly(handle: Address, entry: Entry, ghost taken: seq<Context>)
      requires Valid() && handle !in neighborCache && entry.insertTime == now
      requires EntryOk(entry, config, Get(accepted, handle) + taken, Get(delivered, handle))
      modifies this`neighborCache, this`neighborCacheExpireMap, this`accepted
      ensures Valid() && handle in neighborCache && neighborCache[handle] == entry
      ensures accepted == Append(old(accepted), handle, taken)
      ensures forall a :: a in neighborCache && a != handle ==>
              a in old(neighborCache) && neighborCache[a] == old(neighborCache)[a]
    {
      hide CallsOk, CalledBack;
      ghost var cache, expire := neighborCache, neighborCacheExpireMap;
      AddedAgree(cache, expire, now, handle, entry);
      hide Agree, Cleaned, CacheOk, Valid, EntryOk, Get, Append;
      AddEntry(handle, entry, taken);
      CleanedKeeps(cache[handle := entry], expire + [Expiry(now, handle)], neighborCache, neighborCacheExpireMap, now,
                   config.maxSize);
    }

    /** The places that move an entry to the end of the multimap and then write it. */
    method RefreshEntry(handle: Address, entry: Entry, ghost flushed: seq<Context>, ghost prox: Prox)
      requires Valid() && handle in neighborCache && entry.insertTime <= now
      requires EntryOk(entry, config, Get(accepted, handle), Get(delivered, handle) + flushed)
      modifies this`neighborCache, this`neighborCacheExpireMap, this`delivered, this`called
      ensures Valid() && neighborCache == old(neighborCache)[handle := entry]
      ensures delivered == Append(old(delivered), handle, flushed)
      ensures called == Append(old(called), handle, Callbacks(handle, flushed, prox))
      ensures Moved(old(neighborCacheExpireMap), neighborCacheExpireMap, handle, now)
    {
      hide Agree, Moved, EntriesOk, EntryOk, OnlyLogged, Get, Append, CallsOk, Callbacks, CalledBack;
      ghost var cache, expire := neighborCache, neighborCacheExpireMap;
      OnlyLoggedIfAppended(handle, accepted, delivered, [], flushed);
      CallsOkIfAppended(called, delivered, handle, flushed, prox);
      UpdateEntry(handle, neighborCache[handle].insertTime);
      neighborCache := neighborCache[handle := entry];
      called := Append(called, handle, Callbacks(handle, flushed, prox));
      delivered := Append(delivered, handle, flushed);
      OkIfMoved(cache, expire, neighborCacheExpireMap, now, config, accepted, old(delivered), handle, entry, accepted,
                delivered);
    }

    /** The places that write an entry where it stands. */
    method ChangeEntry(handle: Address, entry: Entry, ghost taken: seq<Context>)
      requires Valid() && handle in neighborCache && entry.insertTime == neighborCache[handle].insertTime
      requires EntryOk(entry, config, Get(accepted, handle) + taken, Get(delivered, handle))
      modifies this`neighborCache, this`accepted
      ensures Valid() && neighborCache == old(neighborCache)[handle := entry]
      ensures accepted == Append(old(accepted), handle, taken)
    {
      hide CallsOk, CalledBack;
      ghost var cache := neighborCache;
      OnlyLoggedIfAppended(handle, accepted, delivered, taken, []);
      hide Agree, EntriesOk, EntryOk, OnlyLogged, Get, Append;
      neighborCache := neighborCache[handle := entry];
      accepted := Append(accepted, handle, taken);
      OkIfChanged(cache, neighborCacheExpireMap, now, config, old(accepted), delivered, handle, entry, accepted,
                  delivered);
    }

    /** A node that is not cached has no context waiting. */
    lemma NewIsOk(handle: Address, e: Entry, taken: seq<Context>)
      requires Valid() && handle !in neighborCache
      requires e.contexts == taken && Owned(taken)
      requires (if e.lastRtts == [] then e.rtt == 0 && e.rttState != VALID else e.rtt > 0)
      requires (forall i :: 0 <= i < |e.lastRtts| ==> e.lastRtts[i] > 0)
      requires |e.lastRtts| <= 1 && (config.enableNeighborCache && taken != [] ==> e.rttState == WAITING)
      ensures EntryOk(e, config, Get(accepted, handle) + taken, Get(delivered, handle))
    {
    }

    lemma EntryIsOk(handle: Address)
      requires Valid() && handle in neighborCache
      ensures EntryOk(neighborCache[handle], config, Get(accepted, handle), Get(delivered, handle))
      ensures neighborCache[handle].insertTime <= now
      ensures config.enableNeighborCache && neighborCache[handle].contexts != [] ==>
              neighborCache[handle].rttState == WAITING
    {
    }

    /** The node counts as asked from now on. */
    method Ask(handle: Address)
      requires Valid() && !Asked(neighborCache, handle)
      requires config.enableNeighborCache && handle in neighborCache ==> neighborCache[handle].contexts == []
      modifies this`neighborCache, this`neighborCacheExpireMap, this`accepted, this`delivered, this`called
      ensures Valid() && Asked(neighborCache, handle)
      ensures neighborCache[handle] == AskedEntry(old(neighborCache), handle, now)
      ensures accepted == old(accepted) && delivered == old(delivered) && called == old(called)
    {
      hide CallsOk, CalledBack, CacheOk;
      if handle !in neighborCache {
        var entry := NewEntry(now).(rttState := WAITING);
        NewIsOk(handle, entry, []);
        hide Valid, CacheOk, EntryOk, Get, Cleaned;
        AddEntry(handle, entry, []);
      } else {
        EntryIsOk(handle);
        AskedNow(neighborCache[handle], config, Get(accepted, handle), Get(delivered, handle), now);
        hide Valid, CacheOk, EntryOk, Get, Moved;
        RefreshEntry(handle, neighborCache[handle].(rttState := WAITING, insertTime := now), [], SELF);
      }
    }

    /** Whether a ping is already under way, so that the context could be stored with it. If not, the node counts
        as asked from now on. The exception for a node that is not asked and has contexts is never thrown. */
    method InsertNodeContext(handle: Address, context: Context) returns (stored: bool, thrown: bool)
      requires Valid() && Owned([context])
      modifies this`neighborCache, this`neighborCacheExpireMap, this`accepted, this`delivered, this`called
      ensures Valid() && !thrown
      ensures !config.enableNeighborCache ==> !stored && neighborCache == old(neighborCache)
                                              && neighborCacheExpireMap == old(neighborCacheExpireMap)
      ensures config.enableNeighborCache ==>
              (stored <==> Asked(old(neighborCache), handle)) && Asked(neighborCache, handle)
      ensures config.enableNeighborCache ==>
                var entry := AskedEntry(old(neighborCache), handle, now);
                neighborCache[handle] == if stored then WithContext(entry, context) else entry
      ensures accepted == (if stored then Append(old(accepted), handle, [context]) else old(accepted))
      ensures delivered == old(delivered) && called == old(called)
    {
      hide CallsOk, CalledBack, CacheOk, EntryOk, Get, Append;
      stored, thrown := false, false;
      if !config.enableNeighborCache {
        return;
      }
      if handle in neighborCache {
        EntryIsOk(handle);
        WaitsToo(neighborCache[handle], config, Get(accepted, handle), Get(delivered, handle), context);
      }
      hide Valid, CacheOk, EntryOk, Get, Append;
      if handle in neighborCache && neighborCache[handle].rttState == WAITING {
        var entry := neighborCache[handle];
        ChangeEntry(handle, WithContext(entry, context), [context]);
        stored := true;
      } else if handle in neighborCache && |neighborCache[handle].contexts| > 0 {
        thrown := true;
      } else {
        Ask(handle);
      }
    }

    /** The calls to the listeners, once the contexts have left the entry. */
    method CallBack(node: Address, contexts: seq<Context>, prox: Prox) returns (calls: seq<Callback>)
      requires Owned(contexts)
      ensures calls == Callbacks(node, contexts, prox) && CalledBack(calls, node, contexts)
      ensures forall k :: 0 <= k < |calls| ==> calls[k].prox == prox
    {
      CallbacksReachAll(node, contexts, prox);
      hide CalledBack;
      calls := [];
      for i := 0 to |contexts|
        invariant calls == Callbacks(node, contexts[..i], prox)
      {
        assert contexts[..i + 1][..i] == contexts[..i];
        var c := contexts[i];
        assert c.listener.Some? || c.context.None?;
        if c.listener.Some? {
          calls := calls + [Callback(c.listener.value, node, c.id, c.context, prox)];
        }
      }
      assert contexts[..|contexts|] == contexts;
    }

    /** A ping was not answered. Whoever waits is told so, once. */
    method SetNodeTimeout(handle: Address) returns (calls: seq<Callback>)
      requires Valid()
      modifies this`neighborCache, this`neighborCacheExpireMap, this`accepted, this`delivered, this`called
      ensures Valid() && handle in neighborCache
      ensures neighborCache[handle].rttState == TIMEOUT && neighborCache[handle].insertTime == now
      ensures neighborCache[handle].contexts == []
      ensures CalledBack(calls, handle, Stored(old(neighborCache), handle))
      ensures forall k :: 0 <= k < |calls| ==> calls[k].prox == NO_ANSWER
      ensures called == Append(old(called), handle, calls)
      ensures accepted == old(accepted)
      ensures delivered == Append(old(delivered), handle, Stored(old(neighborCache), handle))
      ensures forall a :: a in neighborCache && a != handle ==>
              a in old(neighborCache) && neighborCache[a] == old(neighborCache)[a]
    {
      hide CallsOk, CalledBack, Valid, CacheOk, EntryOk, Get, Moved, Callbacks;
      if handle !in neighborCache {
        var entry := NewEntry(now).(rttState := TIMEOUT);
        NewIsOk(handle, entry, []);
        AddEntryOnly(handle, entry, []);
        calls := [];
        NobodyCalled(handle);
      } else {
        EntryIsOk(handle);
        var entry := neighborCache[handle];
        Flushed(entry, config, Get(accepted, handle), Get(delivered, handle));
        RefreshEntry(handle, entry.(insertTime := now, rttState := TIMEOUT, contexts := []), entry.contexts, NO_ANSWER);
        calls := CallBack(handle, entry.contexts, NO_ANSWER);
      }
    }

    /** A round trip time was measured. Whoever waits is told it, once; the entry keeps the smallest time while it is
        valid, and the latest ones as its history. */
    method UpdateNode(add: Address, rtt: Time) returns (calls: seq<Callback>)
      requires Valid()
      modifies this`neighborCache, this`neighborCacheExpireMap, this`accepted, this`delivered, this`called
      ensures Valid() && accepted == old(accepted)
      ensures rtt <= 0 ==> neighborCache == old(neighborCache) && neighborCacheExpireMap == old(neighborCacheExpireMap)
                           && delivered == old(delivered) && calls == []
      ensures rtt > 0 ==>
              add in neighborCache && neighborCache[add].rttState == VALID && neighborCache[add].insertTime == now
                          && neighborCache[add].contexts == []
      ensures rtt > 0 && (add !in old(neighborCache) || old(neighborCache)[add].rttState != VALID) ==>
                neighborCache[add].rtt == rtt
      ensures rtt > 0 && add in old(neighborCache) && old(neighborCache)[add].rttState == VALID ==>
                neighborCache[add].rtt == if rtt < old(neighborCache)[add].rtt then rtt else old(neighborCache)[add].rtt
      ensures rtt > 0 && add !in old(neighborCache) ==> neighborCache[add].lastRtts == [rtt]
      ensures rtt > 0 && add in old(neighborCache) ==>
                var last := old(neighborCache)[add].lastRtts + [rtt];
                neighborCache[add].lastRtts == if |last| <= config.rttHistory then last else last[1..]
      ensures rtt > 0 ==> CalledBack(calls, add, Stored(old(neighborCache), add))
      ensures forall k :: 0 <= k < |calls| ==> calls[k].prox == Measured(rtt)
      ensures called == Append(old(called), add, calls)
      ensures rtt > 0 ==> delivered == Append(old(delivered), add, Stored(old(neighborCache), add))
      ensures forall a :: a in neighborCache && a != add ==>
              a in old(neighborCache) && neighborCache[a] == old(neighborCache)[a]
    {
      hide CallsOk, CalledBack, Valid, CacheOk, EntryOk, Get, Moved, Callbacks;
      calls := [];
      if rtt <= 0 {
        return;
      }
      if add !in neighborCache {
        var entry := Entry(now, rtt, VALID, [rtt], []);
        NewIsOk(add, entry, []);
        AddEntryOnly(add, entry, []);
        NobodyCalled(add);
      } else {
        EntryIsOk(add);
        var entry := neighborCache[add];
        Flushed(entry, config, Get(accepted, add), Get(delivered, add));
        Remembered(entry, config, Get(accepted, add), Get(delivered, add), now, rtt);
        RefreshEntry(add, WithRtt(entry, now, rtt, config.rttHistory), entry.contexts, Measured(rtt));
        calls := CallBack(add, entry.contexts, Measured(rtt));
      }
    }

    /** New coordinates were received: the entry counts as young for eviction, and as old as before for everything
        else. */
    method UpdateNcsInfo(node: Address)
      requires Valid()
      modifies this`neighborCache, this`neighborCacheExpireMap, this`accepted, this`delivered, this`called
      ensures Valid() && accepted == old(accepted) && delivered == old(delivered) && called == old(called)
      ensures node in old(neighborCache) ==> neighborCache == old(neighborCache)
      ensures node in old(neighborCache) ==> Moved(old(neighborCacheExpireMap), neighborCacheExpireMap, node, now)
      ensures node !in old(neighborCache) ==> node in neighborCache && neighborCache[node] == NewEntry(now)
    {
      hide CallsOk, CalledBack;
      if node !in neighborCache {
        NewIsOk(node, NewEntry(now), []);
        hide Valid, CacheOk, EntryOk, Get, Cleaned;
        AddEntry(node, NewEntry(now), []);
      } else {
        EntryIsOk(node);
        var entry := neighborCache[node];
        assert neighborCache[node := entry] == neighborCache && Get(delivered, node) + [] == Get(delivered, node);
        hide Valid, CacheOk, EntryOk, Get, Moved;
        RefreshEntry(node, entry, [], SELF);
      }
    }

    /** What is known of a node. */
    method GetNodeRtt(add: Address) returns (rtt: Time, state: RttState)
      requires Valid()
      modifies this`neighborCache, this`accepted
      ensures Valid() && accepted == old(accepted)
      ensures neighborCache == Looked(old(neighborCache), add, now, config)
      ensures rtt == Known(neighborCache, add, now, config).rtt
      ensures state == Known(neighborCache, add, now, config).rttState
      ensures !config.enableNeighborCache || add == UNSPECIFIED || add !in old(neighborCache) ==>
                rtt == 0 && state == UNKNOWN && neighborCache == old(neighborCache)
      ensures config.enableNeighborCache && add != UNSPECIFIED && add in old(neighborCache) ==>
                var e := old(neighborCache)[add];
                var expired := e.rttState in {VALID, TIMEOUT} && now - e.insertTime >= config.rttExpirationTime;
                && rtt == e.rtt && state == (if expired then UNKNOWN else e.rttState)
                && neighborCache == old(neighborCache)[add := e.(rttState := state)]
    {
      hide CallsOk, CalledBack;
      if !config.enableNeighborCache || add == UNSPECIFIED || add !in neighborCache {
        return 0, UNKNOWN;
      }
      EntryIsOk(add);
      LookedAt(neighborCache, add, now, config, Get(accepted, add), Get(delivered, add));
      hide Valid, CacheOk, EntryOk, Get, Looked, Known, Aged;
      var entry := neighborCache[add];
      if entry.rttState == WAITING || entry.rttState == UNKNOWN {
        return entry.rtt, entry.rttState;
      }
      if now - entry.insertTime >= config.rttExpirationTime {
        entry := entry.(rttState := UNKNOWN);
        ChangeEntry(add, entry, []);
        return entry.rtt, UNKNOWN;
      }
      assert !(entry.rtt == 0 && entry.rttState == VALID);
      return entry.rtt, entry.rttState;
    }

    /** The context is stored, and a ping is sent. If the cache is enabled, the node is asked already. */
    method QueryProx(node: Address, context: Context)
      requires Valid() && Owned([context])
      requires config.enableNeighborCache ==> Asked(neighborCache, node)
      modifies this`neighborCache, this`neighborCacheExpireMap, this`accepted, this`delivered, this`called
      ensures Valid() && delivered == old(delivered) && called == old(called)
      ensures accepted == Append(old(accepted), node, [context])
      ensures Queried(old(neighborCache), old(neighborCacheExpireMap), neighborCache, neighborCacheExpireMap, now,
                      config.maxSize, node, context)
    {
      hide CallsOk, CalledBack;
      if node !in neighborCache {
        var entry := WithContext(NewEntry(now), context);
        NewIsOk(node, entry, [context]);
        hide Valid, CacheOk, EntryOk, Get, Cleaned;
        AddEntry(node, entry, [context]);
      } else {
        EntryIsOk(node);
        var entry := neighborCache[node];
        WaitsToo(entry, config, Get(accepted, node), Get(delivered, node), context);
        hide Valid, CacheOk, EntryOk, Get;
        ChangeEntry(node, WithContext(entry, context), [context]);
      }
    }

    /** A node's proximity, from the cache or by a ping. The answer and the choice between the two are Answer; the
        context is accepted if and only if the caller has to wait for a call back; and a ping is sent only to a node
        that is not asked already. The caller of a disabled cache always has to wait. */
    method GetProx(node: Address, queryType: QueryType, context: Context, coordinates: Option<nat>)
        returns (result: Option<Prox>, pinged: bool)
      requires Valid() && Owned([context])
      modifies this`neighborCache, this`neighborCacheExpireMap, this`accepted, this`delivered, this`called
      ensures Valid() && delivered == old(delivered) && called == old(called)
      ensures result.None? <==> config.enableNeighborCache && node != config.thisNode && node == UNSPECIFIED
      ensures config.enableNeighborCache && node == config.thisNode ==> result == Some(SELF)
      ensures !config.enableNeighborCache ==> result == Some(ASKED)
      ensures !config.enableNeighborCache ==>
                Queried(old(neighborCache), old(neighborCacheExpireMap), neighborCache, neighborCacheExpireMap, now,
                        config.maxSize, node, context)
      ensures config.enableNeighborCache && node != config.thisNode && node != UNSPECIFIED ==>
                result == Some(Reply(old(neighborCache), node, queryType, now, config, coordinates).0)
      ensures accepted == if Waits(old(neighborCache), node, queryType, now, config, coordinates)
                          then Append(old(accepted), node, [context]) else old(accepted)
      ensures pinged <==> Waits(old(neighborCache), node, queryType, now, config, coordinates)
                          && (config.enableNeighborCache ==> !Asked(old(neighborCache), node))
      ensures Waits(old(neighborCache), node, queryType, now, config, coordinates) && config.enableNeighborCache ==>
                Asked(neighborCache, node)
                && neighborCache[node]
                    == WithContext(AskedEntry(Looked(old(neighborCache), node, now, config), node, now), context)
      ensures !Waits(old(neighborCache), node, queryType, now, config, coordinates) && node != config.thisNode ==>
                neighborCache == Looked(old(neighborCache), node, now, config)
    {
      if !config.enableNeighborCache {
        QueryProx(node, context);
        return Some(ASKED), true;
      }
      if node == config.thisNode {
        return Some(SELF), false;
      }
      if node == UNSPECIFIED {
        return None, false;
      }
      hide *;
      var answer;
      answer, pinged := LookUp(node, queryType, context, coordinates);
      return Some(answer), pinged;
    }

    /** getProx for a node that can be in the cache. */
    method LookUp(node: Address, queryType: QueryType, context: Context, coordinates: Option<nat>)
        returns (answer: Prox, pinged: bool)
      requires Valid() && Owned([context]) && config.enableNeighborCache && config.Valid()
      requires node != config.thisNode && node != UNSPECIFIED
      modifies this`neighborCache, this`neighborCacheExpireMap, this`accepted, this`delivered, this`called
      ensures Valid() && delivered == old(delivered) && called == old(called)
      ensures answer == Reply(old(neighborCache), node, queryType, now, config, coordinates).0
      ensures var looked := Looked(old(neighborCache), node, now, config);
              if Reply(old(neighborCache), node, queryType, now, config, coordinates).1
              then accepted == Append(old(accepted), node, [context]) && Asked(neighborCache, node)
                   && neighborCache[node] == WithContext(AskedEntry(looked, node, now), context)
                   && (pinged <==> !Asked(old(neighborCache), node))
              else accepted == old(accepted) && !pinged && neighborCache == looked
    {
      hide CallsOk, CalledBack;
      LookedAsked(neighborCache, node, now, config);
      ghost var cache := neighborCache;
      hide Valid, CacheOk, Get, Append, Answer, Aged, Looked, Known, Resolved, Asked;
      var rtt, state := GetNodeRtt(node);
      var cached := node in neighborCache;
      var (prox, sendQuery) :=
          Answer(Resolved(queryType, config), Known(neighborCache, node, now, config), cached, now, coordinates);
      assert (prox, sendQuery) == Reply(cache, node, queryType, now, config, coordinates);
      answer, pinged := prox, false;
      if sendQuery {
        pinged := SendQuery(node, context);
      }
    }

    /** The end of getProx for a caller that has to wait. */
    method SendQuery(node: Address, context: Context) returns (pinged: bool)
      requires Valid() && Owned([context]) && config.enableNeighborCache
      modifies this`neighborCache, this`neighborCacheExpireMap, this`accepted, this`delivered, this`called
      ensures Valid() && Asked(neighborCache, node) && delivered == old(delivered) && called == old(called)
      ensures neighborCache[node] == WithContext(AskedEntry(old(neighborCache), node, now), context)
      ensures accepted == Append(old(accepted), node, [context])
      ensures pinged <==> !Asked(old(neighborCache), node)
    {
      hide CallsOk, CalledBack;
      hide Valid, Get, Append, Cleaned;
      var stored, _ := InsertNodeContext(node, context);
      pinged := !stored;
      if !stored {
        QueryProx(node, context);
      }
    }
  }

  /** A context that was accepted has neither been called back nor is it stored. */
  ghost predicate Lost(cache: NeighborCache, a: Address)
    reads cache
  {
    Get(cache.accepted, a) != Get(cache.delivered, a) + Stored(cache.neighborCache, a)
  }

  lemma NothingLost(cache: NeighborCache, a: Address)
    requires cache.Valid() && cache.config.enableNeighborCache
    ensures !Lost(cache, a)
    ensures Get(cache.accepted, a) == Get(cache.delivered, a) + Stored(cache.neighborCache, a)
    ensures CalledBack(Get(cache.called, a), a, Get(cache.delivered, a))
  {
    assert CallsOk(cache.called, cache.delivered);
  }

  /** Node 1 has been asked at time 0, and i other nodes after that. */
  ghost predicate StillFirst(cache: Cache, expire: seq<Expiry>, i: nat, maxSize: nat) {
    && |cache| == i + 1 && (i == 0 || |cache| <= maxSize) && expire != [] && expire[0].node == 1
    && 1 in cache && cache[1].rttState == UNKNOWN && cache[1].insertTime == 0
    && forall a :: a in cache ==> a < i + 2
  }

  lemma FreshStays(added: Cache, list: seq<Expiry>, cache': Cache, expire': seq<Expiry>, k: nat)
    requires list != [] && list[0].node in added && added[list[0].node].insertTime == 0
    requires Evicted(added, list, cache', expire', 0, k)
    ensures k == 0 && expire' == list && cache' == Remaining(added, [])
  {
    hide Remaining;
    if k > 0 {
      assert false;
    }
    assert list[..0] == [];
  }

  lemma FreshIsAlone(added: Cache, list: seq<Expiry>, cache': Cache, expire': seq<Expiry>, maxSize: nat)
    requires Cleaned(added, list, cache', expire', 0, maxSize)
    requires list != [] && list[0].node in added && added[list[0].node].insertTime == 0
    ensures cache' == Remaining(added, []) && expire' == list
  {
    hide Evicted, StopsAt, Remaining;
    var k: nat :| Evicted(added, list, cache', expire', 0, k) && StopsAt(added, list, 0, maxSize, k);
    FreshStays(added, list, cache', expire', k);
  }

  lemma FirstIsAlone(cache': Cache, expire': seq<Expiry>, maxSize: nat, context: Context)
    requires Queried(map[], [], cache', expire', 0, maxSize, 1, context)
    ensures StillFirst(cache', expire', 0, maxSize)
  {
    var e := WithContext(NewEntry(0), context);
    var added: Cache, list := map[][1 := e], [] + [Expiry(0, 1)];
    hide Cleaned;
    FreshIsAlone(added, list, cache', expire', maxSize);
    assert Remaining(added, []) == added;
    assert list == [Expiry(0, 1)] && added.Keys == {1};
  }

  lemma FirstIsInFront(cache: Cache, expire: seq<Expiry>, i: nat, maxSize: nat)
    requires StillFirst(cache, expire, i, maxSize)
    ensures 1 in cache && expire != [] && expire[0].node == 1 && Evictable(cache[1], 1) && i + 2 !in cache
  {
  }

  lemma FirstStays(cache: Cache, expire: seq<Expiry>, i: nat, maxSize: nat, e: Entry)
    requires StillFirst(cache, expire, i, maxSize) && |cache| < maxSize
    ensures StillFirst(cache[i + 2 := e], expire + [Expiry(1, i + 2)], i + 1, maxSize)
  {
    assert cache[i + 2 := e].Keys == cache.Keys + {i + 2};
  }

  lemma NextAfterFirst(cache: Cache, expire: seq<Expiry>, cache': Cache, expire': seq<Expiry>, i: nat, maxSize: nat,
                       context: Context)
    requires Agree(cache, expire, 1) && (1 in cache ==> StillFirst(cache, expire, i, maxSize))
    requires Queried(cache, expire, cache', expire', 1, maxSize, i + 2, context)
    ensures 1 in cache' ==> StillFirst(cache', expire', i + 1, maxSize)
  {
    hide *;
    if 1 in cache {
      FirstIsInFront(cache, expire, i, maxSize);
      UnaskedIsDropped(cache, expire, 1, cache', expire', maxSize, i + 2, context);
      if |cache| < maxSize {
        FirstStays(cache, expire, i, maxSize, WithContext(NewEntry(1), context));
      }
    } else {
      NobodyElseAdded(cache, expire, 1, cache', expire', maxSize, i + 2, context, 1);
    }
  }

  /** A cache of any size is asked for one node more than it holds, after a first one; then the first one's ping is
      answered. The context of the first caller is lost exactly if the cache is disabled: its entry does not count as
      waiting then, and so is evicted while the ping is under way, and the answer reaches nobody. If it is enabled, the
      answer is told to the first caller. */
  method ContextsAreLostIffDisabled(config: Config, context: Context)
      returns (cache: NeighborCache, calls: seq<Callback>)
    requires config.Valid() && Owned([context])
    ensures fresh(cache) && cache.Valid() && cache.config == config
    ensures Lost(cache, 1) <==> !config.enableNeighborCache
    ensures !config.enableNeighborCache ==>
            Get(cache.accepted, 1) == [context] && Get(cache.delivered, 1) == [] && calls == []
    ensures config.enableNeighborCache && config.thisNode != 1 ==>
            CalledBack(calls, 1, [context]) && forall call :: call in calls ==> call.prox == Measured(1)
  {
    cache := new NeighborCache(config, 0);
    AskFirst(cache, context);
    hide *;
    cache.Elapse(1);
    ghost var waiting := Get(cache.accepted, 1);
    AskOthers(cache, context);
    if config.enableNeighborCache {
      NothingLost(cache, 1);
      NoneBefore(waiting, Stored(cache.neighborCache, 1));
      calls := cache.UpdateNode(1, 1);
      NothingLost(cache, 1);
    } else {
      calls := AnswerToNobody(cache, context);
    }
  }

  lemma NoneBefore(all: seq<Context>, stored: seq<Context>)
    requires all == [] + stored
    ensures stored == all
  {
  }

  method AskFirst(cache: NeighborCache, context: Context)
    requires cache.Valid() && Owned([context]) && cache.now == 0 && cache.neighborCache == map[]
    requires cache.neighborCacheExpireMap == [] && cache.accepted == cache.delivered == map[]
    modifies cache
    ensures cache.Valid() && cache.now == 0 && Get(cache.delivered, 1) == []
    ensures cache.config.thisNode != 1 || !cache.config.enableNeighborCache ==> Get(cache.accepted, 1) == [context]
    ensures !cache.config.enableNeighborCache ==>
            StillFirst(cache.neighborCache, cache.neighborCacheExpireMap, 0, cache.config.maxSize)
  {
    var config := cache.config;
    if config.enableNeighborCache && config.thisNode != 1 {
      NothingKnown(map[], 1, EXACT, 0, config, None);
      WaitsIf(map[], 1, EXACT, 0, config, None);
    }
    hide CacheOk, Queried, Waits, Reply, AskedEntry, Looked, StillFirst, CallsOk;
    var _, _ := cache.GetProx(1, EXACT, context, None);
    if !config.enableNeighborCache {
      DisabledWaits(map[], 1, EXACT, 0, config, None);
      FirstIsAlone(cache.neighborCache, cache.neighborCacheExpireMap, config.maxSize, context);
    }
  }

  lemma DisabledWaits(cache: Cache, node: Address, t: QueryType, now: Time, c: Config, coordinates: Option<nat>)
    requires c.Valid() && !c.enableNeighborCache
    ensures Waits(cache, node, t, now, c, coordinates)
  {
  }

  /** The answer to a ping whose caller is stored nowhere. */
  method AnswerToNobody(cache: NeighborCache, context: Context) returns (calls: seq<Callback>)
    requires cache.Valid() && 1 !in cache.neighborCache && Get(cache.accepted, 1) == [context]
    requires Get(cache.delivered, 1) == []
    modifies cache
    ensures cache.Valid() && calls == [] && Get(cache.accepted, 1) == [context] && Get(cache.delivered, 1) == []
    ensures Lost(cache, 1)
  {
    hide CacheOk;
    calls := cache.UpdateNode(1, 1);
  }

  method AskOthers(cache: NeighborCache, context: Context)
    requires cache.Valid() && Owned([context]) && cache.now == 1
    requires !cache.config.enableNeighborCache ==>
               && (1 in cache.neighborCache ==>
                   StillFirst(cache.neighborCache, cache.neighborCacheExpireMap, 0, cache.config.maxSize))
               && Get(cache.accepted, 1) == [context]
    requires Get(cache.delivered, 1) == []
    modifies cache
    ensures cache.Valid()
    ensures Get(cache.accepted, 1) == old(Get(cache.accepted, 1)) && Get(cache.delivered, 1) == []
    ensures !cache.config.enableNeighborCache ==>
              1 !in cache.neighborCache && Get(cache.accepted, 1) == [context]
  {
    hide StillFirst, Queried, EntriesOk, Agree;
    for i := 0 to cache.config.maxSize + 1
      invariant cache.Valid() && cache.now == 1
      invariant Get(cache.accepted, 1) == old(Get(cache.accepted, 1)) && Get(cache.delivered, 1) == []
      invariant !cache.config.enableNeighborCache ==>
                  && (1 in cache.neighborCache ==>
                      StillFirst(cache.neighborCache, cache.neighborCacheExpireMap, i, cache.config.maxSize))
                  && Get(cache.accepted, 1) == [context]
    {
      ghost var was, list := cache.neighborCache, cache.neighborCacheExpireMap;
      var _, _ := cache.GetProx(i + 2, EXACT, context, None);
      if !cache.config.enableNeighborCache {
        NextAfterFirst(was, list, cache.neighborCache, cache.neighborCacheExpireMap, i, cache.config.maxSize, context);
      }
    }
    TooManyForFirst(cache.neighborCache, cache.neighborCacheExpireMap, cache.config.maxSize);
  }

  lemma TooManyForFirst(cache: Cache, expire: seq<Expiry>, maxSize: nat)
    ensures !StillFirst(cache, expire, maxSize + 1, maxSize)
  {
  }

  lemma NewlyAsked(node: Address, now: Time, c: Config)
    requires c.Valid() && c.enableNeighborCache && node != c.thisNode && node != UNSPECIFIED
    ensures Waits(map[], node, QUERY, now, c, None)
    ensures AskedEntry(Looked(map[], node, now, c), node, now) == NewEntry(now).(rttState := WAITING)
  {
  }

  lemma EstimatedAtZero(cache: Cache, node: Address, now: Time, c: Config, context: Context)
    requires c.Valid() && c.enableNeighborCache && node != c.thisNode && node != UNSPECIFIED
    requires node in cache && cache[node] == WithContext(NewEntry(now).(rttState := WAITING), context)
    ensures Reply(cache, node, ESTIMATED, now, c, None) == (Measured(0), false)
    ensures !Waits(cache, node, ESTIMATED, now, c, None)
    ensures Looked(cache, node, now, c) == cache && Unmeasured(cache[node])
  {
  }

  /** The zero in an estimate does occur: an enabled cache answers so for every node that it has just asked. */
  method EstimateWithoutMeasurement(config: Config, node: Address, context: Context)
      returns (cache: NeighborCache, result: Option<Prox>)
    requires config.Valid() && config.enableNeighborCache && node != config.thisNode && node != UNSPECIFIED
    requires Owned([context])
    ensures fresh(cache) && cache.Valid() && result == Some(Measured(0))
    ensures node in cache.neighborCache && Unmeasured(cache.neighborCache[node])
  {
    cache := new NeighborCache(config, 0);
    NewlyAsked(node, 0, config);
    hide CacheOk, Waits, Reply, Looked, AskedEntry, WithContext, Queried, NewEntry, Unmeasured, Append;
    var _, _ := cache.GetProx(node, QUERY, context, None);
    EstimatedAtZero(cache.neighborCache, node, 0, config, context);
    var pinged;
    result, pinged := cache.GetProx(node, ESTIMATED, context, None);
  }

  /** A node is measured twice and asked for later: until the times expire, the smaller one is answered, and then the
      node has to be asked again. */
  method MeasuredTwice(config: Config, node: Address, first: Time, second: Time, later: Time, context: Context)
      returns (cache: NeighborCache, result: Option<Prox>, pinged: bool)
    requires config.Valid() && config.enableNeighborCache && node != config.thisNode && node != UNSPECIFIED
    requires first > 0 && second > 0 && later >= 0 && Owned([context])
    ensures fresh(cache) && cache.Valid()
    ensures later < config.rttExpirationTime ==>
              result == Some(Measured(if first <= second then first else second)) && !pinged
    ensures later >= config.rttExpirationTime ==> result == Some(ASKED) && pinged
  {
    cache := new NeighborCache(config, 0);
    hide *;
    var calls := cache.UpdateNode(node, first);
    calls := cache.UpdateNode(node, second);
    cache.Elapse(later);
    MeasuredUntilExpired(cache.neighborCache, node, EXACT, later, config, None);
    WaitsIf(cache.neighborCache, node, EXACT, later, config, None);
    result, pinged := cache.GetProx(node, EXACT, context, None);
  }
}
