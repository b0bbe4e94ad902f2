/** The iterative lookup (src/common/IterativeLookup.cc) in merge mode, without exhaustive routing,
    majority decision and failed node RPCs: several paths search for a key in parallel, share their
    outstanding RPCs, and have siblings authenticate themselves by pings.

    Each handler is one event. The invariants say that no path gets stuck and that the counters of the
    stop rule are exact; a measure that every event decreases shows that a lookup ends. */
module IterativeLookup {
  import opened NodeVector
  import opened Wrappers
  import opened LookupVector

  datatype Configuration = Configuration(
    redundantNodes: nat, parallelPaths: nat, parallelRpcs: nat,
    strictParallelRpcs: bool, useAllParallelResponses: bool,
    newRpcOnEveryTimeout: bool, newRpcOnEveryResponse: bool, finishOnFirstUnchanged: bool,
    verifySiblings: bool, visitOnlyOnce: bool, acceptLateSiblings: bool)

  /** One path: IterativePathLookup. */
  datatype PathLookup = PathLookup(
    hops: nat, step: nat, pendingRpcs: int, finished: bool, success: bool, nextHops: seq<LookupEntry>)

  /** Who is waiting for the answer of an address, and at which step it asked. */
  datatype RpcInfo = RpcInfo(vrpcId: nat, path: nat)

  datatype FindNodeResponse = FindNodeResponse(src: NodeHandle, closestNodes: seq<NodeHandle>, siblings: bool)

  /** What the node itself answers when an attempt starts: findNode() and isSiblingFor(). */
  datatype LocalAnswer = LocalAnswer(nextHops: seq<NodeHandle>, isSibling: bool)

  /** The siblings found so far, all nodes that were offered to them, and the addresses that have been pinged. */
  datatype Siblings = Siblings(found: seq<NodeHandle>, offered: seq<NodeHandle>, pinged: set<Addr>)

  /** What an attempt knows of nodes, and how many paths it has. */
  datatype Standing = Standing(visited: set<Addr>, dead: set<Addr>, pinged: set<Addr>, assured: set<NodeHandle>,
                               found: seq<NodeHandle>, offered: seq<NodeHandle>, parallelPaths: nat)

  /** What can happen to a lookup: a response, which a path may take as an answer to what it asked, a timeout, and the
      same for pings. */
  datatype Event =
    | Answered(msg: FindNodeResponse, late: bool, taken: Option<RpcInfo>)
    | TimedOut(addr: Addr)
    | PingAnswered(handle: NodeHandle)
    | PingTimedOut(id: nat)

  // ----- the bookkeeping of outstanding RPCs

  type Rpcs = map<Addr, seq<RpcInfo>>

  function Register(rpcs: Rpcs, addr: Addr, info: RpcInfo): Rpcs {
    rpcs[addr := (if addr in rpcs then rpcs[addr] else []) + [info]]
  }

  function Without(rpcs: Rpcs, addr: Addr): Rpcs {
    map a | a in rpcs && a != addr :: rpcs[a]
  }

  /** The places in the map where path p waits. */
  ghost function Tickets(rpcs: Rpcs, p: nat): set<(Addr, nat)> {
    set a, i: nat | a in rpcs && i < |rpcs[a]| && rpcs[a][i].path == p :: (a, i)
  }

  function CountIn(infos: seq<RpcInfo>, p: nat): nat {
    if infos == [] then 0 else CountIn(infos[1..], p) + if infos[0].path == p then 1 else 0
  }

  ghost function TicketsAt(addr: Addr, infos: seq<RpcInfo>, p: nat): set<(Addr, nat)> {
    set i: nat | i < |infos| && infos[i].path == p :: (addr, i)
  }

  lemma {:induction false} TicketsAtCount(addr: Addr, infos: seq<RpcInfo>, p: nat)
    ensures |TicketsAt(addr, infos, p)| == CountIn(infos, p)
  {
    if infos != [] {
      var n := |infos| - 1;
      var front := infos[..n];
      TicketsAtCount(addr, front, p);
      CountInSnoc(front, infos[n], p);
      assert front + [infos[n]] == infos;
      if infos[n].path == p {
        assert TicketsAt(addr, infos, p) == TicketsAt(addr, front, p) + {(addr, n)};
      } else {
        assert TicketsAt(addr, infos, p) == TicketsAt(addr, front, p);
      }
    }
  }

  lemma {:induction false} CountInSnoc(infos: seq<RpcInfo>, info: RpcInfo, p: nat)
    ensures CountIn(infos + [info], p) == CountIn(infos, p) + if info.path == p then 1 else 0
  {
    if infos == [] {
      assert infos + [info] == [info];
    } else {
      assert (infos + [info])[1..] == infos[1..] + [info];
      CountInSnoc(infos[1..], info, p);
    }
  }

  /** Taking an address out of the map hands over exactly the infos it held. */
  lemma EraseTickets(rpcs: Rpcs, addr: Addr, p: nat)
    requires addr in rpcs
    ensures |Tickets(rpcs, p)| == |Tickets(Without(rpcs, addr), p)| + CountIn(rpcs[addr], p)
  {
    TicketsAtCount(addr, rpcs[addr], p);
    assert Tickets(rpcs, p) == Tickets(Without(rpcs, addr), p) + TicketsAt(addr, rpcs[addr], p);
  }

  lemma RegisterTicket(rpcs: Rpcs, addr: Addr, info: RpcInfo, p: nat)
    ensures |Tickets(Register(rpcs, addr, info), p)| == |Tickets(rpcs, p)| + if info.path == p then 1 else 0
  {
    var after := Register(rpcs, addr, info);
    EraseTickets(after, addr, p);
    assert Without(after, addr) == Without(rpcs, addr);
    if addr in rpcs {
      EraseTickets(rpcs, addr, p);
      CountInSnoc(rpcs[addr], info, p);
    } else {
      assert Without(rpcs, addr) == rpcs;
      assert after[addr] == [info];
    }
  }

  function CountFinished(paths: seq<PathLookup>): nat {
    if paths == [] then 0 else CountFinished(paths[1..]) + if paths[0].finished then 1 else 0
  }

  /** The counters of finished and of successful paths miss those that finished when they were created, without
      success. */
  ghost predicate Counts(paths: seq<PathLookup>, finished: nat, successful: nat, startFinished: nat) {
    finished + startFinished == CountFinished(paths) && successful == CountSuccessful(paths) && successful <= finished
  }

  lemma SuccessStays(before: seq<PathLookup>, after: seq<PathLookup>, p: nat)
    requires p < |before| == |after| && after == before[p := after[p]] && !before[p].success
    ensures AnySuccess(before) || after[p].success ==> AnySuccess(after)
  {
    if path :| path in before && path.success {
      var q: nat :| q < |before| && before[q] == path;
      assert after[q] == path;
    }
  }

  predicate AnySuccess(paths: seq<PathLookup>) {
    exists path :: path in paths && path.success
  }

  function CountSuccessful(paths: seq<PathLookup>): nat {
    if paths == [] then 0 else CountSuccessful(paths[1..]) + if paths[0].success then 1 else 0
  }

  lemma {:induction false} CountUpdate(paths: seq<PathLookup>, p: nat, path: PathLookup)
    requires p < |paths|
    ensures CountFinished(paths[p := path])
         == CountFinished(paths) + (if path.finished then 1 else 0) - if paths[p].finished then 1 else 0
    ensures CountSuccessful(paths[p := path])
         == CountSuccessful(paths) + (if path.success then 1 else 0) - if paths[p].success then 1 else 0
  {
    if p == 0 {
      assert paths[p := path] == [path] + paths[1..];
    } else {
      assert paths[p := path][1..] == paths[1..][p - 1 := path];
      CountUpdate(paths[1..], p - 1, path);
    }
  }

  lemma {:induction false} CountAppend(paths: seq<PathLookup>, path: PathLookup)
    ensures CountFinished(paths + [path]) == CountFinished(paths) + if path.finished then 1 else 0
    ensures CountSuccessful(paths + [path]) == CountSuccessful(paths) + if path.success then 1 else 0
  {
    if paths == [] {
      assert paths + [path] == [path];
    } else {
      assert (paths + [path])[1..] == paths[1..] + [path];
      CountAppend(paths[1..], path);
    }
  }

  lemma {:induction false} CountBound(paths: seq<PathLookup>)
    requires forall path :: path in paths && path.success ==> path.finished
    ensures CountSuccessful(paths) <= CountFinished(paths) <= |paths|
    ensures CountFinished(paths) == |paths| <==> forall path :: path in paths ==> path.finished
    ensures CountSuccessful(paths) >= 1 <==> exists path :: path in paths && path.success
  {
    if paths != [] {
      CountBound(paths[1..]);
      assert paths == [paths[0]] + paths[1..];
    }
  }

  // ----- what every event keeps

  /** The constants of a lookup that the invariants speak of: the size of a path's next hops, the
      distance from the key looked up, and all nodes that anybody can ever name. */
  datatype Setting = Setting(config: Configuration, distance: Key -> nat, universe: set<NodeHandle>)

  /** The queries that `n` paths can make. */
  ghost function Pairs(s: Setting, n: nat): set<(nat, Key)> {
    set p: nat, h | p < n && h in s.universe :: (p, h.key)
  }

  /** The keys that path p has queried. */
  ghost function Used(queried: set<(nat, Key)>, p: nat): set<Key> {
    set pk | pk in queried && pk.0 == p :: pk.1
  }

  ghost predicate PathOk(s: Setting, path: PathLookup, used: set<Key>) {
    && HopsOk(s.config.redundantNodes, s.distance, path.nextHops, used)
    && (forall e :: e in path.nextHops ==> e.handle in s.universe)
    && (path.success ==> path.finished)
  }

  /** An unfinished path waits for exactly the infos in the map, and for those in `rest`, which an event
      has taken out of the map and not yet handled. */
  ghost predicate Booked(path: PathLookup, p: nat, rpcs: Rpcs, rest: seq<RpcInfo>) {
    !path.finished ==> path.pendingRpcs == |Tickets(rpcs, p)| + CountIn(rest, p)
  }

  /** An unfinished path always waits for something; a strictly parallel one not for too much. */
  ghost predicate Live(s: Setting, path: PathLookup) {
    !path.finished ==>
      path.pendingRpcs > 0 && (s.config.strictParallelRpcs ==> path.pendingRpcs <= s.config.parallelRpcs)
  }

  ghost predicate PathsOk(s: Setting, n: nat, paths: seq<PathLookup>, queried: set<(nat, Key)>) {
    && |paths| <= n
    && queried <= Pairs(s, n)
    && (forall p: nat :: p < |paths| ==> PathOk(s, paths[p], Used(queried, p)))
  }

  ghost predicate AllBooked(paths: seq<PathLookup>, rpcs: Rpcs, rest: seq<RpcInfo>) {
    && (forall p: nat :: p < |paths| ==> Booked(paths[p], p, rpcs, rest))
    && (forall info :: info in rest ==> info.path < |paths| && info.vrpcId <= paths[info.path].step)
    && (forall a, info :: a in rpcs && info in rpcs[a] ==> info.path < |paths| && info.vrpcId <= paths[info.path].step)
  }

  /** Twice the queries the paths can still make, and the addresses that owe an answer. */
  ghost function Work(s: Setting, n: nat, queried: set<(nat, Key)>, rpcs: Rpcs): nat {
    2 * |Pairs(s, n) - queried| + |rpcs|
  }

  /** The path after querying its next hop i. */
  function Querying(path: PathLookup, i: nat): PathLookup
    requires i < |path.nextHops|
  {
    path.(pendingRpcs := path.pendingRpcs + 1,
          nextHops := path.nextHops[i := path.nextHops[i].(alreadyUsed := true)])
  }

  function WithHops(path: PathLookup, hops: seq<LookupEntry>): (r: PathLookup)
    ensures r.nextHops == hops
  {
    path.(nextHops := hops)
  }

  lemma WithHopsTwice(path: PathLookup)
    ensures forall a, b :: WithHops(WithHops(path, a), b) == WithHops(path, b)
    ensures WithHops(path, path.nextHops) == path
  {
  }

  /** No path queries a key twice: an unmarked next hop has never been queried. */
  lemma QueryIsNew(s: Setting, n: nat, paths: seq<PathLookup>, queried: set<(nat, Key)>, p: nat, i: nat)
    requires PathsOk(s, n, paths, queried) && p < |paths| && i < |paths[p].nextHops|
    requires !paths[p].nextHops[i].alreadyUsed
    ensures (p, paths[p].nextHops[i].handle.key) in Pairs(s, n) - queried
  {
  }

  lemma QueryKeepsPaths(s: Setting, n: nat, paths: seq<PathLookup>, queried: set<(nat, Key)>, p: nat, i: nat)
    requires PathsOk(s, n, paths, queried) && p < |paths| && i < |paths[p].nextHops|
    requires !paths[p].nextHops[i].alreadyUsed
    ensures PathsOk(s, n, paths[p := Querying(paths[p], i)], queried + {(p, paths[p].nextHops[i].handle.key)})
  {
    QueryIsNew(s, n, paths, queried, p, i);
    var path := paths[p];
    var k := path.nextHops[i].handle.key;
    var queried' := queried + {(p, k)};
    assert PathOk(s, path, Used(queried, p));
    MarkHop(s.config.redundantNodes, s.distance, path.nextHops, Used(queried, p), i);
    assert Used(queried', p) == Used(queried, p) + {k};
    forall e | e in Querying(path, i).nextHops
      ensures e.handle in s.universe
    {
      var j :| 0 <= j < |path.nextHops| && Querying(path, i).nextHops[j] == e;
      assert path.nextHops[j] in path.nextHops;
    }
    forall q: nat | q < |paths| && q != p
      ensures PathOk(s, paths[q], Used(queried', q))
    {
      assert Used(queried', q) == Used(queried, q);
    }
  }

  lemma QueryKeepsBooked(paths: seq<PathLookup>, rpcs: Rpcs, rest: seq<RpcInfo>, p: nat, i: nat)
    requires AllBooked(paths, rpcs, rest) && p < |paths| && i < |paths[p].nextHops|
    ensures var e := paths[p].nextHops[i];
            AllBooked(paths[p := Querying(paths[p], i)], Register(rpcs, e.handle.addr, RpcInfo(paths[p].step, p)), rest)
  {
    var addr := paths[p].nextHops[i].handle.addr;
    var info := RpcInfo(paths[p].step, p);
    var paths' := paths[p := Querying(paths[p], i)];
    forall q: nat | q < |paths'|
      ensures Booked(paths'[q], q, Register(rpcs, addr, info), rest)
    {
      RegisterTicket(rpcs, addr, info, q);
    }
  }

  lemma QueryWork(s: Setting, n: nat, queried: set<(nat, Key)>, rpcs: Rpcs, pair: (nat, Key), addr: Addr, info: RpcInfo)
    requires pair in Pairs(s, n) - queried
    ensures Work(s, n, queried + {pair}, Register(rpcs, addr, info)) < Work(s, n, queried, rpcs)
  {
    hide Pairs;
    assert Pairs(s, n) - (queried + {pair}) == (Pairs(s, n) - queried) - {pair};
    assert Register(rpcs, addr, info).Keys == rpcs.Keys + {addr};
  }

  lemma UpdateKeepsPaths(s: Setting, n: nat, paths: seq<PathLookup>, queried: set<(nat, Key)>, p: nat, path: PathLookup)
    requires PathsOk(s, n, paths, queried) && p < |paths| && PathOk(s, path, Used(queried, p))
    ensures PathsOk(s, n, paths[p := path], queried)
  {
  }

  ghost predicate SameButHops(before: PathLookup, after: PathLookup) {
    after == before.(pendingRpcs := after.pendingRpcs, nextHops := after.nextHops)
  }

  lemma PendingIsCount(paths: seq<PathLookup>, rpcs: Rpcs, rest: seq<RpcInfo>, p: nat)
    requires AllBooked(paths, rpcs, rest) && p < |paths|
    ensures !paths[p].finished ==> paths[p].pendingRpcs >= 0
  {
  }

  /** IterativePathLookup::add in merge mode */
  function Adding(redundantNodes: nat, distance: Key -> nat, hops: seq<LookupEntry>, handle: NodeHandle,
                  source: Option<NodeHandle>)
    : AddResult<LookupEntry>
    requires Zoned(HopsConfig(redundantNodes, distance), hops)
  {
    KeyOfferable(redundantNodes, (e: LookupEntry) => e.handle.key, distance, hops, LookupEntry(handle, source, false));
    AddTo(HopsConfig(redundantNodes, distance), hops, LookupEntry(handle, source, false))
  }

  /** The next hops after offering nodes that `source` has named. */
  function AddedHops(redundantNodes: nat, distance: Key -> nat, hops: seq<LookupEntry>, nodes: seq<NodeHandle>,
                     source: Option<NodeHandle>): (r: seq<LookupEntry>)
    requires Zoned(HopsConfig(redundantNodes, distance), hops)
    ensures Zoned(HopsConfig(redundantNodes, distance), r)
  {
    if nodes == [] then hops
    else
      var before := AddedHops(redundantNodes, distance, hops, nodes[..|nodes| - 1], source);
      AddingKeepsZoned(redundantNodes, distance, before, nodes[|nodes| - 1], source);
      Adding(redundantNodes, distance, before, nodes[|nodes| - 1], source).elems
  }

  /** How many of the nodes found a place among the first redundantNodes hops. */
  function NewHops(redundantNodes: nat, distance: Key -> nat, hops: seq<LookupEntry>, nodes: seq<NodeHandle>,
                   source: Option<NodeHandle>): nat
    requires Zoned(HopsConfig(redundantNodes, distance), hops)
  {
    if nodes == [] then 0
    else
      var front := nodes[..|nodes| - 1];
      var pos := Adding(redundantNodes, distance, AddedHops(redundantNodes, distance, hops, front, source),
                        nodes[|nodes| - 1], source).pos;
      NewHops(redundantNodes, distance, hops, front, source) + if 0 <= pos < redundantNodes then 1 else 0
  }

  lemma AddedHopsStep(redundantNodes: nat, distance: Key -> nat, hops: seq<LookupEntry>, nodes: seq<NodeHandle>, i: nat,
                      source: Option<NodeHandle>)
    requires Zoned(HopsConfig(redundantNodes, distance), hops) && i < |nodes|
    ensures var before := AddedHops(redundantNodes, distance, hops, nodes[..i], source);
            var r := Adding(redundantNodes, distance, before, nodes[i], source);
            && AddedHops(redundantNodes, distance, hops, nodes[..i + 1], source) == r.elems
            && NewHops(redundantNodes, distance, hops, nodes[..i + 1], source)
               == NewHops(redundantNodes, distance, hops, nodes[..i], source)
                  + if 0 <= r.pos < redundantNodes then 1 else 0
  {
    hide Adding, Zoned;
    assert nodes[..i + 1][..i] == nodes[..i];
  }

  lemma NoHops(redundantNodes: nat, distance: Key -> nat)
    ensures Zoned(HopsConfig(redundantNodes, distance), [])
  {
  }

  /** Every n-th node from the i-th on. */
  function Dealt(nodes: seq<NodeHandle>, i: nat, n: nat): seq<NodeHandle>
    requires n > 0
    decreases |nodes| - i
  {
    if i >= |nodes| then [] else [nodes[i]] + Dealt(nodes, i + n, n)
  }

  /** A path gets the nodes at the places i, i + n, i + 2n and so on up to the end. */
  lemma {:induction false} DealtAre(nodes: seq<NodeHandle>, i: nat, n: nat, k: nat)
    requires n > 0
    ensures k < |Dealt(nodes, i, n)| <==> i + k * n < |nodes|
    ensures i + k * n < |nodes| ==> k < |Dealt(nodes, i, n)| && Dealt(nodes, i, n)[k] == nodes[i + k * n]
    decreases k
  {
    if k > 0 {
      assert i + n + (k - 1) * n == i + k * n;
      if i < |nodes| {
        DealtAre(nodes, i + n, n, k - 1);
      } else {
        assert k * n > 0;
      }
    }
  }

  ghost predicate DealtSoFar(nodes: seq<NodeHandle>, dealt: seq<NodeHandle>, i: nat, k: nat, n: nat) {
    n > 0 && dealt + Dealt(nodes, k, n) == Dealt(nodes, i, n)
  }

  lemma DealtStart(nodes: seq<NodeHandle>, i: nat, n: nat)
    requires n > 0
    ensures DealtSoFar(nodes, [], i, i, n)
  {
  }

  lemma DealtNext(nodes: seq<NodeHandle>, dealt: seq<NodeHandle>, i: nat, k: nat, n: nat)
    requires DealtSoFar(nodes, dealt, i, k, n) && k < |nodes|
    ensures DealtSoFar(nodes, dealt + [nodes[k]], i, k + n, n)
  {
    assert dealt + Dealt(nodes, k, n) == dealt + [nodes[k]] + Dealt(nodes, k + n, n);
  }

  lemma DealtEnd(nodes: seq<NodeHandle>, dealt: seq<NodeHandle>, i: nat, k: nat, n: nat)
    requires DealtSoFar(nodes, dealt, i, k, n) && k >= |nodes|
    ensures dealt == Dealt(nodes, i, n)
  {
  }

  lemma AddedHopsNext(redundantNodes: nat, distance: Key -> nat, hops: seq<LookupEntry>, nodes: seq<NodeHandle>,
                      node: NodeHandle, source: Option<NodeHandle>)
    requires Zoned(HopsConfig(redundantNodes, distance), hops)
    ensures AddedHops(redundantNodes, distance, hops, nodes + [node], source)
         == Adding(redundantNodes, distance, AddedHops(redundantNodes, distance, hops, nodes, source), node,
                   source).elems
  {
    hide Adding, Zoned;
    assert (nodes + [node])[..|nodes|] == nodes;
  }

  lemma {:induction false} NewHopsAreUnused(redundantNodes: nat, distance: Key -> nat, nodes: seq<NodeHandle>,
                                            source: Option<NodeHandle>)
    requires Zoned(HopsConfig(redundantNodes, distance), [])
    ensures forall e :: e in AddedHops(redundantNodes, distance, [], nodes, source) ==> !e.alreadyUsed
  {
    if nodes != [] {
      var front, last := nodes[..|nodes| - 1], nodes[|nodes| - 1];
      NewHopsAreUnused(redundantNodes, distance, front, source);
      var hops, e := AddedHops(redundantNodes, distance, [], front, source), LookupEntry(last, source, false);
      KeyOfferable(redundantNodes, (e: LookupEntry) => e.handle.key, distance, hops, e);
      AddWell(HopsConfig(redundantNodes, distance), hops, e);
    }
  }

  lemma AddingKeepsZoned(redundantNodes: nat, distance: Key -> nat, hops: seq<LookupEntry>, handle: NodeHandle,
                         source: Option<NodeHandle>)
    requires Zoned(HopsConfig(redundantNodes, distance), hops)
    ensures Zoned(HopsConfig(redundantNodes, distance), Adding(redundantNodes, distance, hops, handle, source).elems)
  {
    var e := LookupEntry(handle, source, false);
    KeyOfferable(redundantNodes, (e: LookupEntry) => e.handle.key, distance, hops, e);
    AddWell(HopsConfig(redundantNodes, distance), hops, e);
  }

  lemma AddKeepsPath(s: Setting, path: PathLookup, used: set<Key>, handle: NodeHandle, source: Option<NodeHandle>)
    requires PathOk(s, path, used) && handle in s.universe
    ensures var hops := Adding(s.config.redundantNodes, s.distance, path.nextHops, handle, source).elems;
            PathOk(s, path.(nextHops := hops), used)
  {
    var e := LookupEntry(handle, source, false);
    AddHop(s.config.redundantNodes, s.distance, path.nextHops, used, e);
    AddWell(HopsConfig(s.config.redundantNodes, s.distance), path.nextHops, e);
  }

  lemma HopsAreZoned(s: Setting, n: nat, paths: seq<PathLookup>, queried: set<(nat, Key)>, p: nat)
    requires PathsOk(s, n, paths, queried) && p < |paths|
    ensures PathOk(s, paths[p], Used(queried, p))
    ensures Zoned(HopsConfig(s.config.redundantNodes, s.distance), paths[p].nextHops)
  {
  }

  lemma SuccessIsFinished(s: Setting, n: nat, paths: seq<PathLookup>, queried: set<(nat, Key)>, p: nat)
    requires PathsOk(s, n, paths, queried) && p < |paths|
    ensures paths[p].success ==> paths[p].finished
  {
  }

  lemma UpdateKeepsBooked(paths: seq<PathLookup>, rpcs: Rpcs, rest: seq<RpcInfo>, p: nat, path: PathLookup)
    requires AllBooked(paths, rpcs, rest) && p < |paths|
    requires path.finished || (!paths[p].finished && path.pendingRpcs == paths[p].pendingRpcs)
    requires path.step >= paths[p].step
    ensures AllBooked(paths[p := path], rpcs, rest)
  {
  }

  /** Handling an info: the path waits for one answer less, or is finished. */
  lemma TakeInfo(paths: seq<PathLookup>, rpcs: Rpcs, info: RpcInfo, rest: seq<RpcInfo>, path: PathLookup)
    requires AllBooked(paths, rpcs, [info] + rest)
    requires info.path < |paths|
    requires path.finished || (!paths[info.path].finished && path.pendingRpcs == paths[info.path].pendingRpcs - 1)
    requires path.step >= paths[info.path].step
    ensures AllBooked(paths[info.path := path], rpcs, rest)
  {
    var paths' := paths[info.path := path];
    forall q: nat | q < |paths'|
      ensures Booked(paths'[q], q, rpcs, rest)
    {
      assert Booked(paths[q], q, rpcs, [info] + rest);
      assert ([info] + rest)[1..] == rest;
    }
    assert forall x :: x in rest ==> x in [info] + rest;
  }

  /** An address leaves the map, and its infos become those to handle. */
  lemma TakeAddress(paths: seq<PathLookup>, rpcs: Rpcs, addr: Addr)
    requires AllBooked(paths, rpcs, []) && addr in rpcs
    ensures AllBooked(paths, Without(rpcs, addr), rpcs[addr])
  {
    forall p: nat | p < |paths|
      ensures Booked(paths[p], p, Without(rpcs, addr), rpcs[addr])
    {
      assert Booked(paths[p], p, rpcs, []);
      EraseTickets(rpcs, addr, p);
    }
  }

  lemma TakeAddressWork(s: Setting, n: nat, queried: set<(nat, Key)>, rpcs: Rpcs, addr: Addr)
    requires addr in rpcs
    ensures Work(s, n, queried, Without(rpcs, addr)) < Work(s, n, queried, rpcs)
  {
    assert Without(rpcs, addr).Keys == rpcs.Keys - {addr};
  }

  lemma LiveUpdate(s: Setting, before: seq<PathLookup>, after: seq<PathLookup>, p: nat)
    requires p < |before| == |after| && after == before[p := after[p]] && Live(s, after[p])
    requires forall q: nat :: q < |before| ==> Live(s, before[q])
    ensures forall q: nat :: q < |after| ==> Live(s, after[q])
  {
  }

  /** Nobody waits for an empty map. */
  lemma NoRpcsAllFinished(s: Setting, paths: seq<PathLookup>, rpcs: Rpcs)
    requires AllBooked(paths, rpcs, []) && rpcs == map[]
    requires forall p: nat :: p < |paths| ==> Live(s, paths[p])
    ensures forall p: nat :: p < |paths| ==> paths[p].finished
  {
  }

  /** A new path has queried nothing and waits for nothing. */
  lemma NewPath(s: Setting, n: nat, paths: seq<PathLookup>, queried: set<(nat, Key)>, rpcs: Rpcs)
    requires PathsOk(s, n, paths, queried) && AllBooked(paths, rpcs, []) && |paths| < n
    requires forall pk :: pk in queried ==> pk.0 < |paths|
    ensures PathsOk(s, n, paths + [PathLookup(0, 0, 0, false, false, [])], queried)
    ensures AllBooked(paths + [PathLookup(0, 0, 0, false, false, [])], rpcs, [])
  {
  }

  // ----- the lookup

  class IterativeLookup {
    const config: Configuration
    const thisNode: NodeHandle
    const key: Key
    const distance: Key -> nat
    const numSiblings: nat
    const hopCountMax: nat
    /** The local answers, by the number of retries left when they are asked for. */
    const local: nat -> LocalAnswer
    /** All nodes that anybody can ever name. */
    ghost const universe: set<NodeHandle>

    var parallelPaths: nat
    var retries: nat
    var finished: bool
    var success: bool
    var running: bool
    var deleted: bool
    var listener: bool
    var finishedPaths: nat
    var successfulPaths: nat
    var accumulatedHops: nat
    var siblings: seq<NodeHandle>
    var visited: set<Addr>
    var dead: set<Addr>
    var pinged: set<Addr>
    var pendingPings: map<nat, Addr>
    var rpcs: Rpcs
    var paths: seq<PathLookup>

    /** Which path has queried which key, in this attempt. */
    ghost var queried: set<(nat, Key)>
    /** How many paths had finished when they were created. */
    ghost var startFinished: nat
    /** The nodes added to the siblings vector in this attempt, and those that were known to be genuine
        when they were added: by the local answer, or by having answered a ping. */
    ghost var offered: seq<NodeHandle>
    ghost var assured: set<NodeHandle>
    ghost var starts: nat
    ghost var allowed: nat
    ghost var notifications: nat

    constructor (config: Configuration, thisNode: NodeHandle, key: Key, distance: Key -> nat, numSiblings: nat,
                 hopCountMax: nat, local: nat -> LocalAnswer, ghost universe: set<NodeHandle>)
      requires thisNode in universe && forall r: nat, h :: h in local(r).nextHops ==> h in universe
      ensures Idle() && parallelPaths == config.parallelPaths
      ensures this.config == config && this.thisNode == thisNode && this.key == key && this.distance == distance
      ensures this.numSiblings == numSiblings && this.hopCountMax == hopCountMax && this.local == local
      ensures this.universe == universe && retries == 0 && !success
      ensures finishedPaths == successfulPaths == accumulatedHops == 0
      ensures siblings == [] && pinged == visited == dead == {}
    {
      this.config, this.thisNode, this.key, this.distance := config, thisNode, key, distance;
      this.numSiblings, this.hopCountMax, this.local, this.universe := numSiblings, hopCountMax, local, universe;
      parallelPaths := config.parallelPaths;
      retries, finished, success, running, deleted, listener := 0, false, false, false, false, true;
      finishedPaths, successfulPaths, accumulatedHops, siblings := 0, 0, 0, [];
      visited, dead, pinged, pendingPings, rpcs, paths := {}, {}, {}, map[], map[], [];
      queried, startFinished, offered, assured := {}, 0, [], {};
      starts, notifications, allowed := 0, 0, 0;
    }

    /** Before lookup() is called. */
    ghost predicate Idle()
      reads this
    {
      && !running && !finished && !deleted && listener && notifications == 0 && LocalOk()
      && paths == [] && rpcs == map[] && pendingPings == map[]
    }

    ghost function S(): Setting {
      Setting(config, distance, universe)
    }

    ghost function AllAddrs(): set<Addr> {
      set h | h in universe :: h.addr
    }

    /** All paths are in order while an event is being handled; `rest` are the infos still to handle. */
    ghost predicate Steady(rest: seq<RpcInfo>)
      reads this`parallelPaths, this`paths, this`queried, this`rpcs, this`running, this`finished
    {
      && running && !finished
      && PathsOk(S(), parallelPaths, paths, queried)
      && AllBooked(paths, rpcs, rest)
    }

    function MaxSiblings(): nat {
      if numSiblings == 0 then 1 else numSiblings
    }

    /** A single path that does not verify takes siblings as they come. */
    predicate TakesAll()
      reads this`parallelPaths
    {
      parallelPaths == 1 && !config.verifySiblings
    }

    /** The nodes that the node itself answers for when an attempt starts. */
    ghost function LocallyOffered(): seq<NodeHandle>
      reads this`retries
    {
      var answer := local(retries);
      if answer.nextHops == [] || !answer.isSibling then []
      else if numSiblings != 0 then answer.nextHops
      else if thisNode.key == key then [thisNode]
      else []
    }

    ghost function LocallyAssured(): set<NodeHandle>
      reads this`retries
    {
      set h | h in LocallyOffered()
    }

    /** In this attempt the node has met nobody but itself, and vouches for nobody but those of its own answer. */
    ghost predicate JustStarted()
      reads this`visited, this`dead, this`pinged, this`assured, this`offered, this`retries
    {
      visited == {thisNode.addr} && dead == pinged == {} && assured == LocallyAssured() && offered == LocallyOffered()
    }

    /** The siblings found so far are the closest of those offered, or the first ones; verified ones have
        been visited, or assured by the node itself or by their answer to a ping. */
    ghost predicate SiblingsOk()
      reads this`siblings, this`offered, this`assured, this`visited, this`parallelPaths
    {
      && |siblings| <= MaxSiblings()
      && (if numSiblings == 0 then
            (forall h :: h in siblings ==> h.key == key && h in offered)
                && (siblings == [] ==> forall h :: h in offered ==> h.key != key)
          else if TakesAll() then siblings == offered[..if |offered| < numSiblings then |offered| else numSiblings]
          else Best(SiblingConfig(numSiblings, distance), siblings, offered))
      && (config.verifySiblings ==> forall h :: h in siblings ==> h.addr in visited || h in assured)
    }

    /** Twice the nodes that can still be pinged, and the pings that are out. */
    ghost function PingsLeft(): nat
      reads this`pinged, this`pendingPings
    {
      2 * |AllAddrs() - pinged| + |pendingPings|
    }

    ghost function WorkLeft(): nat
      reads this`parallelPaths, this`queried, this`rpcs
    {
      Work(S(), parallelPaths, queried, rpcs)
    }

    // ----- sending RPCs

    /** IterativeLookup::sendRpc */
    method SendRpc(handle: NodeHandle, path: nat, rpcId: nat)
      modifies this`rpcs
      ensures finished || !running ==> rpcs == old(rpcs)
      ensures !finished && running ==> rpcs == Register(old(rpcs), handle.addr, RpcInfo(rpcId, path))
    {
      if finished || !running {
        return;
      }
      if handle.addr !in rpcs {
        rpcs := rpcs[handle.addr := []];
      }
      rpcs := rpcs[handle.addr := rpcs[handle.addr] + [RpcInfo(rpcId, path)]];
    }

    /** One query of a path: the body of the loop in IterativePathLookup::sendRpc. */
    method Query(p: nat, i: nat, ghost rest: seq<RpcInfo>)
      requires Steady(rest) && p < |paths| && i < |paths[p].nextHops| && !paths[p].nextHops[i].alreadyUsed
      modifies this`rpcs, this`paths, this`queried
      ensures Steady(rest) && WorkLeft() < old(WorkLeft())
      ensures var e := old(paths[p].nextHops[i]);
              && (p, e.handle.key) !in old(queried) && queried == old(queried) + {(p, e.handle.key)}
              && rpcs == Register(old(rpcs), e.handle.addr, RpcInfo(old(paths[p].step), p))
              && paths == old(paths)[p := Querying(old(paths[p]), i)]
    {
      hide PathsOk, AllBooked, Work, Pairs;
      var e := paths[p].nextHops[i];
      QueryIsNew(S(), parallelPaths, paths, queried, p, i);
      QueryKeepsPaths(S(), parallelPaths, paths, queried, p, i);
      QueryKeepsBooked(paths, rpcs, rest, p, i);
      QueryWork(S(), parallelPaths, queried, rpcs, (p, e.handle.key), e.handle.addr, RpcInfo(paths[p].step, p));
      SendRpc(e.handle, p, paths[p].step);
      paths := paths[p := Querying(paths[p], i)];
      queried := queried + {(p, e.handle.key)};
    }

    /** May this next hop be queried now? */
    predicate Usable(e: LookupEntry)
      reads this`dead, this`visited
    {
      !e.alreadyUsed && e.handle.addr !in dead && (!config.visitOnlyOnce || e.handle.addr !in visited)
    }

    /** Only usable hops among the first redundantNodes are queried. */
    ghost predicate NewQueries(p: nat, hops: seq<LookupEntry>, before: set<(nat, Key)>, after: set<(nat, Key)>)
      reads this`dead, this`visited
    {
      && before <= after
      && forall pk :: pk in after - before ==>
           pk.0 == p && exists i: nat :: i < config.redundantNodes && QueriedAt(hops, i, pk.1)
    }

    ghost predicate QueriedAt(hops: seq<LookupEntry>, i: nat, k: Key)
      reads this`dead, this`visited
    {
      i < |hops| && hops[i].handle.key == k && Usable(hops[i])
    }

    /** A path asks, of its first hops, those that it has not asked yet, that are not dead and, if nodes are visited
        only once, that have not been visited. */
    lemma QueriesAre(p: nat, hops: seq<LookupEntry>, before: set<(nat, Key)>, after: set<(nat, Key)>)
      requires NewQueries(p, hops, before, after)
      ensures forall pk :: pk in after - before ==>
                pk.0 == p
                && exists i: nat | i < |hops| && i < config.redundantNodes :: hops[i].handle.key == pk.1
                     && !hops[i].alreadyUsed && hops[i].handle.addr !in dead
                     && (config.visitOnlyOnce ==> hops[i].handle.addr !in visited)
    {
    }

    /** A path gives up early only if all of its first hops have been asked, are dead or, if nodes are visited only
        once, have been visited. */
    lemma GivesUpIf(path: PathLookup, n: int)
      requires GivesUp(path, n)
      requires config.parallelRpcs > 0 && n > 0 && (hopCountMax == 0 || path.hops < hopCountMax)
      ensures forall i: nat :: i < |path.nextHops| && i < config.redundantNodes ==>
                var e := path.nextHops[i];
                e.alreadyUsed || e.handle.addr in dead || (config.visitOnlyOnce && e.handle.addr in visited)
    {
      forall i: nat | i < |path.nextHops| && i < config.redundantNodes
        ensures !Usable(path.nextHops[i])
      {
      }
    }

    /** A path gives up only if it may not ask any more, or if nobody is left to ask. */
    ghost predicate GivesUp(path: PathLookup, n: int)
      reads this`dead, this`visited
    {
      || (hopCountMax != 0 && path.hops >= hopCountMax)
      || config.parallelRpcs == 0 || n < 0 || (n == 0 && config.finishOnFirstUnchanged)
      || NoneUsable(path.nextHops, config.redundantNodes)
    }

    /** How many queries sending n RPCs makes: strict parallelism lowers n; a path with nothing pending
        and nothing new tries what is left. */
    ghost function Queries(path: PathLookup, n: int): nat
      reads this`dead, this`visited
    {
      var room := config.parallelRpcs - path.pendingRpcs;
      var strict := if config.strictParallelRpcs && room < n then room else n;
      var num := if strict == 0 && path.pendingRpcs == 0 && !config.finishOnFirstUnchanged then config.parallelRpcs
                 else strict;
      var usable := CountUsable(path.nextHops, Reach(path.nextHops));
      if num <= 0 then 0 else if usable < num then usable else num
    }

    /** What sending n RPCs may do to a path. */
    ghost predicate Sent(before: PathLookup, after: PathLookup, n: int)
      reads this`dead, this`visited
    {
      if before.finished then after == before
      else
        && after.hops == before.hops && after.step == before.step && Live(S(), after)
        && !after.success
        && (after.finished
            <==> (hopCountMax != 0 && before.hops >= hopCountMax) || before.pendingRpcs + Queries(before, n) == 0)
        && (if after.finished then GivesUp(after, n) else after.pendingRpcs == before.pendingRpcs + Queries(before, n))
    }

    lemma SentIsLive(before: PathLookup, after: PathLookup, n: int)
      requires Sent(before, after, n) && !before.finished
      ensures Live(S(), after) && !after.success
    {
    }

    /** IterativePathLookup::sendRpc */
    method PathSendRpc(p: nat, n: int, ghost rest: seq<RpcInfo>)
      requires Steady(rest) && p < |paths| && !paths[p].success
      requires config.strictParallelRpcs && !paths[p].finished ==> paths[p].pendingRpcs <= config.parallelRpcs
      modifies this`rpcs, this`paths, this`queried
      ensures Steady(rest) && WorkLeft() <= old(WorkLeft())
      ensures |paths| == |old(paths)| && paths == old(paths)[p := paths[p]]
      ensures Sent(old(paths[p]), paths[p], n)
      ensures NewQueries(p, old(paths[p].nextHops), old(queried), queried)
    {
      hide PathsOk, AllBooked, Work;
      if paths[p].finished {
        return;
      }
      if hopCountMax != 0 && paths[p].hops >= hopCountMax {
        Finish(p, false, rest);
        return;
      }
      var num := n;
      if config.strictParallelRpcs {
        num := if num < config.parallelRpcs - paths[p].pendingRpcs then num
               else config.parallelRpcs - paths[p].pendingRpcs;
      }
      if num == 0 && paths[p].pendingRpcs == 0 && !config.finishOnFirstUnchanged {
        num := config.parallelRpcs;
      }
      PendingIsCount(paths, rpcs, rest, p);
      QueryHops(p, num, rest);
      if paths[p].pendingRpcs == 0 {
        Finish(p, false, rest);
      }
    }

    /** The loop of IterativePathLookup::sendRpc: queries up to num hops. */
    method QueryHops(p: nat, n: int, ghost rest: seq<RpcInfo>)
      requires Steady(rest) && p < |paths| && !paths[p].finished
      requires config.strictParallelRpcs ==>
        paths[p].pendingRpcs <= config.parallelRpcs && (n > 0 ==> paths[p].pendingRpcs + n <= config.parallelRpcs)
      modifies this`rpcs, this`paths, this`queried
      ensures Steady(rest) && WorkLeft() <= old(WorkLeft())
      ensures |paths| == |old(paths)| && paths == old(paths)[p := paths[p]]
      ensures SameButHops(old(paths[p]), paths[p])
      ensures old(paths[p].pendingRpcs) <= paths[p].pendingRpcs
      ensures config.strictParallelRpcs ==> paths[p].pendingRpcs <= config.parallelRpcs
      ensures NewQueries(p, old(paths[p].nextHops), old(queried), queried)
      ensures n > 0 && paths[p].pendingRpcs == old(paths[p].pendingRpcs) ==>
              NoneUsable(paths[p].nextHops, config.redundantNodes)
      ensures var usable := CountUsable(old(paths[p].nextHops), Reach(old(paths[p].nextHops)));
              paths[p].pendingRpcs - old(paths[p].pendingRpcs) == if n <= 0 then 0 else if usable < n then usable else n
    {
      hide PathsOk, AllBooked, Work, Steady, WorkLeft, Register;
      ghost var was, seen := paths[p], queried;
      assert NewQueries(p, was.nextHops, seen, queried);
      var num := n;
      var i: nat := 0;
      QueriedNone(was, n);
      hide NewQueries, QueriedUpTo, Querying;
      while num > 0 && i < config.redundantNodes && i < |paths[p].nextHops|
        invariant Steady(rest) && WorkLeft() <= old(WorkLeft())
        invariant |paths| == |old(paths)| && paths == old(paths)[p := paths[p]]
        invariant QueriedUpTo(was, paths[p], i, n, num) && |paths[p].nextHops| == |was.nextHops|
        invariant NewQueries(p, was.nextHops, seen, queried)
        invariant !paths[p].finished
      {
        ghost var before := queried;
        QueriedNext(was, paths[p], i, n, num);
        if Usable(paths[p].nextHops[i]) {
          num := num - 1;
          Query(p, i, rest);
        }
        NewQueriesStep(p, was.nextHops, i, seen, before, queried);
        i := i + 1;
      }
      QueriedAll(was, paths[p], i, n, num);
    }

    /** The first i hops have been queried as far as they could be and n allowed; num is what is left of n. */
    ghost predicate QueriedUpTo(was: PathLookup, now: PathLookup, i: nat, n: int, num: int)
      reads this`dead, this`visited
    {
      && SameButHops(was, now) && |now.nextHops| == |was.nextHops| && i <= Reach(was.nextHops)
      && (forall j :: i <= j < |was.nextHops| ==> now.nextHops[j] == was.nextHops[j])
      && NoneUsable(now.nextHops, i)
      && (if n <= 0 then num == n else num >= 0 && n - num == CountUsable(was.nextHops, i))
      && n - num == now.pendingRpcs - was.pendingRpcs
    }

    lemma QueriedNone(was: PathLookup, n: int)
      ensures QueriedUpTo(was, was, 0, n, n)
    {
    }

    lemma QueriedNext(was: PathLookup, now: PathLookup, i: nat, n: int, num: int)
      requires QueriedUpTo(was, now, i, n, num) && num > 0 && i < config.redundantNodes && i < |now.nextHops|
      ensures i < |was.nextHops| && now.nextHops[i] == was.nextHops[i]
      ensures if Usable(now.nextHops[i]) then QueriedUpTo(was, Querying(now, i), i + 1, n, num - 1)
              else QueriedUpTo(was, now, i + 1, n, num)
      ensures |Querying(now, i).nextHops| == |now.nextHops| && Querying(now, i).finished == now.finished
    {
    }

    /** When the loop ends, num is used up, or the hops are. */
    lemma QueriedAll(was: PathLookup, now: PathLookup, i: nat, n: int, num: int)
      requires QueriedUpTo(was, now, i, n, num) && (num <= 0 || i >= config.redundantNodes || i >= |now.nextHops|)
      ensures SameButHops(was, now) && was.pendingRpcs <= now.pendingRpcs
      ensures n > 0 && now.pendingRpcs == was.pendingRpcs ==> NoneUsable(now.nextHops, config.redundantNodes)
      ensures var usable := CountUsable(was.nextHops, Reach(was.nextHops));
              now.pendingRpcs - was.pendingRpcs == if n <= 0 then 0 else if usable < n then usable else n
    {
      UsableGrows(was.nextHops, i, Reach(was.nextHops));
    }

    lemma NewQueriesStep(p: nat, hops: seq<LookupEntry>, i: nat, before: set<(nat, Key)>, middle: set<(nat, Key)>,
                         after: set<(nat, Key)>)
      requires NewQueries(p, hops, before, middle) && i < config.redundantNodes && i < |hops|
      requires after == middle || (Usable(hops[i]) && after == middle + {(p, hops[i].handle.key)})
      ensures NewQueries(p, hops, before, after)
    {
      assert Usable(hops[i]) ==> QueriedAt(hops, i, hops[i].handle.key);
    }

    lemma {:induction false} UsableGrows(hops: seq<LookupEntry>, m: nat, n: nat)
      requires m <= n <= |hops|
      ensures CountUsable(hops, m) <= CountUsable(hops, n)
      decreases n
    {
      if m < n {
        UsableGrows(hops, m, n - 1);
      }
    }

    /** How many of the first n hops may be queried. */
    ghost function CountUsable(hops: seq<LookupEntry>, n: nat): (count: nat)
      requires n <= |hops|
      reads this`dead, this`visited
      ensures count == 0 <==> NoneUsable(hops, n)
    {
      if n == 0 then 0 else CountUsable(hops, n - 1) + if Usable(hops[n - 1]) then 1 else 0
    }

    ghost function Reach(hops: seq<LookupEntry>): (n: nat)
      ensures n <= |hops| && n <= config.redundantNodes
    {
      if |hops| < config.redundantNodes then |hops| else config.redundantNodes
    }

    ghost predicate NoneUsable(hops: seq<LookupEntry>, n: nat)
      reads this`dead, this`visited
    {
      forall i: nat :: i < |hops| && i < n ==> !Usable(hops[i])
    }

    /** Marks an unfinished path as finished. */
    method Finish(p: nat, successful: bool, ghost rest: seq<RpcInfo>)
      requires Steady(rest) && p < |paths|
      modifies this`paths
      ensures Steady(rest)
      ensures paths == old(paths)[p := old(paths[p]).(finished := true, success := successful)]
    {
      UpdateKeepsPaths(S(), parallelPaths, paths, queried, p, paths[p].(finished := true, success := successful));
      paths := paths[p := paths[p].(finished := true, success := successful)];
    }

    // ----- siblings

    predicate Genuine(handle: NodeHandle, isAssured: bool)
      reads this`visited
    {
      !config.verifySiblings || isAssured || handle.addr in visited
    }

    /** addSibling: takes a genuine node in, pings another one that would still matter. */
    method AddSibling(handle: NodeHandle, isAssured: bool) returns (result: bool)
      requires SiblingsOk() && handle in universe
      modifies this`siblings, this`offered, this`assured, this`pinged, this`pendingPings
      ensures SiblingsOk() && PingsLeft() <= old(PingsLeft())
      ensures !isAssured ==> assured == old(assured)
      ensures !isAssured ==> SiblingState() == Offer(visited, TakesAll(), old(SiblingState()), handle)
      ensures if Genuine(handle, isAssured)
              then Taken(handle, isAssured, old(siblings), old(offered), old(assured), result)
                && pinged == old(pinged) && pendingPings == old(pendingPings)
              else siblings == old(siblings) && offered == old(offered) && assured == old(assured) && !result
      ensures !Genuine(handle, isAssured) ==>
                if IsAddable(SiblingConfig(MaxSiblings(), distance), siblings, handle) && handle.addr !in old(pinged)
                then pinged == old(pinged) + {handle.addr} && pendingPings != map[]
                else pinged == old(pinged) && pendingPings == old(pendingPings)
      ensures var unverified := config.verifySiblings && !isAssured && handle.addr !in visited;
              && (unverified ==> siblings == old(siblings))
              && (result <==> !unverified && IsTakenIn(old(siblings), handle))
              && (Pinged(handle.addr, old(pinged))
                  <==> unverified && handle.addr !in old(pinged) && HasPlace(old(siblings), handle))
    {
      hide *;
      GenuineIff(handle, isAssured);
      OfferedIs(handle);
      TakenInIf(handle);
      if config.verifySiblings && !isAssured && handle.addr !in visited {
        if IsAddable(SiblingConfig(MaxSiblings(), distance), siblings, handle) && handle.addr !in pinged {
          Ping(handle);
        }
        PingedIff(handle.addr, old(pinged));
        StateIs();
        return false;
      }
      result := TakeSibling(handle, isAssured);
      PingedIff(handle.addr, old(pinged));
      TakenMeans(handle, isAssured, old(siblings), old(offered), old(assured), result);
    }

    lemma GenuineIff(handle: NodeHandle, isAssured: bool)
      ensures Genuine(handle, isAssured) <==> !config.verifySiblings || isAssured || handle.addr in visited
    {
    }

    lemma OfferedIs(handle: NodeHandle)
      ensures Offer(visited, TakesAll(), SiblingState(), handle) ==
              if !config.verifySiblings || handle.addr in visited
              then Siblings(WithSibling(TakesAll(), siblings, handle).0, offered + [handle], pinged)
              else Siblings(siblings, offered,
                            if IsAddable(SiblingConfig(MaxSiblings(), distance), siblings, handle)
                               && handle.addr !in pinged
                            then pinged + {handle.addr} else pinged)
    {
    }

    lemma StateIs()
      ensures SiblingState() == Siblings(siblings, offered, pinged)
    {
    }

    /** The address has been pinged, and had not been before. */
    ghost predicate Pinged(addr: Addr, before: set<Addr>)
      reads this`pinged
    {
      addr in pinged && addr !in before
    }

    lemma PingedIff(addr: Addr, before: set<Addr>)
      ensures Pinged(addr, before) <==> addr in pinged && addr !in before
    {
    }

    lemma TakenMeans(handle: NodeHandle, isAssured: bool, known: seq<NodeHandle>, was: seq<NodeHandle>,
                     trusted: set<NodeHandle>, result: bool)
      requires Taken(handle, isAssured, known, was, trusted, result)
      ensures (siblings, result) == WithSibling(TakesAll(), known, handle)
      ensures SiblingState() == Siblings(WithSibling(TakesAll(), known, handle).0, was + [handle], pinged)
      ensures assured == trusted + (if isAssured then {handle} else {})
    {
    }

    /** Room among the siblings, or a distance no larger than that of the last one. */
    ghost predicate HasPlace(known: seq<NodeHandle>, handle: NodeHandle) {
      known == [] || |known| < numSiblings || distance(handle.key) <= distance(known[|known| - 1].key)
    }

    /** Which nodes addSibling answers true for: the one looked for; every node that is taken as it comes; or one with a
        new key, for which there is room or which is no farther than the last sibling. */
    ghost predicate IsTakenIn(known: seq<NodeHandle>, handle: NodeHandle)
      reads this`parallelPaths
    {
      if numSiblings == 0 then handle.key == key
      else if config.verifySiblings || parallelPaths != 1 then
        (forall h :: h in known ==> h.key != handle.key)
        && (|known| < numSiblings || distance(handle.key) <= distance(known[|known| - 1].key))
      else true
    }

    lemma TakenInIf(handle: NodeHandle)
      requires SiblingsOk()
      ensures WithSibling(TakesAll(), siblings, handle).1 <==> IsTakenIn(siblings, handle)
      ensures IsAddable(SiblingConfig(MaxSiblings(), distance), siblings, handle) <==> HasPlace(siblings, handle)
    {
      KeyAddableIff(MaxSiblings(), (h: NodeHandle) => h.key, distance, siblings, handle);
      if numSiblings != 0 && !TakesAll() {
        TakenIfClose(siblings, handle);
      }
      hide AddTo, IsAddable, Zoned;
    }

    lemma TakenIfClose(known: seq<NodeHandle>, handle: NodeHandle)
      requires numSiblings > 0 && Zoned(SiblingConfig(numSiblings, distance), known)
      ensures WithSibling(false, known, handle).1
              <==> (forall h :: h in known ==> h.key != handle.key)
                   && (|known| < numSiblings || distance(handle.key) <= distance(known[|known| - 1].key))
    {
      var key := (h: NodeHandle) => h.key;
      KeyRefusedIff(numSiblings, key, distance, known, handle);
      KeyOfferable(numSiblings, key, distance, known, handle);
      ReturnedPosition(SiblingConfig(numSiblings, distance), known, handle);
      hide AddTo, IsAddable;
    }

    /** The siblings when a genuine node is added, and whether it is taken in: the node itself if only the key is looked
        for, the first ones if they are taken as they come, and otherwise the closest ones. */
    ghost function WithSibling(takesAll: bool, known: seq<NodeHandle>, handle: NodeHandle)
        : (r: (seq<NodeHandle>, bool))
    {
      if numSiblings == 0 then
        if handle.key == key then ([handle], true) else (known, false)
      else if takesAll then
        (if |known| != numSiblings then known + [handle] else known, true)
      else if Zoned(SiblingConfig(numSiblings, distance), known) then
        KeyOfferable(numSiblings, (h: NodeHandle) => h.key, distance, known, handle);
        var r := AddTo(SiblingConfig(numSiblings, distance), known, handle);
        (r.elems, r.pos >= 0)
      else
        (known, false)
    }

    ghost function SiblingState(): Siblings
      reads this`siblings, this`offered, this`pinged
    {
      Siblings(siblings, offered, pinged)
    }

    ghost function Standings(): Standing
      reads this`visited, this`dead, this`pinged, this`assured, this`siblings, this`offered, this`parallelPaths
    {
      Standing(visited, dead, pinged, assured, siblings, offered, parallelPaths)
    }

    /** What addSibling makes of a node that is not assured. */
    ghost function Offer(visited: set<Addr>, takesAll: bool, s: Siblings, handle: NodeHandle): Siblings {
      if !config.verifySiblings || handle.addr in visited then
        Siblings(WithSibling(takesAll, s.found, handle).0, s.offered + [handle], s.pinged)
      else if IsAddable(SiblingConfig(MaxSiblings(), distance), s.found, handle) && handle.addr !in s.pinged then
        Siblings(s.found, s.offered, s.pinged + {handle.addr})
      else
        s
    }

    ghost function OfferAll(visited: set<Addr>, takesAll: bool, s: Siblings, nodes: seq<NodeHandle>): Siblings {
      if nodes == [] then s
      else Offer(visited, takesAll, OfferAll(visited, takesAll, s, nodes[..|nodes| - 1]), nodes[|nodes| - 1])
    }

    /** The nodes that count as siblings without a ping. */
    ghost function Genuines(visited: set<Addr>, nodes: seq<NodeHandle>): seq<NodeHandle> {
      if nodes == [] then []
      else
        var last := nodes[|nodes| - 1];
        Genuines(visited, nodes[..|nodes| - 1]) + if !config.verifySiblings || last.addr in visited then [last] else []
    }

    lemma {:induction false} GenuinesAreOffered(visited: set<Addr>, takesAll: bool, s: Siblings, nodes: seq<NodeHandle>)
      ensures OfferAll(visited, takesAll, s, nodes).offered == s.offered + Genuines(visited, nodes)
    {
      if nodes != [] {
        GenuinesAreOffered(visited, takesAll, s, nodes[..|nodes| - 1]);
      }
    }

    lemma {:induction false} AllGenuine(visited: set<Addr>, nodes: seq<NodeHandle>)
      requires !config.verifySiblings
      ensures Genuines(visited, nodes) == nodes
    {
      if nodes != [] {
        AllGenuine(visited, nodes[..|nodes| - 1]);
      }
    }

    /** Nothing offered is forgotten, and without verification a response that ends a path brings what is looked for. */
    lemma AnswerIsFound(visited: set<Addr>, takesAll: bool, s: Siblings, msg: FindNodeResponse)
      ensures var after := OfferAll(visited, takesAll, s, Named(msg)).offered;
              (Found(s.offered) ==> Found(after)) && (!config.verifySiblings && Answers(msg) ==> Found(after))
    {
      GenuinesAreOffered(visited, takesAll, s, Named(msg));
      if !config.verifySiblings {
        AllGenuine(visited, Named(msg));
      }
      if numSiblings == 0 && Found(s.offered) {
        var h :| h in s.offered && h.key == key;
        assert h in s.offered + Genuines(visited, Named(msg));
      }
      if numSiblings == 0 && !config.verifySiblings && Answers(msg) {
        assert Named(msg)[0] in s.offered + Named(msg);
      }
    }

    lemma OfferNext(visited: set<Addr>, takesAll: bool, s: Siblings, nodes: seq<NodeHandle>, i: nat)
      requires i < |nodes|
      ensures OfferAll(visited, takesAll, s, nodes[..i + 1])
              == Offer(visited, takesAll, OfferAll(visited, takesAll, s, nodes[..i]), nodes[i])
    {
      assert nodes[..i + 1][..i] == nodes[..i];
    }

    /** The nodes of a response that go to addSibling: the node looked for, or all nodes that a sibling names. */
    function Named(msg: FindNodeResponse): seq<NodeHandle> {
      if numSiblings == 0 then FirstWithKey(msg.closestNodes) else if msg.siblings then msg.closestNodes else []
    }

    function FirstWithKey(nodes: seq<NodeHandle>): (r: seq<NodeHandle>)
      ensures r == [] <==> forall h :: h in nodes ==> h.key != key
      ensures |r| <= 1 && forall h :: h in r ==> h in nodes && h.key == key
    {
      if nodes == [] then [] else if nodes[0].key == key then [nodes[0]] else FirstWithKey(nodes[1..])
    }

    /** The addresses met and the nodes offered after one more event of an attempt: a path that takes a response meets
        its sender and offers the genuine nodes named, and an answered ping offers its sender. */
    ghost function MetAfter(visited: set<Addr>, inserted: seq<NodeHandle>, event: Event): (set<Addr>, seq<NodeHandle>) {
      match event
      case Answered(msg, _, Some(_)) =>
        var met := visited + {msg.src.addr};
        (met, inserted + Genuines(met, Named(msg)))
      case PingAnswered(handle) => (visited, inserted + [handle])
      case _ => (visited, inserted)
    }

    /** The same after all events of an attempt so far. */
    ghost function Met(inserted: seq<NodeHandle>, events: seq<Event>): (set<Addr>, seq<NodeHandle>) {
      if events == [] then ({thisNode.addr}, inserted)
      else
        var before := Met(inserted, events[..|events| - 1]);
        MetAfter(before.0, before.1, events[|events| - 1])
    }

    /** The siblings are what a lookup has to find among the nodes inserted: the node itself if only the key is looked
        for, the first ones if they are taken as they come, and otherwise the closest ones. */
    ghost predicate ResultOf(inserted: seq<NodeHandle>)
      reads this`siblings, this`parallelPaths
    {
      if numSiblings == 0 then
        |siblings| <= 1 && (forall h :: h in siblings ==> h.key == key && h in inserted)
        && (siblings == [] ==> forall h :: h in inserted ==> h.key != key)
      else if TakesAll() then
        siblings == inserted[..if |inserted| < numSiblings then |inserted| else numSiblings]
      else
        Closest(numSiblings, distance, siblings, inserted)
    }

    lemma ResultIsOfOffered()
      requires SiblingsOk()
      ensures ResultOf(offered)
    {
      if numSiblings != 0 && !TakesAll() {
        BestIsClosest(numSiblings, distance, siblings, offered);
      }
    }

    lemma NamedAre(msg: FindNodeResponse)
      ensures numSiblings > 0 && msg.siblings ==> Named(msg) == msg.closestNodes
      ensures numSiblings > 0 && !msg.siblings ==> Named(msg) == []
      ensures numSiblings == 0 && (forall h :: h in msg.closestNodes ==> h.key != key) ==> Named(msg) == []
      ensures numSiblings == 0 && (exists h :: h in msg.closestNodes && h.key == key) ==>
                |Named(msg)| == 1 && Named(msg)[0] in msg.closestNodes && Named(msg)[0].key == key
    {
    }

    lemma {:induction false} FirstIsAt(nodes: seq<NodeHandle>, i: nat)
      requires i < |nodes| && nodes[i].key == key && forall j :: 0 <= j < i ==> nodes[j].key != key
      ensures FirstWithKey(nodes) == [nodes[i]]
    {
      if i > 0 {
        FirstIsAt(nodes[1..], i - 1);
      }
    }

    /** The handle has been added, as far as it counts. */
    ghost predicate Taken(handle: NodeHandle, isAssured: bool, oldSiblings: seq<NodeHandle>,
                          oldOffered: seq<NodeHandle>, oldAssured: set<NodeHandle>, result: bool)
      reads this`siblings, this`offered, this`assured, this`parallelPaths
    {
      && (siblings, result) == WithSibling(TakesAll(), oldSiblings, handle)
      && offered == oldOffered + [handle]
      && assured == oldAssured + (if isAssured then {handle} else {})
    }

    method TakeSibling(handle: NodeHandle, isAssured: bool) returns (result: bool)
      requires SiblingsOk() && handle in universe && Genuine(handle, isAssured)
      modifies this`siblings, this`offered, this`assured
      ensures SiblingsOk()
      ensures Taken(handle, isAssured, old(siblings), old(offered), old(assured), result)
    {
      hide AddTo, Offerable;
      offered := offered + [handle];
      assured := assured + (if isAssured then {handle} else {});
      result := false;
      if numSiblings == 0 {
        if handle.key == key {
          siblings := [handle];
          result := true;
        }
      } else if TakesAll() {
        result := true;
        if |siblings| != numSiblings {
          siblings := siblings + [handle];
        }
      } else {
        AddSiblingKeepsBest(numSiblings, distance, siblings, old(offered), handle);
        var r := AddTo(SiblingConfig(numSiblings, distance), siblings, handle);
        siblings := r.elems;
        result := r.pos >= 0;
      }
    }

    lemma AddrKnown(handle: NodeHandle)
      requires handle in universe
      ensures handle.addr in AllAddrs()
    {
    }

    /** Sends a ping under a random id. An id already in use leaves its entry as it is. */
    method Ping(handle: NodeHandle)
      requires handle in universe && handle.addr !in pinged
      modifies this`pinged, this`pendingPings
      ensures PingsLeft() < old(PingsLeft())
      ensures pinged == old(pinged) + {handle.addr}
      ensures pendingPings != map[]
    {
      hide AllAddrs;
      var id: nat :| 1 <= id <= 0x7FFF_FFFF;
      if id !in pendingPings {
        pendingPings := pendingPings[id := handle.addr];
      }
      assert id in pendingPings;
      assert handle.addr in AllAddrs() - pinged by { AddrKnown(handle); }
      assert AllAddrs() - (pinged + {handle.addr}) == (AllAddrs() - pinged) - {handle.addr};
      assert pendingPings.Keys == old(pendingPings).Keys + {id};
      pinged := pinged + {handle.addr};
    }

    // ----- paths handling answers

    ghost predicate Handling(info: RpcInfo, rest: seq<RpcInfo>)
      reads this`parallelPaths, this`paths, this`queried, this`rpcs, this`running, this`finished
    {
      && Steady([info] + rest) && info.path < |paths| && Live(S(), paths[info.path])
    }

    /** What handling an answer may do to the paths: only path p changes, and it stays live. */
    ghost predicate HandledPath(p: nat, before: seq<PathLookup>)
      reads this`paths
    {
      && p < |before| == |paths| && paths == before[p := paths[p]]
      && Live(S(), paths[p])
      && (before[p].finished ==> paths[p] == before[p])
    }

    ghost predicate HopsZoned(path: PathLookup) {
      Zoned(HopsConfig(config.redundantNodes, distance), path.nextHops)
    }

    method PathAdd(p: nat, handle: NodeHandle, source: Option<NodeHandle>, ghost rest: seq<RpcInfo>) returns (pos: int)
      requires Steady(rest) && p < |paths| && handle in universe
      modifies this`paths
      ensures Steady(rest) && |paths| == |old(paths)|
      ensures paths == old(paths)[p := WithHops(old(paths[p]), paths[p].nextHops)]
      ensures HopsZoned(old(paths[p]))
      ensures var r := Adding(config.redundantNodes, distance, old(paths[p].nextHops), handle, source);
              paths[p].nextHops == r.elems && pos == r.pos
    {
      hide AllBooked, PathOk;
      HopsAreZoned(S(), parallelPaths, paths, queried, p);
      AddKeepsPath(S(), paths[p], Used(queried, p), handle, source);
      var r := Adding(config.redundantNodes, distance, paths[p].nextHops, handle, source);
      var path := paths[p].(nextHops := r.elems);
      UpdateKeepsPaths(S(), parallelPaths, paths, queried, p, path);
      UpdateKeepsBooked(paths, rpcs, rest, p, path);
      paths := paths[p := path];
      pos := r.pos;
    }

    /** Does this response end the path with success? */
    ghost predicate Answers(msg: FindNodeResponse) {
      if numSiblings == 0 then exists h :: h in msg.closestNodes && h.key == key
      else msg.siblings && msg.closestNodes != []
    }

    /** The path when an answer has come in: one hop and one step further, unless the node asked itself. */
    function Answered(path: PathLookup, msg: FindNodeResponse): PathLookup {
      path.(hops := path.hops + (if thisNode != msg.src then 1 else 0), step := path.step + 1,
            pendingRpcs := path.pendingRpcs - 1)
    }

    /** IterativePathLookup::handleResponse; `late` says that LOOKUP_TIMEOUT has passed. */
    method PathHandleResponse(p: nat, msg: FindNodeResponse, late: bool, ghost info: RpcInfo, ghost rest: seq<RpcInfo>)
      requires Handling(info, rest) && info.path == p && SiblingsOk()
      requires forall h :: h in msg.closestNodes ==> h in universe
      modifies this`paths, this`rpcs, this`queried, this`visited, this`siblings, this`offered, this`assured,
        this`pinged, this`pendingPings
      ensures Steady(rest) && SiblingsOk() && HandledPath(p, old(paths))
      ensures WorkLeft() <= old(WorkLeft()) && PingsLeft() <= old(PingsLeft())
      ensures assured == old(assured)
      ensures visited == old(visited) + (if old(paths[p]).finished || late then {} else {msg.src.addr})
      ensures !old(paths[p]).finished && !late ==>
        && paths[p].step == old(paths[p]).step + 1
        && paths[p].hops == old(paths[p]).hops + (if thisNode != msg.src then 1 else 0)
      ensures !old(paths[p]).finished && late ==> paths[p] == old(paths[p]).(finished := true, success := false)
      ensures !old(paths[p]).finished ==> (paths[p].success <==> !late && Answers(msg))
      ensures SiblingState() == if old(paths[p]).finished || late then old(SiblingState())
                                else OfferAll(visited, TakesAll(), old(SiblingState()), Named(msg))
      ensures HopsZoned(old(paths[p]))
      ensures !old(paths[p]).finished && !late && !Answers(msg) ==>
              Proceeded(Answered(old(paths[p]), msg), paths[p], msg)
    {
      hide PathsOk, AllBooked, Work, SiblingsOk, PingsLeft, NewQueries, Proceeded, Zoned, OfferAll, Named;
      SuccessIsFinished(S(), parallelPaths, paths, queried, p);
      HopsAreZoned(S(), parallelPaths, paths, queried, p);
      if paths[p].finished {
        TakeInfo(paths, rpcs, info, rest, paths[p]);
        assert paths[p := paths[p]] == paths;
        return;
      }
      if late {
        TakeAnswer(p, paths[p].(finished := true, success := false), info, rest);
        return;
      }
      var path := paths[p];
      if thisNode != msg.src {
        path := path.(hops := path.hops + 1);
      }
      MarkVisited(msg.src.addr);
      path := path.(step := path.step + 1, pendingRpcs := path.pendingRpcs - 1);
      TakeAnswer(p, path, info, rest);
      UseResponse(p, msg, rest);
    }

    /** A response that does not end the path: its nodes become next hops, and as many RPCs go out as it
        has brought new hops, or one if the configuration wants it. */
    ghost predicate Proceeded(before: PathLookup, after: PathLookup, msg: FindNodeResponse)
      reads this`dead, this`visited
      requires HopsZoned(before)
    {
      var hops := AddedHops(config.redundantNodes, distance, before.nextHops, msg.closestNodes, Some(msg.src));
      var found := NewHops(config.redundantNodes, distance, before.nextHops, msg.closestNodes, Some(msg.src));
      var wanted := if found == 0 && config.newRpcOnEveryResponse then 1 else found;
      Sent(before.(nextHops := hops), after, if wanted < config.parallelRpcs then wanted else config.parallelRpcs)
    }

    /** The second half of handleResponse, for a response that counts. */
    method UseResponse(p: nat, msg: FindNodeResponse, ghost rest: seq<RpcInfo>)
      requires Steady(rest) && p < |paths| && !paths[p].finished && !paths[p].success && SiblingsOk()
      requires config.strictParallelRpcs ==> paths[p].pendingRpcs <= config.parallelRpcs
      requires forall h :: h in msg.closestNodes ==> h in universe
      modifies this`paths, this`rpcs, this`queried, this`siblings, this`offered, this`assured, this`pinged,
        this`pendingPings
      ensures Steady(rest) && SiblingsOk() && HandledPath(p, old(paths))
      ensures WorkLeft() <= old(WorkLeft()) && PingsLeft() <= old(PingsLeft()) && assured == old(assured)
      ensures paths[p].step == old(paths[p]).step && paths[p].hops == old(paths[p]).hops
      ensures paths[p].success <==> Answers(msg)
      ensures SiblingState() == OfferAll(visited, TakesAll(), old(SiblingState()), Named(msg))
      ensures HopsZoned(old(paths[p])) && (!Answers(msg) ==> Proceeded(old(paths[p]), paths[p], msg))
    {
      hide PathsOk, AllBooked, Work, SiblingsOk, PingsLeft, NewQueries, Queries, GivesUp, Zoned, AddedHops, NewHops,
        OfferAll, Named;
      var numNewRpcs := AddClosestNodes(p, msg, rest);
      if paths[p].finished {
        return;
      }
      if msg.siblings && |msg.closestNodes| != 0 && numSiblings != 0 {
        Finish(p, true, rest);
        return;
      }
      if numNewRpcs == 0 && config.newRpcOnEveryResponse {
        numNewRpcs := 1;
      }
      PathSendRpc(p, if numNewRpcs < config.parallelRpcs then numNewRpcs else config.parallelRpcs, rest);
    }

    method MarkVisited(addr: Addr)
      requires SiblingsOk()
      modifies this`visited
      ensures SiblingsOk() && visited == old(visited) + {addr}
    {
      visited := visited + {addr};
    }

    /** The answer is no longer waited for, and the path changes accordingly. */
    method TakeAnswer(p: nat, path: PathLookup, ghost info: RpcInfo, ghost rest: seq<RpcInfo>)
      requires Handling(info, rest) && info.path == p && !paths[p].finished
      requires path.nextHops == paths[p].nextHops && !path.success
      requires (path.finished || path.pendingRpcs == paths[p].pendingRpcs - 1) && path.step >= paths[p].step
      modifies this`paths
      ensures Steady(rest) && paths == old(paths)[p := path]
    {
      hide AllBooked;
      TakeInfo(paths, rpcs, info, rest, path);
      HopsAreZoned(S(), parallelPaths, paths, queried, p);
      UpdateKeepsPaths(S(), parallelPaths, paths, queried, p, path);
      paths := paths[p := path];
    }

    /** The loop of handleResponse: the nodes named become next hops and, as the response demands, siblings. */
    method AddClosestNodes(p: nat, msg: FindNodeResponse, ghost rest: seq<RpcInfo>) returns (numNewRpcs: nat)
      requires Steady(rest) && p < |paths| && !paths[p].finished && !paths[p].success && SiblingsOk()
      requires forall h :: h in msg.closestNodes ==> h in universe
      modifies this`paths, this`siblings, this`offered, this`assured, this`pinged, this`pendingPings
      ensures Steady(rest) && SiblingsOk() && PingsLeft() <= old(PingsLeft()) && assured == old(assured)
      ensures |paths| == |old(paths)|
      ensures paths == old(paths)[p := old(paths[p]).(
                nextHops := paths[p].nextHops, finished := paths[p].finished, success := paths[p].success)]
      ensures paths[p].finished == paths[p].success
      ensures HopsZoned(old(paths[p]))
      ensures !paths[p].finished ==>
        && paths[p].nextHops
            == AddedHops(config.redundantNodes, distance, old(paths[p].nextHops), msg.closestNodes, Some(msg.src))
        && numNewRpcs
            == NewHops(config.redundantNodes, distance, old(paths[p].nextHops), msg.closestNodes, Some(msg.src))
      ensures paths[p].finished <==> numSiblings == 0 && exists h :: h in msg.closestNodes && h.key == key
      ensures SiblingState() == OfferAll(visited, TakesAll(), old(SiblingState()), Named(msg))
    {
      hide PathsOk, AllBooked, SiblingsOk, PingsLeft, Taken, Zoned, Adding, Genuine, Offer;
      ghost var s := SiblingState();
      assert OfferAll(visited, TakesAll(), s, msg.closestNodes[..0]) == s;
      HopsAreZoned(S(), parallelPaths, paths, queried, p);
      ghost var hops := paths[p].nextHops;
      assert AddedHops(config.redundantNodes, distance, hops, msg.closestNodes[..0], Some(msg.src)) == hops;
      assert NewHops(config.redundantNodes, distance, hops, msg.closestNodes[..0], Some(msg.src)) == 0;
      hide AddedHops, NewHops, OfferAll, Named, WithSibling, Offerable, Best;
      numNewRpcs := 0;
      for i := 0 to |msg.closestNodes|
        invariant Steady(rest) && SiblingsOk() && PingsLeft() <= old(PingsLeft()) && assured == old(assured)
        invariant |paths| == |old(paths)|
        invariant paths == old(paths)[p := old(paths[p]).(nextHops := paths[p].nextHops)]
        invariant paths[p].nextHops
            == AddedHops(config.redundantNodes, distance, hops, msg.closestNodes[..i], Some(msg.src))
        invariant numNewRpcs == NewHops(config.redundantNodes, distance, hops, msg.closestNodes[..i], Some(msg.src))
        invariant numSiblings == 0 ==> forall j :: 0 <= j < i ==> msg.closestNodes[j].key != key
        invariant SiblingState() == if numSiblings != 0 && msg.siblings
                                    then OfferAll(visited, TakesAll(), s, msg.closestNodes[..i]) else s
      {
        OfferNext(visited, TakesAll(), s, msg.closestNodes, i);
        AddedHopsStep(config.redundantNodes, distance, hops, msg.closestNodes, i, Some(msg.src));
        var counts, found := AddClosestNode(p, msg, msg.closestNodes[i], rest);
        if counts {
          numNewRpcs := numNewRpcs + 1;
        }
        if found {
          FoundAt(msg, visited, TakesAll(), s, i);
          return;
        }
      }
      NowhereFound(msg, visited, TakesAll(), s);
    }

    lemma FoundAt(msg: FindNodeResponse, visited: set<Addr>, takesAll: bool, s: Siblings, i: nat)
      requires numSiblings == 0 && i < |msg.closestNodes| && msg.closestNodes[i].key == key
      requires forall j :: 0 <= j < i ==> msg.closestNodes[j].key != key
      ensures OfferAll(visited, takesAll, s, Named(msg)) == Offer(visited, takesAll, s, msg.closestNodes[i])
    {
      FirstIsAt(msg.closestNodes, i);
      assert Named(msg)[..0] == [] && OfferAll(visited, takesAll, s, []) == s;
    }

    lemma NowhereFound(msg: FindNodeResponse, visited: set<Addr>, takesAll: bool, s: Siblings)
      requires numSiblings == 0 ==> forall h :: h in msg.closestNodes ==> h.key != key
      ensures OfferAll(visited, takesAll, s, Named(msg)) ==
              if numSiblings != 0 && msg.siblings then OfferAll(visited, takesAll, s, msg.closestNodes) else s
      ensures msg.closestNodes[..|msg.closestNodes|] == msg.closestNodes
    {
    }

    /** One node of a response: does it count as a new hop, and is it the node looked for? */
    method AddClosestNode(p: nat, msg: FindNodeResponse, handle: NodeHandle, ghost rest: seq<RpcInfo>)
      returns (counts: bool, found: bool)
      requires Steady(rest) && p < |paths| && !paths[p].finished && !paths[p].success && SiblingsOk()
      requires handle in universe
      modifies this`paths, this`siblings, this`offered, this`assured, this`pinged, this`pendingPings
      ensures Steady(rest) && SiblingsOk() && PingsLeft() <= old(PingsLeft()) && assured == old(assured)
      ensures HopsZoned(old(paths[p])) && |paths| == |old(paths)|
      ensures var r := Adding(config.redundantNodes, distance, old(paths[p].nextHops), handle, Some(msg.src));
              && paths == old(paths)[p := old(paths[p]).(nextHops := r.elems, finished := found, success := found)]
              && (counts <==> 0 <= r.pos < config.redundantNodes)
      ensures found <==> numSiblings == 0 && handle.key == key
      ensures SiblingState() == if found || (numSiblings != 0 && msg.siblings)
                                then Offer(visited, TakesAll(), old(SiblingState()), handle) else old(SiblingState())
    {
      hide PathsOk, AllBooked, SiblingsOk, PingsLeft, Taken, Zoned, Adding, Offer;
      var pos := PathAdd(p, handle, Some(msg.src), rest);
      counts := pos >= 0 && pos < config.redundantNodes;
      found := numSiblings == 0 && handle.key == key;
      if found {
        var _ := AddSibling(handle, false);
        Finish(p, true, rest);
      } else if numSiblings != 0 && msg.siblings {
        var _ := AddSibling(handle, false);
      }
    }

    /** IterativePathLookup::handleTimeout, also called for an answer that the path does not accept. */
    method PathHandleTimeout(p: nat, late: bool, ghost info: RpcInfo, ghost rest: seq<RpcInfo>)
      requires Handling(info, rest) && info.path == p
      modifies this`paths, this`rpcs, this`queried
      ensures Steady(rest) && HandledPath(p, old(paths)) && WorkLeft() <= old(WorkLeft())
      ensures paths[p].success == old(paths[p]).success
      ensures paths[p].step == old(paths[p]).step && paths[p].hops == old(paths[p]).hops
      ensures late && !old(paths[p]).finished ==>
        paths[p] == old(paths[p]).(pendingRpcs := old(paths[p]).pendingRpcs - 1, finished := true, success := false)
      ensures !late && !old(paths[p]).finished ==>
        var path := old(paths[p]).(pendingRpcs := old(paths[p]).pendingRpcs - 1);
        if config.newRpcOnEveryTimeout then Sent(path, paths[p], 1)
        else if path.pendingRpcs == 0 then Sent(path, paths[p], config.parallelRpcs)
        else paths[p] == path
    {
      hide PathsOk, AllBooked, Work, Queries, GivesUp;
      SuccessIsFinished(S(), parallelPaths, paths, queried, p);
      if paths[p].finished {
        TakeInfo(paths, rpcs, info, rest, paths[p]);
        assert paths[p := paths[p]] == paths;
        return;
      }
      if late {
        TakeAnswer(p, paths[p].(pendingRpcs := paths[p].pendingRpcs - 1, finished := true, success := false), info,
                   rest);
        return;
      }
      TakeAnswer(p, paths[p].(pendingRpcs := paths[p].pendingRpcs - 1), info, rest);
      PendingIsCount(paths, rpcs, rest, p);
      // sendNewRpcAfterTimeout
      if config.newRpcOnEveryTimeout {
        PathSendRpc(p, 1, rest);
      } else if paths[p].pendingRpcs == 0 {
        PathSendRpc(p, config.parallelRpcs, rest);
      }
    }

    // ----- between events

    /** Every finished path is counted once: when an event finishes it, or when it is created. */
    ghost predicate CountersOk()
      reads this`paths, this`finishedPaths, this`successfulPaths, this`startFinished, this`parallelPaths, this`retries
    {
      Counts(paths, finishedPaths, successfulPaths, startFinished) && startFinished == IdlePaths()
    }

    /** How many paths of this attempt had nobody to ask when they were created. */
    ghost function IdlePaths(): nat
      reads this`parallelPaths, this`retries
    {
      if parallelPaths == 0 then 0 else CountIdle(local(retries).nextHops, parallelPaths, parallelPaths)
    }

    /** The node's own answer settles the lookup: it knows nobody, or is a sibling. */
    predicate Settles()
      reads this`retries
    {
      local(retries).nextHops == [] || local(retries).isSibling
    }

    /** Without verification, a successful path has found a sibling. */
    ghost predicate Grounded()
      reads this`successfulPaths, this`offered
    {
      !config.verifySiblings && successfulPaths >= 1 ==> Found(offered)
    }

    /** The nodes offered settle what the siblings are for. */
    ghost predicate Found(nodes: seq<NodeHandle>) {
      if numSiblings == 0 then exists h :: h in nodes && h.key == key else nodes != []
    }

    lemma FoundMeansSome()
      requires SiblingsOk()
      ensures Found(offered) ==> siblings != []
      ensures offered == [] ==> siblings == []
    {
      assert offered != [] ==> offered[0] in offered;
      assert siblings != [] ==> siblings[0] in siblings;
    }

    ghost predicate AllLive()
      reads this`paths
    {
      forall p: nat :: p < |paths| ==> Live(S(), paths[p])
    }

    /** Nothing outside the universe is ever named locally. */
    ghost predicate LocalOk() {
      thisNode in universe && forall r: nat, h :: h in local(r).nextHops ==> h in universe
    }

    /** The lookup goes on, and nobody has been told anything. */
    ghost predicate Open()
      reads this`deleted, this`listener, this`notifications, this`starts, this`retries, this`allowed
    {
      && !deleted && listener && notifications == 0 && LocalOk()
      && starts + retries == allowed + 1
    }

    /** What holds in the middle of an event, while `rest` is still to be handled. */
    ghost predicate Midway(rest: seq<RpcInfo>)
      reads this
    {
      && Open() && !success && |paths| == parallelPaths
      && Steady(rest) && AllLive() && SiblingsOk() && CountersOk() && Grounded()
    }

    /** What holds while a lookup runs, with or without something to wait for. */
    ghost predicate InProgress()
      reads this
    {
      Midway([])
    }

    /** Between two events: some answer is due. */
    ghost predicate Waiting()
      reads this
    {
      !deleted && InProgress() && (rpcs != map[] || pendingPings != map[])
    }

    /** The lookup is over: the listener has been called once, and nothing is due any more. */
    ghost predicate Ended()
      reads this
    {
      && deleted && finished && !running && notifications == 1
      && rpcs == map[] && pendingPings == map[] && paths == []
      && SiblingsOk() && (success && !config.verifySiblings ==> siblings != [])
      && starts + retries == allowed + 1
      && (success || retries == 0 || Settles())
      && (!Settles() ==> FinalCount())
    }

    /** In the end the counter has missed exactly the paths that had nobody to ask from the beginning. */
    ghost predicate FinalCount()
      reads this`finishedPaths, this`successfulPaths, this`parallelPaths, this`retries
    {
      && successfulPaths <= finishedPaths
      && (numSiblings > 0 || successfulPaths == 0 ==> finishedPaths + IdlePaths() == parallelPaths)
    }

    /** Some path has succeeded; or the lookup is over, with success. */
    ghost predicate Succeeds()
      reads this`deleted, this`success, this`paths
    {
      if deleted then success else AnySuccess(paths)
    }

    ghost predicate Valid()
      reads this
    {
      Waiting() || Ended()
    }

    /** The stop rule of checkStop. */
    predicate ShouldStop()
      reads this`successfulPaths, this`siblings, this`finishedPaths, this`parallelPaths, this`pendingPings, this`rpcs
    {
      || (successfulPaths >= 1 && numSiblings == 0 && |siblings| >= 1)
      || (finishedPaths == parallelPaths && numSiblings > 0 && pendingPings == map[])
      || (rpcs == map[] && pendingPings == map[])
    }

    /** When the rule stops a lookup for siblings, every path has finished; the counter alone may miss
        that, exactly if some path had nobody to ask when it was created. */
    lemma StopMeansFinished()
      requires InProgress()
      ensures ShouldStop() && (numSiblings > 0 || successfulPaths == 0) ==>
        forall p: nat :: p < |paths| ==> paths[p].finished
      ensures (forall p: nat :: p < |paths| ==> paths[p].finished) ==>
        finishedPaths + startFinished == parallelPaths
        && (finishedPaths < parallelPaths <==>
              exists p: nat :: p < parallelPaths && NobodyToAsk(local(retries).nextHops, p, parallelPaths))
      ensures successfulPaths <= finishedPaths <= finishedPaths + startFinished <= parallelPaths
    {
      forall path | path in paths
        ensures path.success ==> path.finished
      {
        var p: nat :| p < |paths| && paths[p] == path;
        SuccessIsFinished(S(), parallelPaths, paths, queried, p);
      }
      CountBound(paths);
      if parallelPaths > 0 {
        SomeIdle(local(retries).nextHops, parallelPaths, parallelPaths);
      }
      if rpcs == map[] {
        NoRpcsAllFinished(S(), paths, rpcs);
      }
    }

    /** The rule in plain terms: nothing is due any more; or a path has succeeded and the node looked for is found; or,
        if siblings are looked for, no ping is out and every path, none of which had nobody to ask when it was created,
        has finished. */
    lemma ShouldStopIff()
      requires InProgress()
      ensures ShouldStop()
              <==> || (rpcs == map[] && pendingPings == map[])
                   || (numSiblings == 0 && siblings != [] && exists path :: path in paths && path.success)
                   || (numSiblings > 0 && pendingPings == map[] && IdlePaths() == 0
                       && forall path :: path in paths ==> path.finished)
    {
      SuccessIsCounted();
      StopMeansFinished();
      hide IdlePaths;
      CountBound(paths);
      AllFinishedIff();
    }

    lemma AllFinishedIff()
      ensures (forall path :: path in paths ==> path.finished)
              <==> forall p: nat :: p < |paths| ==> paths[p].finished
    {
      forall p: nat | p < |paths|
        ensures paths[p] in paths
      {
      }
    }

    lemma SuccessIsCounted()
      requires InProgress()
      ensures successfulPaths >= 1 <==> AnySuccess(paths)
    {
      forall path | path in paths
        ensures path.success ==> path.finished
      {
        var p: nat :| p < |paths| && paths[p] == path;
        SuccessIsFinished(S(), parallelPaths, paths, queried, p);
      }
      CountBound(paths);
    }

    lemma StopFacts()
      requires InProgress()
      ensures running && !finished && !deleted && listener && notifications == 0 && !success && SiblingsOk()
      ensures LocalOk()
      ensures starts + retries == allowed + 1 && (successfulPaths >= 1 <==> AnySuccess(paths))
      ensures ShouldStop() ==> FinalCount()
      ensures !config.verifySiblings && AnySuccess(paths) ==> siblings != []
    {
      SuccessIsCounted();
      StopMeansFinished();
      FoundMeansSome();
    }

    // ----- starting and stopping

    /** Stop, as the destructor and a retry do: nothing stays pending. */
    method Stop()
      requires running
      modifies this`success, this`rpcs, this`pendingPings, this`paths, this`running, this`finished, this`listener,
        this`notifications
      ensures success == (old(success) || AnySuccess(old(paths)))
      ensures rpcs == map[] && pendingPings == map[] && paths == [] && !running && finished && !listener
      ensures notifications == old(notifications) + if old(listener) then 1 else 0
    {
      for i := 0 to |paths|
        invariant paths == old(paths) && listener == old(listener) && notifications == old(notifications)
        invariant success == (old(success) || AnySuccess(paths[..i]))
      {
        assert paths[..i + 1] == paths[..i] + [paths[i]];
        success := success || paths[i].success;
      }
      assert paths[..|paths|] == old(paths);
      rpcs, pendingPings, paths := map[], map[], [];
      running, finished := false, true;
      if listener {
        notifications := notifications + 1;
        listener := false;
      }
    }

    /** The state in which an attempt starts: fresh, or cleared by the previous attempt. */
    ghost predicate Startable()
      reads this
    {
      && !deleted && listener && notifications == 0 && LocalOk()
      && starts + retries == allowed
      && paths == [] && rpcs == map[] && pendingPings == map[]
    }

    /** checkStop: ends the lookup, or starts it again, when the stop rule says so. */
    method CheckStop()
      requires InProgress()
      modifies this
      ensures Valid()
      ensures if retries == old(retries) then Standings() == old(Standings()) else JustStarted()
      ensures old(JustStarted()) ==> JustStarted()
      ensures Waiting() && (retries < old(retries) || old(PathsJustSent(local(retries).nextHops))) ==>
              PathsJustSent(local(retries).nextHops)
      ensures old(AnySuccess(paths)) ==> Succeeds() && retries == old(retries)
      ensures Waiting() && retries == old(retries) ==> paths == old(paths)
      ensures retries <= old(retries) && allowed == old(allowed)
      ensures if old(ShouldStop())
              then
                (if old(AnySuccess(paths)) then Ended() && success && retries == old(retries)
                 else if old(retries) == 0 then Ended() && !success && retries == 0
                 else retries < old(retries))
              else
                Waiting() && retries == old(retries) && paths == old(paths) && rpcs == old(rpcs)
                    && pendingPings == old(pendingPings)
                && WorkLeft() == old(WorkLeft()) && PingsLeft() == old(PingsLeft())
      decreases retries, 1
    {
      StopFacts();
      hide Midway, Work, WorkLeft, SiblingsOk, PingsLeft, FinalCount, JustStarted, PathsJustSent, LocalOk, Settles;
      var finishLookup := false;
      if (successfulPaths >= 1 && numSiblings == 0 && |siblings| >= 1)
        || (finishedPaths == parallelPaths && numSiblings > 0 && |pendingPings| == 0)
      {
        if AnySuccess(paths) {
          success := true;
        }
        finishLookup := true;
      } else if |rpcs| == 0 && |pendingPings| == 0 {
        finishLookup := true;
      }
      if finishLookup {
        Conclude();
      }
    }

    /** The end of checkStop, when the rule holds. */
    method Conclude()
      requires running && !deleted && listener && notifications == 0 && SiblingsOk() && LocalOk() && FinalCount()
      requires starts + retries == allowed + 1 && (successfulPaths >= 1 <==> AnySuccess(paths))
      requires success ==> AnySuccess(paths)
      requires !config.verifySiblings && AnySuccess(paths) ==> siblings != []
      modifies this
      ensures Valid() && allowed == old(allowed)
      ensures if old(AnySuccess(paths)) || old(retries) == 0
              then Ended() && retries == old(retries) && Standings() == old(Standings())
                  && (success <==> old(AnySuccess(paths)))
              else retries < old(retries) && JustStarted() && (Waiting() ==> PathsJustSent(local(retries).nextHops))
      decreases retries, 0
    {
      hide Midway, Work, SiblingsOk, PingsLeft, FinalCount, JustStarted, PathsJustSent, LocalOk, Settles;
      if successfulPaths >= 1 {
        success := true;
      }
      if !success && retries > 0 {
        Retry();
      } else {
        rpcs := map[];
        Delete();
      }
    }

    /** Stops quietly and starts again. */
    method Retry()
      requires running && !deleted && listener && notifications == 0 && LocalOk() && starts + retries == allowed + 1
      requires retries > 0
      modifies this
      ensures Valid() && retries < old(retries) && allowed == old(allowed) && JustStarted()
      ensures Waiting() ==> PathsJustSent(local(retries).nextHops)
      decreases retries - 1, 4
    {
      hide Waiting, Ended, LocalOk, JustStarted, PathsJustSent, Settles;
      retries := retries - 1;
      listener := false;
      Stop();
      listener := true;
      Start();
    }

    /** delete this: the destructor stops the lookup. */
    method Delete()
      requires running && !deleted && listener && notifications == 0 && SiblingsOk()
      requires starts + retries == allowed + 1
      requires success || retries == 0 || Settles()
      requires !Settles() ==> FinalCount()
      requires !config.verifySiblings && (success || AnySuccess(paths)) ==> siblings != []
      modifies this
      ensures Ended() && retries == old(retries) && allowed == old(allowed)
      ensures success == (old(success) || AnySuccess(old(paths)))
      ensures Standings() == old(Standings())
    {
      hide SiblingsOk, IdlePaths;
      Stop();
      deleted := true;
    }

    /** One attempt: ask the node itself, then set the paths going. */
    method Start()
      requires Startable()
      modifies this
      ensures Valid() && retries <= old(retries) && allowed == old(allowed) && JustStarted()
      ensures Waiting() ==> PathsJustSent(local(retries).nextHops)
      ensures retries == old(retries) ==> parallelPaths == old(PathsToCreate())
      ensures old(SomebodyToAsk()) ==> Waiting() && retries == old(retries)
      decreases retries, 3
    {
      hide SentFirst, JustStarted, Work, SiblingsOk, PingsLeft, IdlePaths, NobodyToAsk, PathsJustSent, FinalCount,
        LocalOk, Midway;
      var nextHops := StartLocally();
      if finished {
        LocalSuccessIsFound(nextHops);
        Delete();
        return;
      }
      StartPaths(nextHops);
    }

    /** The second half of start, when the node's own answer has not settled the lookup. */
    method StartPaths(nextHops: seq<NodeHandle>)
      requires Open() && running && !finished && !success && paths == [] && rpcs == map[] && pendingPings == map[]
      requires finishedPaths == successfulPaths == 0 && nextHops == local(retries).nextHops && !Settles()
      requires SiblingsOk() && siblings == [] && offered == [] && JustStarted()
      modifies this
      ensures Valid() && retries <= old(retries) && allowed == old(allowed) && JustStarted()
      ensures Waiting() ==> PathsJustSent(local(retries).nextHops)
      ensures retries == old(retries) ==> parallelPaths == old(PathsToCreate())
      ensures old(SomebodyToAsk()) ==> Waiting() && retries == old(retries)
      decreases retries, 2
    {
      OpenPaths(nextHops);
      hide Midway, JustStarted, SiblingsOk, PingsLeft, PathsJustSent, Ended, Waiting, Work, WorkLeft, Settles;
      CheckStop();
    }

    /** Reduces the number of paths, and creates them. */
    method OpenPaths(nextHops: seq<NodeHandle>)
      requires Open() && running && !finished && !success && paths == [] && rpcs == map[] && pendingPings == map[]
      requires finishedPaths == successfulPaths == 0 && nextHops == local(retries).nextHops && !Settles()
      requires SiblingsOk() && siblings == [] && offered == [] && JustStarted()
      modifies this`parallelPaths, this`paths, this`rpcs, this`queried, this`startFinished
      ensures InProgress() && JustStarted() && PathsJustSent(local(retries).nextHops)
      ensures parallelPaths == old(PathsToCreate()) && (old(SomebodyToAsk()) ==> !ShouldStop())
    {
      hide *;
      OnlyItselfMet();
      PathsToBe(nextHops);
      ReducePaths(|nextHops|);
      CreatePaths(nextHops);
      Begins(nextHops);
      SomePathWaits(nextHops);
    }

    lemma PathsToBe(nextHops: seq<NodeHandle>)
      requires Open() && nextHops == local(retries).nextHops && !Settles()
      ensures forall h :: h in nextHops ==> h in universe
      ensures PathsToCreate() == if parallelPaths > |nextHops| then |nextHops| else parallelPaths
      ensures SomebodyToAsk() ==> PathsToCreate() > 0 && SomeAsk(nextHops, PathsToCreate())
    {
      hide SomeAsk;
    }

    lemma OnlyItselfMet()
      requires JustStarted()
      ensures visited == {thisNode.addr} && dead == {}
    {
    }

    lemma LocalSuccessIsFound(nextHops: seq<NodeHandle>)
      requires SiblingsOk() && LocallySettled(nextHops, local(retries).isSibling) && nextHops == local(retries).nextHops
      requires finished
      ensures Settles() && (success ==> siblings != [])
    {
      FoundMeansSome();
    }

    /** The state after the paths have been created. */
    lemma Begins(nextHops: seq<NodeHandle>)
      requires finishedPaths == successfulPaths == 0 && nextHops == local(retries).nextHops
      requires startFinished == CountFinished(paths) && CountSuccessful(paths) == 0
      requires startFinished == if parallelPaths == 0 then 0 else CountIdle(nextHops, parallelPaths, parallelPaths)
      requires Open() && !success && |paths| == parallelPaths && Steady([]) && AllLive() && SiblingsOk()
      ensures InProgress()
    {
      hide SiblingsOk, CountIdle;
    }

    /** A path that has somebody to ask keeps a lookup going. */
    lemma SomePathWaits(nextHops: seq<NodeHandle>)
      requires InProgress() && PathsJustSent(nextHops) && visited == {thisNode.addr} && dead == {}
      requires finishedPaths == successfulPaths == 0
      ensures parallelPaths > 0 && SomeAsk(nextHops, parallelPaths) ==> !ShouldStop()
    {
      if p: nat :| p < parallelPaths && !NobodyToAsk(nextHops, p, parallelPaths) {
        FinishedIfIdle(nextHops, p, paths[p]);
        if rpcs == map[] {
          NoRpcsAllFinished(S(), paths, rpcs);
        }
      }
    }

    /** How many of n paths an attempt has, with so many retries left. */
    function PathsFor(n: nat, left: nat): nat {
      var nodes := local(left).nextHops;
      if nodes != [] && !local(left).isSibling && n > |nodes| then |nodes| else n
    }

    function PathsToCreate(): nat
      reads this`parallelPaths, this`retries
    {
      PathsFor(parallelPaths, retries)
    }

    /** Some path of an attempt will have somebody to ask. */
    ghost predicate WillAsk(n: nat, left: nat) {
      var nodes := local(left).nextHops;
      nodes != [] && !local(left).isSibling && PathsFor(n, left) > 0 && SomeAsk(nodes, PathsFor(n, left))
    }

    ghost predicate SomebodyToAsk()
      reads this`parallelPaths, this`retries
    {
      WillAsk(parallelPaths, retries)
    }

    ghost predicate SomeAsk(nodes: seq<NodeHandle>, n: nat)
      requires n > 0
    {
      exists p: nat :: p < n && !NobodyToAsk(nodes, p, n)
    }

    /** The attempt starts; it is finished afterwards if the node's own answer settles the lookup. */
    method StartLocally() returns (nextHops: seq<NodeHandle>)
      requires Startable()
      modifies this`successfulPaths, this`finishedPaths, this`accumulatedHops, this`finished, this`success,
        this`running, this`siblings, this`visited, this`dead, this`pinged, this`offered, this`assured, this`starts,
        this`pendingPings
      ensures successfulPaths == 0 && finishedPaths == 0 && running && starts == old(starts) + 1
      ensures SiblingsOk() && pendingPings == map[] && JustStarted()
      ensures nextHops == local(retries).nextHops && LocallySettled(nextHops, local(retries).isSibling)
    {
      hide *;
      LocalNames();
      ResetCounters();
      ClearNodes();
      nextHops := local(retries).nextHops;
      MarkVisited(thisNode.addr);
      SettleLocally(nextHops, local(retries).isSibling);
      KnowsOnlyItself();
    }

    lemma LocalNames()
      requires Startable()
      ensures pendingPings == map[] && thisNode in universe
      ensures forall h :: h in local(retries).nextHops ==> h in universe
    {
    }

    lemma KnowsOnlyItself()
      requires visited == {} + {thisNode.addr} && dead == pinged == {} && assured == LocallyAssured()
      requires offered == LocallyOffered()
      ensures JustStarted()
    {
    }

    /** What a start makes of the local answer. */
    ghost predicate LocallySettled(nextHops: seq<NodeHandle>, isSibling: bool)
      reads this`finished, this`success, this`siblings, this`offered
    {
      && (finished <==> nextHops == [] || isSibling)
      && (success <==> nextHops != [] && isSibling && (numSiblings == 0 ==> thisNode.key == key))
      && offered == (if !success then [] else if numSiblings == 0 then [thisNode] else nextHops)
      && (!success ==> siblings == [])
    }

    method SettleLocally(nextHops: seq<NodeHandle>, isSibling: bool)
      requires SiblingsOk() && siblings == [] && offered == [] && assured == {} && thisNode in universe
      requires nextHops == local(retries).nextHops && isSibling == local(retries).isSibling
      requires forall h :: h in nextHops ==> h in universe
      modifies this`finished, this`success, this`siblings, this`offered, this`assured, this`pinged, this`pendingPings
      ensures SiblingsOk() && pendingPings == old(pendingPings) && LocallySettled(nextHops, isSibling)
      ensures pinged == old(pinged) && assured == LocallyAssured() && offered == LocallyOffered()
    {
      hide SiblingsOk;
      finished, success := false, false;
      if |nextHops| == 0 {
        finished, success := true, false;
      } else if numSiblings == 0 && isSibling {
        if thisNode.key == key {
          TakeSiblings([thisNode]);
          success := true;
        } else {
          success := false;
        }
        finished := true;
      } else if numSiblings != 0 && isSibling {
        TakeSiblings(nextHops);
        success, finished := true, true;
      }
    }

    method ResetCounters()
      modifies this`successfulPaths, this`finishedPaths, this`accumulatedHops, this`running, this`starts
      ensures successfulPaths == 0 && finishedPaths == 0 && accumulatedHops == 0 && running && starts == old(starts) + 1
    {
      successfulPaths, finishedPaths, accumulatedHops := 0, 0, 0;
      starts, running := starts + 1, true;
    }

    /** A new attempt knows no siblings and has met nobody. */
    method ClearNodes()
      modifies this`siblings, this`visited, this`dead, this`pinged, this`offered, this`assured
      ensures SiblingsOk() && siblings == [] && offered == []
      ensures visited == dead == pinged == {} && assured == {}
    {
      siblings := [];
      visited, dead, pinged := {}, {}, {};
      offered, assured := [], {};
    }

    /** Not enough nodes for all paths: fewer paths. */
    method ReducePaths(n: nat)
      requires siblings == [] && offered == [] && SiblingsOk()
      modifies this`parallelPaths
      ensures SiblingsOk() && parallelPaths == if old(parallelPaths) > n then n else old(parallelPaths)
    {
      if parallelPaths > n {
        parallelPaths := n;
      }
    }

    /** Siblings that the node itself answers for. */
    method TakeSiblings(nodes: seq<NodeHandle>)
      requires SiblingsOk() && forall h :: h in nodes ==> h in universe
      modifies this`siblings, this`offered, this`assured, this`pinged, this`pendingPings
      ensures SiblingsOk() && pendingPings == old(pendingPings) && pinged == old(pinged)
      ensures assured == old(assured) + (set h | h in nodes) && offered == old(offered) + nodes
    {
      hide SiblingsOk, PingsLeft, WithSibling;
      for i := 0 to |nodes|
        invariant SiblingsOk() && pendingPings == old(pendingPings) && pinged == old(pinged)
        invariant assured == old(assured) + (set h | h in nodes[..i]) && offered == old(offered) + nodes[..i]
      {
        assert nodes[..i + 1] == nodes[..i] + [nodes[i]];
        var _ := AddSibling(nodes[i], true);
      }
    }

    /** Creates the paths, deals the hops out to them in turn, and lets each send its first RPCs. */
    method CreatePaths(nextHops: seq<NodeHandle>)
      requires running && !finished && paths == [] && rpcs == map[]
      requires forall h :: h in nextHops ==> h in universe
      requires visited == {thisNode.addr} && dead == {}
      modifies this`paths, this`rpcs, this`queried, this`startFinished
      ensures Steady([]) && AllLive() && |paths| == parallelPaths
      ensures startFinished == CountFinished(paths) && CountSuccessful(paths) == 0
      ensures PathsJustSent(nextHops)
      ensures startFinished == if parallelPaths == 0 then 0 else CountIdle(nextHops, parallelPaths, parallelPaths)
    {
      hide *;
      queried := {};
      NoPathsYet(nextHops);
      for i := 0 to parallelPaths
        invariant |paths| == i && Steady([]) && AllLive() && PathsJustSent(nextHops) && CountSuccessful(paths) == 0
        invariant forall pk :: pk in queried ==> pk.0 < |paths|
        invariant parallelPaths > 0 ==> CountFinished(paths) == CountIdle(nextHops, parallelPaths, i)
      {
        ghost var before := paths;
        assert AllSentFirst(nextHops, before) by { SentSoFar(nextHops); }
        CreatePath(nextHops, i);
        OnePathMore(nextHops, before);
      }
      startFinished := CountFinished(paths);
    }

    lemma NoPathsYet(nodes: seq<NodeHandle>)
      requires running && !finished && paths == [] && rpcs == map[] && queried == {}
      ensures Steady([]) && AllLive() && PathsJustSent(nodes) && CountFinished(paths) == CountSuccessful(paths) == 0
      ensures parallelPaths > 0 ==> CountIdle(nodes, parallelPaths, 0) == 0
    {
    }

    lemma SentSoFar(nodes: seq<NodeHandle>)
      ensures PathsJustSent(nodes) <==> AllSentFirst(nodes, paths)
    {
    }

    /** A path that is created after others. */
    lemma OnePathMore(nodes: seq<NodeHandle>, before: seq<PathLookup>)
      requires |paths| == |before| + 1 && paths[..|before|] == before && SentFirst(nodes, |before|, paths[|before|])
      requires AllSentFirst(nodes, before) && visited == {thisNode.addr} && dead == {}
      requires parallelPaths > 0 ==> CountFinished(before) == CountIdle(nodes, parallelPaths, |before|)
      ensures PathsJustSent(nodes)
      ensures parallelPaths > 0 ==> CountFinished(paths) == CountIdle(nodes, parallelPaths, |paths|)
    {
      hide NobodyToAsk, SentFirst, CountFinished;
      var path := paths[|before|];
      assert paths == before + [path] by { hide *; }
      FinishedIfIdle(nodes, |before|, path);
      CountAppend(before, path);
    }

    /** The next hops of a path when it is created, one of n. */
    ghost function DealtHops(nodes: seq<NodeHandle>, p: nat, n: nat): seq<LookupEntry>
      requires n > 0
    {
      NoHops(config.redundantNodes, distance);
      AddedHops(config.redundantNodes, distance, [], Dealt(nodes, p, n), None)
    }

    /** A new path that may not ask anybody: the node itself has been visited when an attempt starts. */
    ghost predicate NobodyToAsk(nodes: seq<NodeHandle>, p: nat, n: nat)
      requires n > 0
    {
      var hops := DealtHops(nodes, p, n);
      config.parallelRpcs == 0 || forall i: nat :: i < Reach(hops) ==>
          config.visitOnlyOnce && hops[i].handle.addr == thisNode.addr
    }

    /** How many of the first k paths of n have nobody to ask. */
    ghost function CountIdle(nodes: seq<NodeHandle>, n: nat, k: nat): (count: nat)
      requires n > 0
    {
      if k == 0 then 0 else CountIdle(nodes, n, k - 1) + if NobodyToAsk(nodes, k - 1, n) then 1 else 0
    }

    lemma {:induction false} SomeIdle(nodes: seq<NodeHandle>, n: nat, k: nat)
      requires n > 0
      ensures CountIdle(nodes, n, k) > 0 <==> exists p: nat :: p < k && NobodyToAsk(nodes, p, n)
    {
      hide NobodyToAsk;
      if k > 0 {
        SomeIdle(nodes, n, k - 1);
        assert NobodyToAsk(nodes, k - 1, n) || !NobodyToAsk(nodes, k - 1, n);
      }
    }

    /** A path finishes when it is created exactly if it has nobody to ask. */
    lemma FinishedIfIdle(nodes: seq<NodeHandle>, p: nat, path: PathLookup)
      requires SentFirst(nodes, p, path) && visited == {thisNode.addr} && dead == {}
      ensures path.finished <==> NobodyToAsk(nodes, p, parallelPaths)
    {
      NoHops(config.redundantNodes, distance);
      NewHopsAreUnused(config.redundantNodes, distance, Dealt(nodes, p, parallelPaths), None);
      var hops := DealtHops(nodes, p, parallelPaths);
      assert NoneUsable(hops, Reach(hops))
          <==> forall i: nat :: i < Reach(hops) ==> config.visitOnlyOnce && hops[i].handle.addr == thisNode.addr by {
        forall i: nat | i < Reach(hops)
          ensures Usable(hops[i]) <==> !(config.visitOnlyOnce && hops[i].handle.addr == thisNode.addr)
        {
          assert hops[i] in hops;
        }
      }
    }

    /** Every parallelPaths-th node goes to a path, as its first next hops. */
    ghost predicate SentFirst(nodes: seq<NodeHandle>, p: nat, path: PathLookup)
      reads this`parallelPaths, this`dead, this`visited
    {
      parallelPaths > 0
          && Sent(PathLookup(0, 0, 0, false, false, DealtHops(nodes, p, parallelPaths)), path, config.parallelRpcs)
    }

    method CreatePath(nextHops: seq<NodeHandle>, i: nat)
      requires Steady([]) && AllLive() && |paths| == i < parallelPaths
      requires CountSuccessful(paths) == 0
      requires forall pk :: pk in queried ==> pk.0 < |paths|
      requires forall h :: h in nextHops ==> h in universe
      modifies this`paths, this`rpcs, this`queried
      ensures |paths| == i + 1 && Steady([]) && AllLive()
      ensures paths[..i] == old(paths) && SentFirst(nextHops, i, paths[i])
      ensures CountSuccessful(paths) == 0
      ensures forall pk :: pk in queried ==> pk.0 < |paths|
    {
      hide PathsOk, AllBooked, Work, Live, AddedHops, Sent, Zoned;
      NewPath(S(), parallelPaths, paths, queried, rpcs);
      ghost var before := paths;
      assert forall p: nat :: p < |before| ==> Live(S(), before[p]);
      CountAppend(paths, PathLookup(0, 0, 0, false, false, []));
      paths := paths + [PathLookup(0, 0, 0, false, false, [])];
      ghost var created := paths;
      DealHops(nextHops, i);
      ghost var path :=
          PathLookup(0, 0, 0, false, false,
                     AddedHops(config.redundantNodes, distance, [], Dealt(nextHops, i, parallelPaths), None));
      assert paths[i] == path;
      PathSendRpc(i, config.parallelRpcs, []);
      assert Sent(path, paths[i], config.parallelRpcs);
      SentIsLive(path, paths[i], config.parallelRpcs);
      CountUpdate(created, i, paths[i]);
      assert paths == created[i := paths[i]];
      forall pk | pk in queried
        ensures pk.0 < |paths|
      {
        assert pk in old(queried) || pk in queried - old(queried);
      }
      LiveUpdate(S(), before + [paths[i]], paths, i);
    }

    /** All paths are as they were when they were created. */
    ghost predicate PathsJustSent(nodes: seq<NodeHandle>)
      reads this`paths, this`parallelPaths, this`dead, this`visited
    {
      AllSentFirst(nodes, paths)
    }

    ghost predicate AllSentFirst(nodes: seq<NodeHandle>, paths: seq<PathLookup>)
      reads this`parallelPaths, this`dead, this`visited
    {
      forall p: nat :: p < |paths| ==> SentFirst(nodes, p, paths[p])
    }

    /** The loop that deals its next hops to a new path. */
    method DealHops(nextHops: seq<NodeHandle>, i: nat)
      requires Steady([]) && i < |paths| && i < parallelPaths && paths[i].nextHops == []
      requires forall h :: h in nextHops ==> h in universe
      modifies this`paths
      ensures Steady([]) && |paths| == |old(paths)| && Zoned(HopsConfig(config.redundantNodes, distance), [])
      ensures paths == old(paths)[i := WithHops(old(paths[i]),
                AddedHops(config.redundantNodes, distance, [], Dealt(nextHops, i, parallelPaths), None))]
    {
      hide *;
      ghost var dealt: seq<NodeHandle>, was := [], paths[i];
      var k, n := i, parallelPaths;
      NothingDealt(nextHops, i, n, was);
      assert paths == paths[i := paths[i]];
      while k < |nextHops|
        invariant Steady([]) && |paths| == |old(paths)| && n == parallelPaths
        invariant paths == old(paths)[i := WithHops(was, AddedHops(config.redundantNodes, distance, [], dealt, None))]
        invariant DealtSoFar(nextHops, dealt, i, k, n)
      {
        DealHop(nextHops[k], i, was, dealt);
        DealtNext(nextHops, dealt, i, k, n);
        dealt := dealt + [nextHops[k]];
        k := k + n;
      }
      DealtEnd(nextHops, dealt, i, k, n);
    }

    lemma NothingDealt(nodes: seq<NodeHandle>, i: nat, n: nat, path: PathLookup)
      requires n > 0 && path.nextHops == []
      ensures Zoned(HopsConfig(config.redundantNodes, distance), []) && DealtSoFar(nodes, [], i, i, n)
      ensures WithHops(path, AddedHops(config.redundantNodes, distance, [], [], None)) == path
    {
      NoHops(config.redundantNodes, distance);
      DealtStart(nodes, i, n);
    }

    method DealHop(node: NodeHandle, i: nat, ghost was: PathLookup, ghost dealt: seq<NodeHandle>)
      requires Steady([]) && i < |paths| && node in universe && Zoned(HopsConfig(config.redundantNodes, distance), [])
      requires paths[i] == WithHops(was, AddedHops(config.redundantNodes, distance, [], dealt, None))
      modifies this`paths
      ensures Steady([]) && |paths| == |old(paths)|
      ensures paths
              == old(paths)[i := WithHops(was, AddedHops(config.redundantNodes, distance, [], dealt + [node], None))]
    {
      AddedHopsNext(config.redundantNodes, distance, [], dealt, node, None);
      WithHopsTwice(was);
      hide *;
      var _ := PathAdd(i, node, None, []);
    }

    // ----- events

    /** lookup */
    method Lookup(retries: nat)
      requires Idle()
      modifies this
      ensures Valid() && allowed == retries && this.retries <= retries && JustStarted()
      ensures Waiting() ==> PathsJustSent(local(this.retries).nextHops)
      ensures this.retries == retries ==> parallelPaths == PathsFor(old(parallelPaths), retries)
      ensures WillAsk(old(parallelPaths), retries) ==> Waiting() && this.retries == retries
    {
      this.retries := retries;
      allowed, starts := retries, 0;
      Start();
    }

    /** Does the path take this response as an answer to its question? */
    predicate Accepts(path: PathLookup, info: RpcInfo, msg: FindNodeResponse) {
      || (!path.finished && (config.useAllParallelResponses || info.vrpcId == path.step))
      || (msg.siblings && config.acceptLateSiblings)
    }

    ghost predicate WaitsFor(paths: seq<PathLookup>, info: RpcInfo, msg: FindNodeResponse) {
      && info.path < |paths| && !paths[info.path].finished
      && (config.useAllParallelResponses || paths[info.path].step == info.vrpcId
          || (config.acceptLateSiblings && msg.siblings))
    }

    /** The first info whose path accepts the response takes it, unless an earlier info of that path was handled
        first. */
    ghost predicate FirstToAccept(paths: seq<PathLookup>, infos: seq<RpcInfo>, msg: FindNodeResponse, taker: nat) {
      && taker <= |infos|
      && (taker < |infos| ==> WaitsFor(paths, infos[taker], msg))
      && forall i :: 0 <= i < taker ==> !WaitsFor(paths, infos[i], msg) || Earlier(infos, i, infos[i].path)
    }

    lemma FirstToAcceptIs(paths: seq<PathLookup>, infos: seq<RpcInfo>, msg: FindNodeResponse, taker: nat)
      requires FirstToAccept(paths, infos, msg, taker)
      ensures taker <= |infos| && (taker < |infos| ==> WaitsFor(paths, infos[taker], msg))
      ensures forall i: nat | i < |infos| && WaitsFor(paths, infos[i], msg) ::
                taker <= i || exists j: nat :: j < i && infos[j].path == infos[i].path
    {
      forall i: nat | i < |infos| && WaitsFor(paths, infos[i], msg) && i < taker
        ensures exists j: nat :: j < i && infos[j].path == infos[i].path
      {
        assert Earlier(infos, i, infos[i].path);
      }
    }

    ghost predicate Earlier(infos: seq<RpcInfo>, i: nat, p: nat) {
      exists j :: 0 <= j < |infos| && j < i && infos[j].path == p
    }

    /** A find node response: each path that waits for it gets it, the first one that accepts it as an answer, the
        others as a timeout. Nobody but the sender becomes visited. */
    method HandleFindNodeResponse(msg: FindNodeResponse, late: bool) returns (ghost taker: nat)
      requires Waiting() && forall h :: h in msg.closestNodes ==> h in universe
      modifies this
      ensures Valid() && retries <= old(retries) && allowed == old(allowed)
      ensures msg.src.addr in old(rpcs) ==>
        Ended() || retries < old(retries) || WorkLeft() + PingsLeft() < old(WorkLeft() + PingsLeft())
      ensures retries < old(retries) ==> JustStarted()
      ensures old(Succeeds()) ==> Succeeds() && retries == old(retries)
      ensures retries == old(retries) ==>
              assured == old(assured) && dead == old(dead) && parallelPaths == old(parallelPaths)
      ensures msg.src.addr in old(rpcs) ==>
        var infos := old(rpcs[msg.src.addr]);
        && FirstToAccept(old(paths), infos, msg, taker)
        && (taker < |infos| ==>
              var info := infos[taker];
              info.path < |old(paths)| && !old(paths)[info.path].finished
              && (config.useAllParallelResponses || info.vrpcId == old(paths)[info.path].step
                  || (msg.siblings && config.acceptLateSiblings)))
        && (forall i: nat | i < |infos| && infos[i].path < |old(paths)| && !old(paths)[infos[i].path].finished ::
              (config.useAllParallelResponses || infos[i].vrpcId == old(paths)[infos[i].path].step
               || (msg.siblings && config.acceptLateSiblings)) ==>
                taker <= i || exists j: nat :: j < i && infos[j].path == infos[i].path)
        && (retries == old(retries) ==>
            visited == old(visited) + (if taker < |infos| && !late then {msg.src.addr} else {}))
        && (taker < |infos| && !late && Answers(msg) ==> Succeeds() && retries == old(retries))
        && (Waiting() && retries == old(retries) ==> StepTaken(old(paths), paths, infos, taker, late))
        && (retries == old(retries) ==>
              SiblingState() == if taker < |infos| && !late
                                then OfferAll(visited, TakesAll(), old(SiblingState()), Named(msg))
                                else old(SiblingState()))
      ensures msg.src.addr !in old(rpcs) ==>
        Waiting() && retries == old(retries) && paths == old(paths) && rpcs == old(rpcs)
            && pendingPings == old(pendingPings)
        && visited == old(visited) && siblings == old(siblings) && offered == old(offered)
    {
      hide Work, SiblingsOk, PingsLeft, JustStarted, FirstToAccept, StepTaken, OfferAll, Named, Midway, WorkLeft,
        Answers, FinalCount, Settles;
      taker := 0;
      IsRunning();
      if finished || !running || msg.src.addr !in rpcs {
        return;
      }
      ghost var before, infos := paths, rpcs[msg.src.addr];
      taker := TakeResponse(msg, late);
      FirstToAcceptIs(before, infos, msg, taker);
      CheckStop();
    }

    /** What a response does before the stop rule is asked. */
    method TakeResponse(msg: FindNodeResponse, late: bool) returns (ghost taker: nat)
      requires InProgress() && msg.src.addr in rpcs && forall h :: h in msg.closestNodes ==> h in universe
      modifies this`paths, this`rpcs, this`queried, this`visited, this`siblings, this`offered, this`assured,
        this`pinged, this`pendingPings, this`finishedPaths, this`accumulatedHops, this`successfulPaths
      ensures InProgress() && WorkLeft() < old(WorkLeft()) && PingsLeft() <= old(PingsLeft()) && assured == old(assured)
      ensures var infos := old(rpcs[msg.src.addr]);
        && FirstToAccept(old(paths), infos, msg, taker) && StepTaken(old(paths), paths, infos, taker, late)
        && visited == old(visited) + (if taker < |infos| && !late then {msg.src.addr} else {})
        && (SiblingState() == if taker < |infos| && !late
                              then OfferAll(visited, TakesAll(), old(SiblingState()), Named(msg))
                              else old(SiblingState()))
        && (old(AnySuccess(paths)) || (taker < |infos| && !late && Answers(msg)) ==> AnySuccess(paths))
    {
      hide Midway, WorkLeft, PingsLeft, AnySuccess, Without, FirstToAccept, StepTaken, OfferAll, Named, Answers;
      var infos := TakeInfos(msg.src.addr);
      taker := Distribute(infos, msg, late);
    }

    /** The path that takes the response is one step further. */
    ghost predicate StepTaken(before: seq<PathLookup>, after: seq<PathLookup>, infos: seq<RpcInfo>, taker: nat,
                              late: bool) {
      && |after| == |before|
      && forall p: nat :: p < |after| ==>
           after[p].step == before[p].step + if taker < |infos| && infos[taker].path == p && !late then 1 else 0
    }

    /** The loop of handleRpcResponse over the infos of the sender. */
    method Distribute(infos: seq<RpcInfo>, msg: FindNodeResponse, late: bool) returns (ghost taker: nat)
      requires Midway(infos) && forall h :: h in msg.closestNodes ==> h in universe
      modifies this`paths, this`rpcs, this`queried, this`visited, this`siblings, this`offered, this`assured,
        this`pinged, this`pendingPings, this`finishedPaths, this`accumulatedHops, this`successfulPaths
      ensures Midway([]) && WorkLeft() <= old(WorkLeft()) && PingsLeft() <= old(PingsLeft())
      ensures assured == old(assured) && FirstToAccept(old(paths), infos, msg, taker)
      ensures old(AnySuccess(paths)) || (taker < |infos| && !late && Answers(msg)) ==> AnySuccess(paths)
      ensures visited == old(visited) + (if taker < |infos| && !late then {msg.src.addr} else {})
      ensures StepTaken(old(paths), paths, infos, taker, late)
      ensures SiblingState() == if taker < |infos| && !late
                                then OfferAll(visited, TakesAll(), old(SiblingState()), Named(msg))
                                else old(SiblingState())
    {
      hide *;
      ghost var before := paths;
      var rpcHandled := false;
      taker := |infos|;
      DistributingStart(before, infos, msg, late);
      for i := 0 to |infos|
        invariant Midway(infos[i..]) && WorkLeft() <= old(WorkLeft()) && PingsLeft() <= old(PingsLeft())
        invariant assured == old(assured) && Distributing(before, paths, infos, msg, i, taker, late)
        invariant old(AnySuccess(paths)) || (rpcHandled && !late && Answers(msg)) ==> AnySuccess(paths)
        invariant taker <= |infos| && (rpcHandled <==> taker < |infos|)
        invariant visited == old(visited) + (if rpcHandled && !late then {msg.src.addr} else {})
        invariant SiblingState() == if rpcHandled && !late
                                    then OfferAll(visited, TakesAll(), old(SiblingState()), Named(msg))
                                    else old(SiblingState())
      {
        var info := infos[i];
        ghost var was, wasTaker := paths, taker;
        assert infos[i..] == [info] + infos[i + 1..];
        InfoHasPath(info, infos[i + 1..]);
        WaitsIf(paths, info, msg);
        if !paths[info.path].finished {
          if !rpcHandled && Accepts(paths[info.path], info, msg) {
            HandleInfo(info, Some(msg), late, infos[i + 1..]);
            rpcHandled := true;
            taker := i;
          } else {
            HandleInfo(info, None, late, infos[i + 1..]);
          }
        } else {
          SkipInfo(info, infos[i + 1..]);
          assert paths == paths[info.path := paths[info.path]];
        }
        DistributingNext(before, was, infos, msg, i, wasTaker, late, paths[info.path], taker);
      }
      DistributingEnd(before, paths, infos, msg, taker, late);
      assert infos[|infos|..] == [];
    }

    /** After the first i infos: each path has changed at most by them, and the first to accept has taken the
        response. */
    ghost predicate Distributing(before: seq<PathLookup>, now: seq<PathLookup>, infos: seq<RpcInfo>,
                                 msg: FindNodeResponse, i: nat, taker: nat, late: bool)
    {
      && i <= |infos| && taker <= |infos| && (taker < i || taker == |infos|)
      && StepTaken(before, now, infos, taker, late)
      && (taker < |infos| ==> WaitsFor(before, infos[taker], msg))
      && (forall p: nat :: p < |now| ==> now[p] == before[p] || (!before[p].finished && Earlier(infos, i, p)))
      && (forall k: nat :: k < i && k < taker ==> !WaitsFor(before, infos[k], msg) || Earlier(infos, k, infos[k].path))
    }

    lemma WaitsIf(paths: seq<PathLookup>, info: RpcInfo, msg: FindNodeResponse)
      requires info.path < |paths|
      ensures WaitsFor(paths, info, msg) <==> !paths[info.path].finished && Accepts(paths[info.path], info, msg)
    {
    }

    lemma DistributingStart(before: seq<PathLookup>, infos: seq<RpcInfo>, msg: FindNodeResponse, late: bool)
      ensures Distributing(before, before, infos, msg, 0, |infos|, late)
    {
    }

    lemma DistributingNext(before: seq<PathLookup>, now: seq<PathLookup>, infos: seq<RpcInfo>, msg: FindNodeResponse,
                           i: nat, taker: nat, late: bool, path: PathLookup, taker': nat)
      requires Distributing(before, now, infos, msg, i, taker, late) && i < |infos| && infos[i].path < |now|
      requires now[infos[i].path].finished ==> path == now[infos[i].path]
      requires if taker == |infos| && WaitsFor(now, infos[i], msg)
               then taker' == i && path.step == now[infos[i].path].step + (if late then 0 else 1)
               else taker' == taker && path.step == now[infos[i].path].step
      ensures Distributing(before, now[infos[i].path := path], infos, msg, i + 1, taker', late)
    {
      var p := infos[i].path;
      assert Earlier(infos, i + 1, p);
      assert forall q: nat :: Earlier(infos, i, q) ==> Earlier(infos, i + 1, q);
    }

    lemma DistributingEnd(before: seq<PathLookup>, now: seq<PathLookup>, infos: seq<RpcInfo>, msg: FindNodeResponse,
                          taker: nat, late: bool)
      requires Distributing(before, now, infos, msg, |infos|, taker, late)
      ensures FirstToAccept(before, infos, msg, taker) && StepTaken(before, now, infos, taker, late)
    {
    }

    /** A find node RPC timed out: the node is dead, and every path that waits for it moves on. */
    method HandleFindNodeTimeout(dest: Addr, late: bool)
      requires Waiting()
      modifies this
      ensures Valid() && retries <= old(retries) && allowed == old(allowed)
      ensures dest in old(rpcs) ==>
        Ended() || retries < old(retries) || WorkLeft() + PingsLeft() < old(WorkLeft() + PingsLeft())
      ensures retries < old(retries) ==> JustStarted()
      ensures old(Succeeds()) ==> Succeeds() && retries == old(retries)
      ensures retries == old(retries) ==>
        Standings() == old(Standings()).(dead := old(dead) + if dest in old(rpcs) then {dest} else {})
      ensures Waiting() && retries == old(retries) ==> SameSteps(old(paths), paths)
      ensures dest !in old(rpcs) ==>
        Waiting() && retries == old(retries) && paths == old(paths) && rpcs == old(rpcs)
            && pendingPings == old(pendingPings)
    {
      hide PathsOk, AllBooked, Work, SiblingsOk, PingsLeft, CountersOk, Live, LocalOk, JustStarted, Midway, Ended,
        WorkLeft;
      IsRunning();
      if finished || !running || dest !in rpcs {
        return;
      }
      TakeTimeout(dest, late);
      CheckStop();
    }

    /** What a timeout does before the stop rule is asked. */
    method TakeTimeout(dest: Addr, late: bool)
      requires InProgress() && dest in rpcs
      modifies this`paths, this`rpcs, this`queried, this`visited, this`siblings, this`offered, this`assured,
        this`pinged, this`pendingPings, this`finishedPaths, this`accumulatedHops, this`successfulPaths, this`dead
      ensures InProgress() && WorkLeft() < old(WorkLeft()) && PingsLeft() <= old(PingsLeft())
      ensures Standings() == old(Standings()).(dead := old(dead) + {dest}) && SameSteps(old(paths), paths)
      ensures old(AnySuccess(paths)) ==> AnySuccess(paths)
    {
      hide Midway, WorkLeft, PingsLeft, AnySuccess, Without;
      MarkDead(dest);
      var infos := TakeInfos(dest);
      DistributeTimeout(infos, late);
    }

    lemma IsRunning()
      requires InProgress()
      ensures running && !finished
    {
    }

    method MarkDead(addr: Addr)
      requires InProgress()
      modifies this`dead
      ensures InProgress() && dead == old(dead) + {addr}
    {
      dead := dead + {addr};
    }

    ghost predicate SameSteps(before: seq<PathLookup>, after: seq<PathLookup>) {
      |after| == |before| && forall p: nat :: p < |after| ==> after[p].step == before[p].step
    }

    /** The loop of handleRpcTimeout over the infos of the address. */
    method DistributeTimeout(infos: seq<RpcInfo>, late: bool)
      requires Midway(infos)
      modifies this`paths, this`rpcs, this`queried, this`visited, this`siblings, this`offered, this`assured,
        this`pinged, this`pendingPings, this`finishedPaths, this`accumulatedHops, this`successfulPaths
      ensures Midway([]) && WorkLeft() <= old(WorkLeft()) && PingsLeft() <= old(PingsLeft())
      ensures Standings() == old(Standings()) && (old(AnySuccess(paths)) ==> AnySuccess(paths))
      ensures SameSteps(old(paths), paths)
    {
      hide PathsOk, AllBooked, Work, SiblingsOk, PingsLeft, CountersOk, Live, LocalOk, Midway, WorkLeft, AnySuccess;
      for i := 0 to |infos|
        invariant Midway(infos[i..]) && WorkLeft() <= old(WorkLeft()) && PingsLeft() <= old(PingsLeft())
        invariant Standings() == old(Standings()) && (old(AnySuccess(paths)) ==> AnySuccess(paths))
        invariant SameSteps(old(paths), paths)
      {
        var info := infos[i];
        assert infos[i..] == [info] + infos[i + 1..];
        InfoHasPath(info, infos[i + 1..]);
        if !paths[info.path].finished {
          HandleInfo(info, None, late, infos[i + 1..]);
        } else {
          SkipInfo(info, infos[i + 1..]);
        }
      }
      assert infos[|infos|..] == [];
    }

    /** The answer to a ping authenticates a sibling, and nobody else. */
    method HandlePingResponse(rpcId: nat, src: NodeHandle)
      requires Waiting() && src in universe
      modifies this
      ensures Valid() && retries <= old(retries) && allowed == old(allowed)
      ensures rpcId in old(pendingPings) ==>
        Ended() || retries < old(retries) || WorkLeft() + PingsLeft() < old(WorkLeft() + PingsLeft())
      ensures Waiting() && retries == old(retries) ==> paths == old(paths)
      ensures retries < old(retries) ==> JustStarted()
      ensures old(Succeeds()) ==> Succeeds() && retries == old(retries)
      ensures retries == old(retries) ==>
        Standings() == old(Standings()).(assured := old(assured) + {src}, offered := old(offered) + [src],
                                         found := old(WithSibling(TakesAll(), siblings, src).0))
    {
      hide SiblingsOk, PingsLeft, WithSibling, JustStarted, Midway, Ended, WorkLeft;
      IsRunning();
      if finished || !running {
        return;
      }
      ErasePing(rpcId);
      AddAnswered(src);
      CheckStop();
    }

    method AddAnswered(src: NodeHandle)
      requires InProgress() && src in universe
      modifies this`siblings, this`offered, this`assured, this`pinged, this`pendingPings
      ensures InProgress() && PingsLeft() <= old(PingsLeft())
      ensures Standings() == old(Standings()).(assured := old(assured) + {src}, offered := old(offered) + [src],
                                               found := old(WithSibling(TakesAll(), siblings, src).0))
    {
      hide PathsOk, AllBooked, Work, SiblingsOk, CountersOk, Live, LocalOk, PingsLeft, WithSibling;
      var _ := AddSibling(src, true);
    }

    method HandlePingTimeout(rpcId: nat)
      requires Waiting()
      modifies this
      ensures Valid() && retries <= old(retries) && allowed == old(allowed)
      ensures rpcId in old(pendingPings) ==>
        Ended() || retries < old(retries) || WorkLeft() + PingsLeft() < old(WorkLeft() + PingsLeft())
      ensures Waiting() && retries == old(retries) ==> paths == old(paths)
      ensures retries < old(retries) ==> JustStarted()
      ensures old(Succeeds()) ==> Succeeds() && retries == old(retries)
      ensures retries == old(retries) ==> Standings() == old(Standings())
    {
      hide SiblingsOk, JustStarted, Midway, Ended, WorkLeft, PingsLeft;
      IsRunning();
      if finished || !running {
        return;
      }
      ErasePing(rpcId);
      CheckStop();
    }

    method ErasePing(rpcId: nat)
      requires InProgress()
      modifies this`pendingPings
      ensures InProgress() && PingsLeft() <= old(PingsLeft())
      ensures rpcId in old(pendingPings) ==> PingsLeft() < old(PingsLeft())
    {
      pendingPings := map id | id in pendingPings && id != rpcId :: pendingPings[id];
      assert pendingPings.Keys == old(pendingPings).Keys - {rpcId};
    }

    /** The infos of an address that has answered, or timed out. */
    method TakeInfos(addr: Addr) returns (infos: seq<RpcInfo>)
      requires InProgress() && addr in rpcs
      modifies this`rpcs
      ensures Midway(infos) && WorkLeft() < old(WorkLeft())
      ensures infos == old(rpcs[addr]) && rpcs == Without(old(rpcs), addr)
    {
      infos := rpcs[addr];
      TakeAddress(paths, rpcs, addr);
      TakeAddressWork(S(), parallelPaths, queried, rpcs, addr);
      rpcs := Without(rpcs, addr);
    }

    lemma InfoHasPath(info: RpcInfo, rest: seq<RpcInfo>)
      requires Midway([info] + rest)
      ensures info.path < |paths|
    {
    }

    /** An info of a path that has finished in the meantime. */
    lemma SkipInfo(info: RpcInfo, rest: seq<RpcInfo>)
      requires Midway([info] + rest) && info.path < |paths| && paths[info.path].finished
      ensures Midway(rest)
    {
    }

    /** One path handles its share of an event: an answer, or a timeout. */
    method PathHandle(info: RpcInfo, msg: Option<FindNodeResponse>, late: bool, ghost rest: seq<RpcInfo>)
      requires Handling(info, rest) && SiblingsOk() && !paths[info.path].finished
      requires msg.Some? ==> forall h :: h in msg.value.closestNodes ==> h in universe
      modifies this`paths, this`rpcs, this`queried, this`visited, this`siblings, this`offered, this`assured,
        this`pinged, this`pendingPings
      ensures Steady(rest) && SiblingsOk() && HandledPath(info.path, old(paths))
      ensures WorkLeft() <= old(WorkLeft()) && PingsLeft() <= old(PingsLeft()) && assured == old(assured)
      ensures visited == old(visited) + (if msg.Some? && !late then {msg.value.src.addr} else {})
      ensures paths[info.path].step == old(paths[info.path].step) + (if msg.Some? && !late then 1 else 0)
      ensures SiblingState() == if msg.Some? && !late
                                then OfferAll(visited, TakesAll(), old(SiblingState()), Named(msg.value))
                                else old(SiblingState())
      ensures paths[info.path].success <==> msg.Some? && !late && Answers(msg.value)
      ensures !old(paths[info.path]).success && (paths[info.path].success ==> paths[info.path].finished)
      ensures Found(old(offered)) || (!config.verifySiblings && paths[info.path].success) ==> Found(offered)
    {
      hide PathsOk, AllBooked, Work, SiblingsOk, PingsLeft, Live, LocalOk, Proceeded, Zoned, Sent, Answers, OfferAll,
        Named, Found;
      SuccessIsFinished(S(), parallelPaths, paths, queried, info.path);
      if msg.Some? {
        PathHandleResponse(info.path, msg.value, late, info, rest);
        AnswerIsFound(visited, TakesAll(), old(SiblingState()), msg.value);
      } else {
        PathHandleTimeout(info.path, late, info, rest);
      }
      SuccessIsFinished(S(), parallelPaths, paths, queried, info.path);
    }

    /** One path handles its share of an event; if that finishes the path, it is counted. */
    method HandleInfo(info: RpcInfo, msg: Option<FindNodeResponse>, late: bool, ghost rest: seq<RpcInfo>)
      requires Midway([info] + rest) && info.path < |paths| && !paths[info.path].finished
      requires msg.Some? ==> forall h :: h in msg.value.closestNodes ==> h in universe
      modifies this`paths, this`rpcs, this`queried, this`visited, this`siblings, this`offered, this`assured,
        this`pinged, this`pendingPings, this`finishedPaths, this`accumulatedHops, this`successfulPaths
      ensures Midway(rest)
      ensures WorkLeft() <= old(WorkLeft()) && PingsLeft() <= old(PingsLeft()) && assured == old(assured)
      ensures |paths| == |old(paths)| && paths == old(paths)[info.path := paths[info.path]]
      ensures visited == old(visited) + (if msg.Some? && !late then {msg.value.src.addr} else {})
      ensures paths[info.path].step == old(paths[info.path].step) + (if msg.Some? && !late then 1 else 0)
      ensures SiblingState() == if msg.Some? && !late
                                then OfferAll(visited, TakesAll(), old(SiblingState()), Named(msg.value))
                                else old(SiblingState())
      ensures paths[info.path].success <==> msg.Some? && !late && Answers(msg.value)
      ensures old(AnySuccess(paths)) || paths[info.path].success ==> AnySuccess(paths)
    {
      hide PathsOk, AllBooked, Work, SiblingsOk, PingsLeft, Live, LocalOk, WorkLeft, Steady, Answers, OfferAll, Named,
        Found, IdlePaths, Counts;
      ghost var before := paths;
      assert forall p: nat :: p < |before| ==> Live(S(), before[p]);
      PathHandle(info, msg, late, rest);
      SuccessStays(before, paths, info.path);
      CountPath(info.path, before);
      LiveUpdate(S(), before, paths, info.path);
    }

    /** Counts a path that has just finished. */
    method CountPath(p: nat, ghost before: seq<PathLookup>)
      requires p < |before| == |paths| && paths == before[p := paths[p]]
      requires !before[p].finished && !before[p].success && (paths[p].success ==> paths[p].finished)
      requires Counts(before, finishedPaths, successfulPaths, startFinished) && startFinished == IdlePaths()
      modifies this`finishedPaths, this`accumulatedHops, this`successfulPaths
      ensures CountersOk()
      ensures successfulPaths == old(successfulPaths) + if paths[p].success then 1 else 0
      ensures accumulatedHops == old(accumulatedHops) + if paths[p].finished then paths[p].hops else 0
    {
      hide IdlePaths;
      CountUpdate(before, p, paths[p]);
      if paths[p].finished {
        finishedPaths := finishedPaths + 1;
        accumulatedHops := accumulatedHops + paths[p].hops;
        if paths[p].success {
          successfulPaths := successfulPaths + 1;
        }
      }
    }
  }

  lemma SomePing(pings: map<nat, Addr>)
    requires pings != map[]
    ensures exists id :: id in pings
  {
  }

  /** A node is the one that looks up, or it answered for itself in one of these events, or the own answer of the node
      that looks up names it. */
  ghost predicate Authentic(h: NodeHandle, thisAddr: Addr, locally: set<NodeHandle>, events: seq<Event>) {
    h.addr == thisAddr || h in locally || HasAnswered(h.addr, events) || PingAnswered(h) in events
  }

  ghost predicate HasAnswered(addr: Addr, events: seq<Event>) {
    exists k :: 0 <= k < |events| && events[k].Answered? && events[k].taken.Some? && events[k].msg.src.addr == addr
  }

  /** Every lookup ends. An arbitrary scheduler lets one address or ping after the other answer or time
      out, with arbitrary answers; after finitely many events the lookup is over, its listener has been
      called once, and it was started at most retries + 1 times. The result is that of the nodes inserted in the last
      attempt, whose events are those from `began` on; and if siblings are verified, it holds authentic nodes only. */
  method RunLookup(lookup: IterativeLookup, retries: nat, answer: (nat, Addr) -> FindNodeResponse,
                   pong: nat -> NodeHandle)
      returns (ghost events: seq<Event>, ghost began: nat)
    requires lookup.Idle()
    requires forall n, a :: answer(n, a).src.addr == a
    requires forall n, a, h :: h in answer(n, a).closestNodes ==> h in lookup.universe
    requires forall n :: pong(n) in lookup.universe
    modifies lookup
    ensures lookup.Ended() && lookup.starts <= retries + 1
    ensures lookup.success && !lookup.config.verifySiblings ==> lookup.siblings != []
    ensures began <= |events| && forall k :: 0 <= k < |events| ==> FromOutside(events[k], k, answer, pong)
    ensures lookup.ResultOf(lookup.Met(lookup.LocallyOffered(), events[began..]).1)
    ensures !lookup.config.useAllParallelResponses && !lookup.config.acceptLateSiblings ==> OnePerStep(events[began..])
    ensures lookup.config.verifySiblings ==> forall h :: h in lookup.siblings ==>
              Authentic(h, lookup.thisNode.addr, lookup.LocallyAssured(), events[began..])
  {
    hide *;
    lookup.Lookup(retries);
    events, began := [], 0;
    var n := 0;
    KnownAtStart(lookup);
    NothingTaken(lookup.paths);
    while !lookup.deleted
      invariant lookup.Valid() && lookup.allowed == retries
      invariant n == |events| && began <= n && forall k :: 0 <= k < n ==> FromOutside(events[k], k, answer, pong)
      invariant Known(lookup, lookup.visited, lookup.offered, lookup.assured, lookup.LocallyOffered(), events[began..])
      invariant OnlyCurrentStep(lookup.config) ==>
                  OnePerStep(events[began..]) && (!lookup.deleted ==> AllBehind(events[began..], lookup.paths))
      decreases lookup.retries, if lookup.deleted then 0 else lookup.WorkLeft() + lookup.PingsLeft() + 1
    {
      ghost var left, visited, offered, assured := lookup.retries, lookup.visited, lookup.offered, lookup.assured;
      ghost var recent, paths, rpcs := events[began..], lookup.paths, lookup.rpcs;
      EndedIsDeleted(lookup);
      ghost var event := AnyEvent(lookup, (addr: Addr) => answer(n, addr), pong(n));
      EndedIsDeleted(lookup);
      EventFromOutside(event, n, answer, pong);
      events, n := events + [event], n + 1;
      if lookup.retries < left {
        began := n;
        KnownAtStart(lookup);
        assert events[began..] == [];
        NothingTaken(lookup.paths);
      } else {
        if OnlyCurrentStep(lookup.config) {
          ghost var infos := if event.Answered? then rpcs[event.msg.src.addr] else [];
          StepsGoOn(lookup, recent, event, paths, infos, lookup.paths);
        }
        KnownAfter(lookup, visited, offered, assured, lookup.LocallyOffered(), recent, event);
        assert events[began..] == recent + [event];
      }
    }
    EndedIsDeleted(lookup);
    OnlyCurrentStepIff(lookup.config);
    lookup.ResultIsOfOffered();
    OnlyAuthentic(lookup, events[began..]);
  }

  /** Answers and pongs are those of the network. */
  ghost predicate FromOutside(event: Event, n: nat, answer: (nat, Addr) -> FindNodeResponse, pong: nat -> NodeHandle) {
    && (event.Answered? ==> event.msg == answer(n, event.msg.src.addr))
    && (event.PingAnswered? ==> event.handle == pong(n))
  }

  /** A response in time is taken for a question of the path's present step, for any question if the configuration wants
      all answers, or if it is late but comes from a sibling; and it is taken if the first question of some unfinished
      path is one of these. */
  ghost predicate TakenIfDue(lookup: IterativeLookup, paths: seq<PathLookup>, infos: seq<RpcInfo>, event: Event)
    requires event.Answered?
  {
    && (event.taken.Some? ==>
          var info := event.taken.value;
          !event.late && info in infos && info.path < |paths| && !paths[info.path].finished
          && (lookup.config.useAllParallelResponses || info.vrpcId == paths[info.path].step
              || (event.msg.siblings && lookup.config.acceptLateSiblings)))
    && (event.taken.None? && !event.late ==>
          forall i: nat | i < |infos| && infos[i].path < |paths| && !paths[infos[i].path].finished ::
            (lookup.config.useAllParallelResponses || infos[i].vrpcId == paths[infos[i].path].step
             || (event.msg.siblings && lookup.config.acceptLateSiblings)) ==>
              exists j: nat :: j < i && infos[j].path == infos[i].path)
  }

  predicate IsTaken(event: Event) {
    event.Answered? && event.taken.Some?
  }

  /** The path that takes an answer is one step further, and no other path is. */
  ghost predicate StepsAfter(before: seq<PathLookup>, after: seq<PathLookup>, event: Event) {
    |after| == |before|
    && forall p: nat :: p < |after| ==>
         after[p].step == before[p].step + if IsTaken(event) && event.taken.value.path == p then 1 else 0
  }

  lemma StepsStay(paths: seq<PathLookup>, event: Event)
    ensures !IsTaken(event) ==> StepsAfter(paths, paths, event)
  {
  }

  /** Of the answers that one path takes, every next one was asked for at a later step: never two at one step. */
  ghost predicate OnePerStep(events: seq<Event>) {
    forall k, l | 0 <= k < l < |events| && IsTaken(events[k]) && IsTaken(events[l]) ::
      var (first, second) := (events[k].taken.value, events[l].taken.value);
      first.path == second.path ==> first.vrpcId < second.vrpcId
  }

  /** All answers taken so far were asked for before the present steps of their paths. */
  ghost predicate AllBehind(events: seq<Event>, paths: seq<PathLookup>) {
    forall k :: 0 <= k < |events| && IsTaken(events[k]) ==>
      var info := events[k].taken.value; info.path < |paths| && info.vrpcId < paths[info.path].step
  }

  predicate OnlyCurrentStep(c: Configuration) {
    !c.useAllParallelResponses && !c.acceptLateSiblings
  }

  lemma OnlyCurrentStepIff(c: Configuration)
    ensures OnlyCurrentStep(c) <==> !c.useAllParallelResponses && !c.acceptLateSiblings
  {
  }

  lemma NothingTaken(paths: seq<PathLookup>)
    ensures OnePerStep([]) && AllBehind([], paths)
  {
  }

  lemma StepsGoOn(lookup: IterativeLookup, events: seq<Event>, event: Event, before: seq<PathLookup>,
                  infos: seq<RpcInfo>, after: seq<PathLookup>)
    requires OnlyCurrentStep(lookup.config) && OnePerStep(events) && AllBehind(events, before)
    requires event.Answered? ==> TakenIfDue(lookup, before, infos, event)
    ensures OnePerStep(events + [event])
    ensures StepsAfter(before, after, event) ==> AllBehind(events + [event], after)
  {
    var longer := events + [event];
    assert longer[|events|] == event;
    if StepsAfter(before, after, event) {
      forall k | 0 <= k < |longer| && IsTaken(longer[k])
        ensures var info := longer[k].taken.value; info.path < |after| && info.vrpcId < after[info.path].step
      {
        assert k < |events| ==> longer[k] == events[k];
      }
    }
  }

  lemma EventFromOutside(event: Event, n: nat, answer: (nat, Addr) -> FindNodeResponse, pong: nat -> NodeHandle)
    requires event.PingAnswered? ==> event.handle == pong(n)
    requires event.Answered? ==> event.msg == answer(n, event.msg.src.addr)
    ensures FromOutside(event, n, answer, pong)
  {
  }

  /** Whatever comes next. */
  method AnyEvent(lookup: IterativeLookup, answer: Addr -> FindNodeResponse, pong: NodeHandle)
      returns (ghost event: Event)
    requires lookup.Waiting() && pong in lookup.universe
    requires forall a :: answer(a).src.addr == a && forall h :: h in answer(a).closestNodes ==> h in lookup.universe
    modifies lookup
    ensures lookup.Valid() && lookup.allowed == old(lookup.allowed) && lookup.retries <= old(lookup.retries)
    ensures lookup.Ended() || lookup.retries < old(lookup.retries)
            || lookup.WorkLeft() + lookup.PingsLeft() < old(lookup.WorkLeft() + lookup.PingsLeft())
    ensures lookup.retries < old(lookup.retries) ==> lookup.JustStarted()
    ensures lookup.retries == old(lookup.retries) ==> lookup.parallelPaths == old(lookup.parallelPaths)
    ensures lookup.retries == old(lookup.retries) ==>
              && lookup.visited == lookup.MetAfter(old(lookup.visited), old(lookup.offered), event).0
              && lookup.offered == lookup.MetAfter(old(lookup.visited), old(lookup.offered), event).1
              && lookup.assured == old(lookup.assured) + (if event.PingAnswered? then {event.handle} else {})
    ensures event.PingAnswered? ==> event.handle == pong && old(lookup.pendingPings) != map[]
    ensures event.Answered? ==> event.msg.src.addr in old(lookup.rpcs) && event.msg == answer(event.msg.src.addr)
    ensures event.Answered? ==> TakenIfDue(lookup, old(lookup.paths), old(lookup.rpcs[event.msg.src.addr]), event)
    ensures lookup.Waiting() && lookup.retries == old(lookup.retries) ==>
              StepsAfter(old(lookup.paths), lookup.paths, event)
  {
    hide IterativeLookup.Midway, IterativeLookup.SiblingsOk, IterativeLookup.PingsLeft, IterativeLookup.WorkLeft,
      IterativeLookup.JustStarted, IterativeLookup.FirstToAccept, IterativeLookup.WithSibling, IterativeLookup.OfferAll,
      IterativeLookup.Genuines, IterativeLookup.Named;
    var late: bool := *;
    var responds: bool := *;
    var prefersPing: bool := *;
    if lookup.rpcs != map[] && (lookup.pendingPings == map[] || !prefersPing) {
      var addr :| addr in lookup.rpcs;
      if responds {
        ghost var infos, state := lookup.rpcs[addr], lookup.SiblingState();
        var msg := answer(addr);
        ghost var taker := lookup.HandleFindNodeResponse(msg, late);
        lookup.GenuinesAreOffered(lookup.visited, lookup.TakesAll(), state, lookup.Named(msg));
        event := Answered(msg, late, if taker < |infos| && !late then Some(infos[taker]) else None);
      } else {
        lookup.HandleFindNodeTimeout(addr, late);
        event := TimedOut(addr);
      }
      return;
    }
    SomePing(lookup.pendingPings);
    var id :| id in lookup.pendingPings;
    if responds {
      lookup.HandlePingResponse(id, pong);
      event := PingAnswered(pong);
    } else {
      lookup.HandlePingTimeout(id);
      event := PingTimedOut(id);
    }
    StepsStay(old(lookup.paths), event);
  }

  /** What an attempt knows of others is what its events so far have told it. */
  ghost predicate Known(lookup: IterativeLookup, visited: set<Addr>, offered: seq<NodeHandle>, assured: set<NodeHandle>,
                        locally: seq<NodeHandle>, events: seq<Event>)
  {
    && (visited, offered) == lookup.Met(locally, events)
    && (forall a :: a in visited ==> a == lookup.thisNode.addr || HasAnswered(a, events))
    && (forall h :: h in assured ==> h in locally || PingAnswered(h) in events)
  }

  lemma KnownAtStart(lookup: IterativeLookup)
    requires lookup.JustStarted()
    ensures Known(lookup, lookup.visited, lookup.offered, lookup.assured, lookup.LocallyOffered(), [])
  {
  }

  lemma KnownAfter(lookup: IterativeLookup, visited: set<Addr>, offered: seq<NodeHandle>, assured: set<NodeHandle>,
                   locally: seq<NodeHandle>, events: seq<Event>, event: Event)
    requires Known(lookup, visited, offered, assured, locally, events)
    ensures var after := lookup.MetAfter(visited, offered, event);
            Known(lookup, after.0, after.1, assured + (if event.PingAnswered? then {event.handle} else {}), locally,
                  events + [event])
  {
    var longer := events + [event];
    assert longer[..|events|] == events && event in longer && longer[|events|] == event;
    forall a | HasAnswered(a, events)
      ensures HasAnswered(a, longer)
    {
      var k :| 0 <= k < |events| && events[k].Answered? && events[k].taken.Some? && events[k].msg.src.addr == a;
      assert longer[k] == events[k];
    }
  }

  lemma OnlyAuthentic(lookup: IterativeLookup, events: seq<Event>)
    requires lookup.SiblingsOk()
    requires Known(lookup, lookup.visited, lookup.offered, lookup.assured, lookup.LocallyOffered(), events)
    ensures lookup.config.verifySiblings ==> forall h :: h in lookup.siblings ==>
              Authentic(h, lookup.thisNode.addr, lookup.LocallyAssured(), events)
    ensures lookup.offered == lookup.Met(lookup.LocallyOffered(), events).1
  {
  }

  // ----- two runs

  lemma OneHop(redundantNodes: nat, distance: Key -> nat, node: NodeHandle)
    requires redundantNodes > 0 && Zoned(HopsConfig(redundantNodes, distance), [])
    ensures AddedHops(redundantNodes, distance, [], [node], None) == [LookupEntry(node, None, false)]
  {
    assert [node][..0] == [];
    assert AddedHops(redundantNodes, distance, [], [], None) == [];
  }

  /** A path that gets one node only may ask it exactly if that is not the node itself, or nodes may be visited
      again. */
  lemma AsksOneNode(lookup: IterativeLookup, nodes: seq<NodeHandle>, p: nat, n: nat)
    requires lookup.config.redundantNodes > 0 && lookup.config.parallelRpcs > 0
    requires p < |nodes| <= n
    ensures lookup.NobodyToAsk(nodes, p, n) <==> lookup.config.visitOnlyOnce && nodes[p].addr == lookup.thisNode.addr
  {
    NoHops(lookup.config.redundantNodes, lookup.distance);
    OneHop(lookup.config.redundantNodes, lookup.distance, nodes[p]);
    assert Dealt(nodes, p, n) == [nodes[p]];
    var hops := lookup.DealtHops(nodes, p, n);
    assert hops == [LookupEntry(nodes[p], None, false)] && lookup.Reach(hops) == 1 && hops[0].handle == nodes[p];
  }

  /** The counter of finished paths stays behind: of two paths the first one gets the node itself, which it may not
      visit again, and so finishes without being counted. Whatever the network answers, one of two paths is counted in
      the end. */
  method FinishedPathsStayBehind(config: Configuration, thisNode: NodeHandle, x: NodeHandle, key: Key,
                                 distance: Key -> nat, numSiblings: nat, ghost universe: set<NodeHandle>,
                                 answer: (nat, Addr) -> FindNodeResponse, pong: nat -> NodeHandle)
      returns (lookup: IterativeLookup)
    requires config.visitOnlyOnce && config.parallelPaths == 2 && config.parallelRpcs > 0 && config.redundantNodes > 0
    requires x.addr != thisNode.addr && numSiblings > 0 && {thisNode, x} <= universe
    requires forall n, a :: answer(n, a).src.addr == a
    requires forall n, a, h :: h in answer(n, a).closestNodes ==> h in universe
    requires forall n :: pong(n) in universe
    ensures fresh(lookup) && lookup.Ended() && lookup.parallelPaths == 2 && lookup.finishedPaths == 1
  {
    var nodes := [thisNode, x];
    lookup :=
        new IterativeLookup(config, thisNode, key, distance, numSiblings, 0, _ => LocalAnswer(nodes, false), universe);
    OneOfTwoIsIdle(lookup, nodes);
    hide *;
    lookup.Lookup(0);
    var n := 0;
    while !lookup.deleted
      invariant fresh(lookup) && lookup.Valid() && lookup.retries == 0 && lookup.parallelPaths == 2
      decreases if lookup.deleted then 0 else lookup.WorkLeft() + lookup.PingsLeft() + 1
    {
      EndedIsDeleted(lookup);
      ghost var _ := AnyEvent(lookup, (addr: Addr) => answer(n, addr), pong(n));
      EndedIsDeleted(lookup);
      n := n + 1;
    }
    CountedInTheEnd(lookup, nodes);
  }

  lemma EndedIsDeleted(lookup: IterativeLookup)
    requires lookup.Valid()
    ensures lookup.deleted <==> lookup.Ended()
    ensures !lookup.deleted <==> lookup.Waiting()
    ensures lookup.SiblingsOk() && lookup.starts + lookup.retries == lookup.allowed + 1
    ensures lookup.deleted && lookup.success && !lookup.config.verifySiblings ==> lookup.siblings != []
  {
  }

  lemma OneOfTwoIsIdle(lookup: IterativeLookup, nodes: seq<NodeHandle>)
    requires lookup.config.visitOnlyOnce && lookup.config.redundantNodes > 0 && lookup.config.parallelRpcs > 0
    requires |nodes| == 2 && nodes[0].addr == lookup.thisNode.addr && nodes[1].addr != lookup.thisNode.addr
    requires lookup.local(0) == LocalAnswer(nodes, false)
    ensures lookup.PathsFor(2, 0) == 2 && lookup.WillAsk(2, 0) && lookup.CountIdle(nodes, 2, 2) == 1
  {
    AsksOneNode(lookup, nodes, 0, 2);
    AsksOneNode(lookup, nodes, 1, 2);
    hide IterativeLookup.NobodyToAsk;
    assert lookup.CountIdle(nodes, 2, 1) == 1;
  }

  lemma CountedInTheEnd(lookup: IterativeLookup, nodes: seq<NodeHandle>)
    requires lookup.Ended() && lookup.numSiblings > 0 && lookup.parallelPaths == 2
    requires lookup.local(lookup.retries) == LocalAnswer(nodes, false)
    requires nodes != [] && lookup.CountIdle(nodes, 2, 2) == 1
    ensures lookup.finishedPaths == 1
  {
  }

  /** Success without a result: a path counts as successful although the sibling it was told of never authenticates.
      With verification there is such a run for every configuration that can ask anybody at all; RunLookup shows that
      there is none without. */
  method SuccessWithoutResult(config: Configuration, thisNode: NodeHandle, x: NodeHandle, y: NodeHandle, z: NodeHandle,
                              distance: Key -> nat, numSiblings: nat, retries: nat) returns (lookup: IterativeLookup)
    requires config.verifySiblings && config.parallelPaths > 0 && config.parallelRpcs > 0 && config.redundantNodes > 0
    requires x.addr != thisNode.addr && y.addr != thisNode.addr && z.addr != thisNode.addr && y.addr != z.addr
    requires y.key == z.key
    ensures fresh(lookup) && lookup.config == config && lookup.numSiblings == numSiblings
    ensures lookup.Ended() && lookup.success && lookup.siblings == []
  {
    lookup :=
        new IterativeLookup(config, thisNode, y.key, distance, numSiblings, 0, _ => LocalAnswer([x], false),
                            {thisNode, x, y, z});
    WillAskOne(lookup, x, retries);
    hide *;
    lookup.Lookup(retries);
    AnswerOnce(lookup, x, y, z);
    TimeOutAll(lookup);
  }

  /** Somebody answers as a sibling, and names one that has not been met. */
  method AnswerOnce(lookup: IterativeLookup, x: NodeHandle, y: NodeHandle, z: NodeHandle)
    requires lookup.Waiting() && lookup.JustStarted() && lookup.PathsJustSent([x]) && lookup.parallelPaths == 1
    requires lookup.config.redundantNodes > 0 && lookup.config.parallelRpcs > 0 && lookup.config.verifySiblings
    requires x.addr != lookup.thisNode.addr && lookup.local(lookup.retries) == LocalAnswer([x], false)
    requires {y, z} <= lookup.universe
    requires y.addr != lookup.thisNode.addr && z.addr != lookup.thisNode.addr && y.addr != z.addr
    requires y.key == z.key == lookup.key
    modifies lookup
    ensures lookup.Valid() && lookup.Succeeds() && lookup.siblings == []
  {
    hide *;
    SomeoneWaits(lookup, x);
    var addr :| addr in lookup.rpcs && lookup.rpcs[addr] != [];
    var sibling := if y.addr != addr then y else z;
    var msg := FindNodeResponse(NodeHandle(0, addr), [sibling], true);
    ghost var infos, paths := lookup.rpcs[addr], lookup.paths;
    SameFound(lookup);
    assert sibling in lookup.universe;
    ghost var taker := lookup.HandleFindNodeResponse(msg, false);
    FirstTakes(lookup, paths, infos, msg, taker);
    AnswersAlone(lookup, msg);
    SameFound(lookup);
    OfferedInVain(lookup, lookup.visited, msg);
  }

  lemma SameFound(lookup: IterativeLookup)
    ensures lookup.SiblingState().found == lookup.siblings
  {
  }

  lemma WillAskOne(lookup: IterativeLookup, x: NodeHandle, retries: nat)
    requires lookup.config.redundantNodes > 0 && lookup.config.parallelRpcs > 0 && lookup.parallelPaths > 0
    requires x.addr != lookup.thisNode.addr && lookup.local(retries) == LocalAnswer([x], false)
    ensures lookup.PathsFor(lookup.parallelPaths, retries) == 1 && lookup.WillAsk(lookup.parallelPaths, retries)
  {
    AsksOneNode(lookup, [x], 0, 1);
  }

  /** After the start, the only path waits for whatever comes from an address that was asked. */
  lemma SomeoneWaits(lookup: IterativeLookup, x: NodeHandle)
    requires lookup.Waiting() && lookup.JustStarted() && lookup.PathsJustSent([x]) && lookup.parallelPaths == 1
    requires lookup.config.redundantNodes > 0 && lookup.config.parallelRpcs > 0
    requires x.addr != lookup.thisNode.addr && lookup.local(lookup.retries) == LocalAnswer([x], false)
    ensures exists addr :: addr in lookup.rpcs && lookup.rpcs[addr] != []
    ensures forall addr, msg :: addr in lookup.rpcs && lookup.rpcs[addr] != [] ==>
            lookup.WaitsFor(lookup.paths, lookup.rpcs[addr][0], msg)
    ensures lookup.visited == {lookup.thisNode.addr} && lookup.siblings == []
  {
    hide IterativeLookup.SiblingsOk;
    var path := lookup.paths[0];
    AsksOneNode(lookup, [x], 0, 1);
    lookup.FinishedIfIdle([x], 0, path);
    lookup.FoundMeansSome();
    assert Live(lookup.S(), path) && Booked(path, 0, lookup.rpcs, []);
    assert |Tickets(lookup.rpcs, 0)| > 0;
    var ticket :| ticket in Tickets(lookup.rpcs, 0);
    assert lookup.rpcs[ticket.0] != [];
    forall addr, msg | addr in lookup.rpcs && lookup.rpcs[addr] != []
      ensures lookup.WaitsFor(lookup.paths, lookup.rpcs[addr][0], msg)
    {
      assert lookup.rpcs[addr][0] in lookup.rpcs[addr];
      assert path.step == 0;
    }
  }

  lemma FirstTakes(lookup: IterativeLookup, paths: seq<PathLookup>, infos: seq<RpcInfo>, msg: FindNodeResponse,
                   taker: nat)
    requires lookup.FirstToAccept(paths, infos, msg, taker) && infos != [] && lookup.WaitsFor(paths, infos[0], msg)
    ensures taker < |infos|
  {
  }

  lemma AnswersAlone(lookup: IterativeLookup, msg: FindNodeResponse)
    requires msg.siblings && |msg.closestNodes| == 1 && msg.closestNodes[0].key == lookup.key
    ensures lookup.Answers(msg)
  {
    assert msg.closestNodes[0] in msg.closestNodes;
  }

  /** A sibling that has not been met may be pinged, but is not taken in. */
  lemma OfferedInVain(lookup: IterativeLookup, visited: set<Addr>, msg: FindNodeResponse)
    requires lookup.config.verifySiblings && msg.siblings && |msg.closestNodes| == 1
    requires msg.closestNodes[0].key == lookup.key && msg.closestNodes[0].addr !in visited
    ensures forall takesAll, s: Siblings :: lookup.OfferAll(visited, takesAll, s, lookup.Named(msg)).found == s.found
  {
    assert lookup.Named(msg) == msg.closestNodes && msg.closestNodes[..0] == []
        && msg.closestNodes[0] in msg.closestNodes;
  }

  /** From now on nobody answers. */
  method TimeOutAll(lookup: IterativeLookup)
    requires lookup.Valid() && lookup.Succeeds()
    modifies lookup
    ensures lookup.Ended() && lookup.success && lookup.siblings == old(lookup.siblings)
  {
    hide IterativeLookup.Midway, IterativeLookup.SiblingsOk, IterativeLookup.PingsLeft, IterativeLookup.WorkLeft,
      IterativeLookup.FinalCount, IterativeLookup.Settles, IterativeLookup.JustStarted, AnySuccess;
    while !lookup.deleted
      invariant lookup.Valid() && lookup.Succeeds() && lookup.siblings == old(lookup.siblings)
      decreases if lookup.deleted then 0 else lookup.WorkLeft() + lookup.PingsLeft() + 1
    {
      if lookup.rpcs != map[] {
        var addr :| addr in lookup.rpcs;
        lookup.HandleFindNodeTimeout(addr, false);
      } else {
        SomePing(lookup.pendingPings);
        var id :| id in lookup.pendingPings;
        lookup.HandlePingTimeout(id);
      }
    }
  }
}
