/** The call-path section of a context: a budgeted depth-first search over the subgraph's `calls` edges. */
module CallPaths {

  type Id = string

  datatype Edge = Edge(source: Id, target: Id, kind: string)

  type Chain = seq<Id>

  const MAX_HOPS := 6
  const MIN_CHAIN := 3
  const DFS_BUDGET := 2000
  const MAX_STARTS := 5

  /** The adjacency map in key-insertion order, as a JavaScript `Map` keeps it. */
  datatype Adjacency = Adjacency(keys: seq<Id>, next: map<Id, seq<Id>>) {
    function Targets(id: Id): seq<Id> {
      if id in next then next[id] else []
    }

    ghost predicate Valid() {
      forall k :: k in keys <==> k in next
    }
  }

  ghost predicate IsCall(edges: seq<Edge>, nodes: set<Id>, a: Id, b: Id) {
    a in nodes && b in nodes && exists e :: e in edges && e.kind == "calls" && e.source == a && e.target == b
  }

  ghost predicate CallAt(edges: seq<Edge>, nodes: set<Id>, p: nat, a: Id) {
    p < |edges| && edges[p].kind == "calls" && edges[p].source == a && a in nodes && edges[p].target in nodes
  }

  /** The first call of `a` comes before any call of `c`. */
  ghost predicate CallsFirst(edges: seq<Edge>, nodes: set<Id>, a: Id, c: Id) {
    exists p: nat :: CallAt(edges, nodes, p, a) && forall q: nat | CallAt(edges, nodes, q, c) :: p < q
  }

  ghost predicate InCallOrder(edges: seq<Edge>, nodes: set<Id>, keys: seq<Id>) {
    forall i, j | 0 <= i < j < |keys| :: CallsFirst(edges, nodes, keys[i], keys[j])
  }

  /** Further calls of known callers do not change the order, and a new caller is the last one. */
  lemma OrderGrows(edges: seq<Edge>, e: Edge, nodes: set<Id>, keys: seq<Id>)
    requires InCallOrder(edges, nodes, keys)
    requires forall a :: a in keys <==> HasCall(edges, nodes, a)
    ensures InCallOrder(edges + [e], nodes, keys)
    ensures e.source !in keys ==> InCallOrder(edges + [e], nodes, keys + [e.source])
  {
    var more := edges + [e];
    assert forall p: nat, a | p < |edges| :: CallAt(edges, nodes, p, a) <==> CallAt(more, nodes, p, a);
    forall i, c | 0 <= i < |keys| && (c !in keys || (exists j :: i < j < |keys| && keys[j] == c))
      ensures CallsFirst(more, nodes, keys[i], c)
    {
      if c in keys {
        var p: nat :| CallAt(edges, nodes, p, keys[i]) && forall q: nat | CallAt(edges, nodes, q, c) :: p < q;
        assert CallAt(more, nodes, p, keys[i]);
      } else {
        assert keys[i] in keys;
        var p: nat :| CallAt(edges, nodes, p, keys[i]);
        assert CallAt(more, nodes, p, keys[i]);
        assert forall q: nat | q < |edges| :: !CallAt(edges, nodes, q, c);
      }
    }
  }

  ghost predicate HasCall(edges: seq<Edge>, nodes: set<Id>, a: Id) {
    exists p: nat :: CallAt(edges, nodes, p, a)
  }

  lemma MoreCalls(edges: seq<Edge>, e: Edge, nodes: set<Id>, a: Id)
    ensures HasCall(edges + [e], nodes, a) <==>
            HasCall(edges, nodes, a) || (e.kind == "calls" && e.source == a && a in nodes && e.target in nodes)
  {
    var more := edges + [e];
    assert CallAt(more, nodes, |edges|, a) <==> e.kind == "calls" && e.source == a && a in nodes && e.target in nodes;
    if p: nat :| CallAt(more, nodes, p, a) && p != |edges| {
      assert CallAt(edges, nodes, p, a);
    }
    if p: nat :| CallAt(edges, nodes, p, a) {
      assert CallAt(more, nodes, p, a);
    }
  }

  lemma NoCalls(nodes: set<Id>)
    ensures forall a :: !HasCall([], nodes, a)
    ensures forall a, b :: !IsCall([], nodes, a, b)
    ensures InCallOrder([], nodes, [])
  {
  }

  lemma OneMoreEdge(edges: seq<Edge>, e: Edge, nodes: set<Id>, a: Id, b: Id)
    ensures IsCall(edges + [e], nodes, a, b) <==>
            IsCall(edges, nodes, a, b)
            || (a in nodes && b in nodes && e.kind == "calls" && e.source == a && e.target == b)
  {
    if IsCall(edges, nodes, a, b) {
      var f :| f in edges && f.kind == "calls" && f.source == a && f.target == b;
      assert f in edges + [e];
    }
    assert e in edges + [e];
  }

  /** Collects the `calls` edges whose two ends are both in the subgraph. */
  method BuildAdjacency(edges: seq<Edge>, nodes: set<Id>) returns (adj: Adjacency)
    ensures adj.Valid()
    ensures forall a, b :: b in adj.Targets(a) <==> IsCall(edges, nodes, a, b)
    ensures forall a :: a in adj.keys <==> exists b :: IsCall(edges, nodes, a, b)
    ensures InCallOrder(edges, nodes, adj.keys)
  {
    hide CallAt, HasCall, InCallOrder, IsCall;
    NoCalls(nodes);
    var keys: seq<Id>, next: map<Id, seq<Id>> := [], map[];
    for i := 0 to |edges|
      invariant forall k :: k in keys <==> k in next
      invariant forall k :: k in next ==> |next[k]| > 0
      invariant forall a :: a in keys <==> HasCall(edges[..i], nodes, a)
      invariant InCallOrder(edges[..i], nodes, keys)
      invariant forall a, b :: b in Adjacency(keys, next).Targets(a) <==> IsCall(edges[..i], nodes, a, b)
    {
      var e := edges[i];
      assert edges[..i + 1] == edges[..i] + [e];
      forall a, b {
        OneMoreEdge(edges[..i], e, nodes, a, b);
      }
      OrderGrows(edges[..i], e, nodes, keys);
      forall a
        ensures HasCall(edges[..i + 1], nodes, a) <==>
                HasCall(edges[..i], nodes, a) || (e.kind == "calls" && e.source == a && a in nodes && e.target in nodes)
      {
        MoreCalls(edges[..i], e, nodes, a);
      }
      if e.kind != "calls" || e.source !in nodes || e.target !in nodes {
        continue;
      }
      if e.source in next {
        next := next[e.source := next[e.source] + [e.target]];
      } else {
        keys := keys + [e.source];
        next := next[e.source := [e.target]];
      }
    }
    assert edges[..|edges|] == edges;
    adj := Adjacency(keys, next);
    forall a
      ensures a in adj.keys <==> exists b :: IsCall(edges, nodes, a, b)
    {
      if a in adj.keys {
        assert adj.Targets(a)[0] in adj.Targets(a);
      }
      assert forall b :: IsCall(edges, nodes, a, b) ==> b in adj.Targets(a);
    }
  }

  // ----- What the search is for -----

  ghost predicate NoRepeats(p: Chain) {
    forall i, j | 0 <= i < j < |p| :: p[i] != p[j]
  }

  ghost predicate Follows(adj: Adjacency, p: Chain, i: nat)
    requires i + 1 < |p|
  {
    p[i + 1] in adj.Targets(p[i])
  }

  /** A simple path of `calls` edges. */
  ghost predicate SimplePath(adj: Adjacency, p: Chain) {
    |p| > 0 && NoRepeats(p) && forall i | 0 <= i < |p| - 1 :: Follows(adj, p, i)
  }

  /** Nothing can be appended: the path is at the hop cap or every callee of its last node is already on it. */
  ghost predicate Complete(adj: Adjacency, p: Chain)
    requires |p| > 0
  {
    |p| >= 6 || forall t | t in adj.Targets(p[|p| - 1]) :: t in p
  }

  /** A chain the search reports: a complete simple path of three to six nodes. */
  ghost predicate Flow(adj: Adjacency, p: Chain) {
    3 <= |p| <= 6 && SimplePath(adj, p) && Complete(adj, p)
  }

  /** The flows that extend `path` (`path` itself included). */
  ghost predicate FlowBelow(adj: Adjacency, path: Chain, c: Chain) {
    path <= c && Flow(adj, c)
  }

  lemma ExtendSimple(adj: Adjacency, p: Chain, t: Id)
    requires SimplePath(adj, p) && t in adj.Targets(p[|p| - 1]) && t !in p
    ensures SimplePath(adj, p + [t])
  {
    var q := p + [t];
    forall i | 0 <= i < |q| - 1
      ensures Follows(adj, q, i)
    {
      if i < |p| - 1 {
        assert Follows(adj, p, i);
      }
    }
  }

  /** A flow that goes beyond `path` goes on through some callee of its last node not yet on the path. */
  lemma FlowGoesOn(adj: Adjacency, path: Chain, c: Chain)
    requires |path| > 0 && FlowBelow(adj, path, c) && |c| > |path|
    ensures c[|path|] in adj.Targets(path[|path| - 1]) && c[|path|] !in path
    ensures path + [c[|path|]] <= c
  {
    assert Follows(adj, c, |path| - 1);
    assert forall i | 0 <= i < |path| :: path[i] == c[i];
  }

  function Unseen(targets: seq<Id>, seen: set<Id>): (r: seq<Id>)
    ensures forall t :: t in r <==> t in targets && t !in seen
  {
    if targets == [] then []
    else (if targets[0] in seen then [] else [targets[0]]) + Unseen(targets[1..], seen)
  }

  ghost function NotBelowZero(n: int): nat {
    if n < 0 then 0 else n
  }

  /** The closure variables the recursive search shares: the remaining budget, the nodes on the current path
      and the chains found. `calls` and `worked` only observe it: how many calls were made, and how many of
      them got past the budget guard. */
  class Search {
    const adj: Adjacency
    var budget: int
    var seen: set<Id>
    var chains: seq<Chain>
    ghost var worked: nat

    constructor (adj: Adjacency)
      ensures this.adj == adj && budget == DFS_BUDGET && seen == {} && chains == [] && worked == 0
    {
      this.adj := adj;
      budget := DFS_BUDGET;
      seen := {};
      chains := [];
      worked := 0;
    }

    method Dfs(id: Id, path: Chain)
      requires SimplePath(adj, path) && |path| <= MAX_HOPS && path[|path| - 1] == id
      requires seen == set n | n in path
      modifies this`budget, this`seen, this`chains, this`worked
      ensures seen == old(seen)
      ensures old(chains) <= chains
      ensures forall k | |old(chains)| <= k < |chains| :: FlowBelow(adj, path, chains[k])
      ensures budget < old(budget)
      ensures budget >= 0 ==> forall c | FlowBelow(adj, path, c) :: c in chains
      ensures worked - old(worked) == NotBelowZero(old(budget)) - NotBelowZero(budget)
      decreases MAX_HOPS - |path|
    {
      budget := budget - 1;
      if budget + 1 <= 0 {
        return;
      }
      worked := worked + 1;
      var next := Unseen(adj.Targets(id), seen);
      if next == [] || |path| >= MAX_HOPS {
        assert Complete(adj, path);
        if |path| >= MIN_CHAIN {
          chains := chains + [path];
          assert chains[|chains| - 1] == path;
        }
        forall c | FlowBelow(adj, path, c)
          ensures c in chains
        {
          if |c| > |path| {
            FlowGoesOn(adj, path, c);
            assert false;
          }
          assert c == path;
        }
        return;
      }
      for k := 0 to |next|
        invariant seen == old(seen)
        invariant old(chains) <= chains
        invariant forall m | |old(chains)| <= m < |chains| :: FlowBelow(adj, path, chains[m])
        invariant budget < old(budget)
        invariant budget >= 0 ==> forall j, c | 0 <= j < k && FlowBelow(adj, path + [next[j]], c) :: c in chains
        invariant worked - old(worked) == NotBelowZero(old(budget)) - NotBelowZero(budget)
      {
        var t := next[k];
        ExtendSimple(adj, path, t);
        ghost var before := chains;
        seen := seen + {t};
        Dfs(t, path + [t]);
        seen := seen - {t};
        assert forall c | c in before :: c in chains;
        assert forall c | FlowBelow(adj, path + [t], c) :: path <= c;
      }
      assert !Complete(adj, path) by {
        assert next[0] in next;
      }
      forall c | budget >= 0 && FlowBelow(adj, path, c)
        ensures c in chains
      {
        assert c != path;
        FlowGoesOn(adj, path, c);
        assert c[|path|] in next;
        var j :| 0 <= j < |next| && next[j] == c[|path|];
        assert FlowBelow(adj, path + [next[j]], c);
      }
    }
  }

  // ----- Searching from every start -----

  function WithCalls(adj: Adjacency, roots: seq<Id>): (r: seq<Id>)
    ensures forall id :: id in r <==> id in roots && id in adj.next
  {
    if roots == [] then []
    else (if roots[0] in adj.next then [roots[0]] else []) + WithCalls(adj, roots[1..])
  }

  /** The roots that call something, or every caller when there are no roots; five at most. */
  function Starts(adj: Adjacency, roots: seq<Id>): seq<Id> {
    var all := if |roots| > 0 then WithCalls(adj, roots) else adj.keys;
    if |all| <= MAX_STARTS then all else all[..MAX_STARTS]
  }

  // ----- Where a search starts -----

  ghost predicate Calls(edges: seq<Edge>, nodes: set<Id>, a: Id) {
    exists b :: IsCall(edges, nodes, a, b)
  }

  /** One of the first five of the listed roots that call something. */
  ghost predicate EarlyRoot(edges: seq<Edge>, nodes: set<Id>, roots: seq<Id>, s: Id) {
    exists i :: 0 <= i < |roots| && roots[i] == s && Calls(edges, nodes, s) && CallersIn(edges, nodes, roots[..i]) < 5
  }

  /** How many places of a list hold ids that call something. */
  ghost function CallersIn(edges: seq<Edge>, nodes: set<Id>, ids: seq<Id>): nat {
    |set j | 0 <= j < |ids| && Calls(edges, nodes, ids[j])|
  }

  /** One of the first five callers, in the order of their first call. */
  ghost predicate EarlyCaller(edges: seq<Edge>, nodes: set<Id>, s: Id) {
    Calls(edges, nodes, s) &&
    |set a | a in nodes && a != s && Calls(edges, nodes, a) && CallsFirst(edges, nodes, a, s)| < 5
  }

  /** With roots, the search starts from roots; without any, from callers. */
  ghost predicate IsStart(edges: seq<Edge>, nodes: set<Id>, roots: seq<Id>, s: Id) {
    if roots != [] then EarlyRoot(edges, nodes, roots, s) else EarlyCaller(edges, nodes, s)
  }

  /** What the adjacency map says of the edges it was built from. */
  ghost predicate Describes(adj: Adjacency, edges: seq<Edge>, nodes: set<Id>) {
    && adj.Valid()
    && (forall a, b :: b in adj.Targets(a) <==> IsCall(edges, nodes, a, b))
    && (forall a :: a in adj.keys <==> Calls(edges, nodes, a))
    && InCallOrder(edges, nodes, adj.keys)
  }

  lemma {:induction false} WithCallsPrefix(adj: Adjacency, roots: seq<Id>, i: nat)
    requires i <= |roots|
    ensures WithCalls(adj, roots) == WithCalls(adj, roots[..i]) + WithCalls(adj, roots[i..])
  {
    if i > 0 {
      assert roots[..i][1..] == roots[1..][..i - 1] && roots[1..][i - 1..] == roots[i..];
      WithCallsPrefix(adj, roots[1..], i - 1);
    } else {
      assert roots[..0] == [] && roots[0..] == roots;
    }
  }

  lemma WithCallsOne(adj: Adjacency, root: Id)
    ensures WithCalls(adj, [root]) == if root in adj.next then [root] else []
  {
    assert [root][1..] == [];
  }

  lemma CallersInOne(edges: seq<Edge>, nodes: set<Id>, ids: seq<Id>, id: Id)
    ensures CallersIn(edges, nodes, ids + [id]) == CallersIn(edges, nodes, ids) + if Calls(edges, nodes, id) then 1 else 0
  {
    hide Calls;
    var before := set j | 0 <= j < |ids| && Calls(edges, nodes, ids[j]);
    var here := set j | 0 <= j < |ids + [id]| && Calls(edges, nodes, (ids + [id])[j]);
    assert here == before + if Calls(edges, nodes, id) then {|ids|} else {};
  }

  lemma {:induction false} WithCallsCounts(adj: Adjacency, edges: seq<Edge>, nodes: set<Id>, roots: seq<Id>)
    requires Describes(adj, edges, nodes)
    ensures |WithCalls(adj, roots)| == CallersIn(edges, nodes, roots)
    decreases |roots|
  {
    if roots == [] {
      assert CallersIn(edges, nodes, []) == 0;
    } else {
      hide Calls, CallersIn, WithCalls, InCallOrder, IsCall;
      var i := |roots| - 1;
      assert roots == roots[..i] + [roots[i]] && roots[i..] == [roots[i]];
      CallersInOne(edges, nodes, roots[..i], roots[i]);
      WithCallsCounts(adj, edges, nodes, roots[..i]);
      WithCallsPrefix(adj, roots, i);
      WithCallsOne(adj, roots[i]);
      assert roots[i] in adj.keys <==> Calls(edges, nodes, roots[i]);
    }
  }

  /** The roots searched from. */
  lemma StartsAreEarlyRoots(adj: Adjacency, edges: seq<Edge>, nodes: set<Id>, roots: seq<Id>, s: Id)
    requires Describes(adj, edges, nodes) && roots != []
    ensures s in Starts(adj, roots) <==> EarlyRoot(edges, nodes, roots, s)
  {
    hide Calls, CallersIn, WithCalls;
    var all := WithCalls(adj, roots);
    forall i | 0 <= i < |roots| && Calls(edges, nodes, roots[i])
      ensures var at := CallersIn(edges, nodes, roots[..i]);
              at < |all| && all[at] == roots[i]
    {
      RootPlace(adj, edges, nodes, roots, i);
    }
    if EarlyRoot(edges, nodes, roots, s) {
      var i :| 0 <= i < |roots| && roots[i] == s && Calls(edges, nodes, s) && CallersIn(edges, nodes, roots[..i]) < 5;
      assert Starts(adj, roots)[CallersIn(edges, nodes, roots[..i])] == s;
    }
    if s in Starts(adj, roots) {
      var at :| 0 <= at < |Starts(adj, roots)| && Starts(adj, roots)[at] == s;
      RootAt(adj, edges, nodes, roots, at);
    }
  }

  lemma RootPlace(adj: Adjacency, edges: seq<Edge>, nodes: set<Id>, roots: seq<Id>, i: nat)
    requires Describes(adj, edges, nodes) && i < |roots| && Calls(edges, nodes, roots[i])
    ensures var all, at := WithCalls(adj, roots), CallersIn(edges, nodes, roots[..i]);
            at < |all| && all[at] == roots[i]
  {
    hide Calls, CallersIn;
    WithCallsPrefix(adj, roots, i);
    WithCallsCounts(adj, edges, nodes, roots[..i]);
    assert roots[i..][0] == roots[i] && roots[i] in adj.keys;
  }

  /** Every place of the filtered list is that of some root. */
  lemma {:induction false} RootAt(adj: Adjacency, edges: seq<Edge>, nodes: set<Id>, roots: seq<Id>, at: nat)
    requires Describes(adj, edges, nodes) && at < |WithCalls(adj, roots)|
    ensures exists i :: 0 <= i < |roots| && roots[i] == WithCalls(adj, roots)[at] && Calls(edges, nodes, roots[i])
                        && CallersIn(edges, nodes, roots[..i]) == at
  {
    hide Calls, CallersIn, WithCalls;
    var i := FilteredFrom(adj, roots, at);
    WithCallsCounts(adj, edges, nodes, roots[..i]);
    assert roots[i] in adj.keys;
  }

  lemma {:induction false} FilteredFrom(adj: Adjacency, roots: seq<Id>, at: nat) returns (i: nat)
    requires at < |WithCalls(adj, roots)|
    ensures i < |roots| && roots[i] == WithCalls(adj, roots)[at] && |WithCalls(adj, roots[..i])| == at && roots[i] in adj.next
  {
    var first := if roots[0] in adj.next then 1 else 0;
    if at < first {
      i := 0;
    } else {
      var k := FilteredFrom(adj, roots[1..], at - first);
      i := k + 1;
      assert roots[..i][1..] == roots[1..][..k] && roots[..i][0] == roots[0];
    }
  }

  /** The callers searched from when there are no roots. */
  lemma StartsAreEarlyCallers(adj: Adjacency, edges: seq<Edge>, nodes: set<Id>, s: Id)
    requires Describes(adj, edges, nodes)
    ensures s in Starts(adj, []) <==> EarlyCaller(edges, nodes, s)
  {
    hide Calls;
    if s in adj.keys {
      var i :| 0 <= i < |adj.keys| && adj.keys[i] == s;
      CallerPlace(adj, edges, nodes, i);
      if s in Starts(adj, []) {
        var j :| 0 <= j < |Starts(adj, [])| && Starts(adj, [])[j] == s;
        CallerPlace(adj, edges, nodes, j);
      }
      assert i < 5 ==> Starts(adj, [])[i] == s;
    }
  }

  /** A caller's place is how many callers call first. */
  lemma CallerPlace(adj: Adjacency, edges: seq<Edge>, nodes: set<Id>, i: nat)
    requires Describes(adj, edges, nodes) && i < |adj.keys|
    ensures var s := adj.keys[i];
            |set a | a in nodes && a != s && Calls(edges, nodes, a) && CallsFirst(edges, nodes, a, s)| == i
  {
    hide Calls, CallsFirst;
    var s := adj.keys[i];
    var earlier := set a | a in nodes && a != s && Calls(edges, nodes, a) && CallsFirst(edges, nodes, a, s);
    forall a
      ensures a in earlier <==> a in adj.keys[..i]
    {
      if a in adj.keys[..i] {
        var k :| 0 <= k < i && adj.keys[k] == a;
        KeysDiffer(adj, edges, nodes, k, i);
      } else if a in adj.keys && a != s {
        var k :| 0 <= k < |adj.keys| && adj.keys[k] == a;
        NotBothFirst(edges, nodes, s, a);
      }
    }
    assert earlier == set a | a in adj.keys[..i];
    forall k, m | 0 <= k < m < i
      ensures adj.keys[..i][k] != adj.keys[..i][m]
    {
      KeysDiffer(adj, edges, nodes, k, m);
    }
    DistinctSize(adj.keys[..i]);
  }

  lemma KeysDiffer(adj: Adjacency, edges: seq<Edge>, nodes: set<Id>, k: nat, i: nat)
    requires Describes(adj, edges, nodes) && k < i < |adj.keys|
    ensures adj.keys[k] != adj.keys[i] && adj.keys[k] in nodes && Calls(edges, nodes, adj.keys[k])
    ensures CallsFirst(edges, nodes, adj.keys[k], adj.keys[i])
  {
    var a := adj.keys[k];
    assert a in adj.keys;
    assert CallsFirst(edges, nodes, a, adj.keys[i]);
    assert !CallsFirst(edges, nodes, a, a);
  }

  lemma NotBothFirst(edges: seq<Edge>, nodes: set<Id>, a: Id, c: Id)
    requires CallsFirst(edges, nodes, a, c)
    ensures !CallsFirst(edges, nodes, c, a)
  {
    var p: nat :| CallAt(edges, nodes, p, a) && forall q: nat | CallAt(edges, nodes, q, c) :: p < q;
  }

  lemma {:induction false} DistinctSize(s: seq<Id>)
    requires NoRepeats(s)
    ensures |set a | a in s| == |s|
  {
    if s != [] {
      assert NoRepeats(s[1..]);
      DistinctSize(s[1..]);
      assert (set a | a in s) == {s[0]} + set a | a in s[1..];
      assert s[0] !in s[1..];
    }
  }

  lemma StartsAreRight(adj: Adjacency, edges: seq<Edge>, nodes: set<Id>, roots: seq<Id>, s: Id)
    requires Describes(adj, edges, nodes)
    ensures s in Starts(adj, roots) <==> IsStart(edges, nodes, roots, s)
  {
    hide Starts, EarlyRoot, EarlyCaller;
    if roots != [] {
      StartsAreEarlyRoots(adj, edges, nodes, roots, s);
    } else {
      StartsAreEarlyCallers(adj, edges, nodes, s);
    }
  }

  ghost predicate FlowFrom(adj: Adjacency, starts: seq<Id>, c: Chain) {
    Flow(adj, c) && c[0] in starts
  }

  /** All searches share one budget: the first 2000 calls do work, and no other. When no call was refused, the chains
      are exactly the flows from the first five roots that call something, or from the first five callers. */
  method FindChains(adj: Adjacency, roots: seq<Id>, ghost edges: seq<Edge>, ghost nodes: set<Id>)
    returns (chains: seq<Chain>, budgetLeft: int, ghost worked: nat)
    requires Describes(adj, edges, nodes)
    ensures forall c | c in chains :: Flow(adj, c) && IsStart(edges, nodes, roots, c[0])
    ensures budgetLeft >= 0 ==> forall c | Flow(adj, c) && IsStart(edges, nodes, roots, c[0]) :: c in chains
    ensures worked == 2000 - NotBelowZero(budgetLeft)
  {
    hide Starts, IsStart, Describes;
    var search := new Search(adj);
    var starts := Starts(adj, roots);
    for k := 0 to |starts|
      invariant search.adj == adj
      invariant forall m | 0 <= m < |search.chains| :: FlowFrom(adj, starts, search.chains[m])
      invariant search.budget >= 0 ==> forall c | FlowFrom(adj, starts[..k], c) :: c in search.chains
      invariant search.worked == 2000 - NotBelowZero(search.budget)
    {
      var s := starts[k];
      ghost var before := search.chains;
      search.seen := {s};
      search.Dfs(s, [s]);
      assert forall c | c in before :: c in search.chains;
      forall c | search.budget >= 0 && FlowFrom(adj, starts[..k + 1], c)
        ensures c in search.chains
      {
        if c[0] in starts[..k] {
          assert FlowFrom(adj, starts[..k], c);
        } else {
          assert c[0] == s;
          assert FlowBelow(adj, [s], c);
        }
      }
    }
    assert starts[..|starts|] == starts;
    forall s ensures s in starts <==> IsStart(edges, nodes, roots, s) {
      StartsAreRight(adj, edges, nodes, roots, s);
    }
    return search.chains, search.budget, search.worked;
  }
}
