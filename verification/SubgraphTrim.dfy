/** The tail of context search: a subgraph cut down to its budgets, closed under its edges, and reconnected. A map of
    nodes in insertion order is the table of all nodes and the sequence of the ids still in it. */
module SubgraphTrim {

  type Id = string

  /** `test` says whether the node's file counts as a test file. */
  datatype Node = Node(kind: string, file: string, test: bool)

  datatype Edge = Edge(source: Id, target: Id, kind: string, line: nat)

  // ----- Selections of an ordered map -----

  /** The conditions ids are selected by. */
  datatype Pick =
    | Among(ids: seq<Id>)
    | Except(ids: seq<Id>)
    | InFile(file: string)
    | InTests
    | WithRank(roots: seq<Id>, rank: nat)

  predicate Admits(t: map<Id, Node>, p: Pick, id: Id) {
    match p
    case Among(ids) => id in ids
    case Except(ids) => id !in ids
    case InFile(file) => id in t && t[id].file == file
    case InTests => id in t && t[id].test
    case WithRank(roots, rank) => id in t && Rank(t, roots, id) == rank
  }

  function Where(t: map<Id, Node>, p: Pick, ids: seq<Id>): seq<Id> {
    if ids == [] then []
    else if Admits(t, p, ids[0]) then [ids[0]] + Where(t, p, ids[1..])
    else Where(t, p, ids[1..])
  }

  ghost predicate Distinct(ids: seq<Id>) {
    forall i, j | 0 <= i < j < |ids| :: ids[i] != ids[j]
  }

  ghost predicate InTable(t: map<Id, Node>, ids: seq<Id>) {
    forall i | 0 <= i < |ids| :: ids[i] in t
  }

  lemma {:induction false} WhereHolds(t: map<Id, Node>, p: Pick, ids: seq<Id>, id: Id)
    ensures id in Where(t, p, ids) <==> id in ids && Admits(t, p, id)
  {
    if ids != [] {
      WhereHolds(t, p, ids[1..], id);
      assert ids == [ids[0]] + ids[1..];
    }
  }

  lemma {:induction false} WhereDistinct(t: map<Id, Node>, p: Pick, ids: seq<Id>)
    requires Distinct(ids)
    ensures Distinct(Where(t, p, ids))
  {
    if ids != [] {
      WhereDistinct(t, p, ids[1..]);
      var rest := Where(t, p, ids[1..]);
      WhereHolds(t, p, ids[1..], ids[0]);
      if Admits(t, p, ids[0]) {
        assert forall j | 0 <= j < |rest| :: rest[j] in rest;
      }
    }
  }

  lemma {:induction false} WhereConcat(t: map<Id, Node>, p: Pick, a: seq<Id>, b: seq<Id>)
    ensures Where(t, p, a + b) == Where(t, p, a) + Where(t, p, b)
  {
    if a == [] {
      assert a + b == b;
    } else {
      assert (a + b)[1..] == a[1..] + b;
      WhereConcat(t, p, a[1..], b);
    }
  }

  lemma WhereNothing(t: map<Id, Node>, p: Pick)
    ensures Where(t, p, []) == []
  {
  }

  lemma WhereSnoc(t: map<Id, Node>, p: Pick, ids: seq<Id>, id: Id)
    ensures Where(t, p, ids + [id]) == if Admits(t, p, id) then Where(t, p, ids) + [id] else Where(t, p, ids)
  {
    WhereConcat(t, p, ids, [id]);
    assert [id][1..] == [];
  }

  ghost predicate Both(t: map<Id, Node>, p: Pick, q: Pick, r: Pick, ids: seq<Id>) {
    forall i | 0 <= i < |ids| :: Admits(t, r, ids[i]) <==> Admits(t, p, ids[i]) && Admits(t, q, ids[i])
  }

  /** Selecting twice is selecting once by both conditions. */
  lemma {:induction false} WhereTwice(t: map<Id, Node>, p: Pick, q: Pick, r: Pick, ids: seq<Id>)
    requires Both(t, p, q, r, ids)
    ensures Where(t, q, Where(t, p, ids)) == Where(t, r, ids)
  {
    if ids != [] {
      assert forall i | 0 <= i < |ids[1..]| :: ids[1..][i] == ids[i + 1];
      WhereTwice(t, p, q, r, ids[1..]);
      assert Admits(t, r, ids[0]) <==> Admits(t, p, ids[0]) && Admits(t, q, ids[0]);
    }
  }

  /** Selecting in either order. */
  lemma {:induction false} WhereSwap(t: map<Id, Node>, p: Pick, q: Pick, ids: seq<Id>)
    ensures Where(t, q, Where(t, p, ids)) == Where(t, p, Where(t, q, ids))
  {
    if ids != [] {
      WhereSwap(t, p, q, ids[1..]);
    }
  }

  lemma {:induction false} WhereShorter(t: map<Id, Node>, p: Pick, ids: seq<Id>)
    ensures |Where(t, p, ids)| <= |ids|
  {
    if ids != [] {
      WhereShorter(t, p, ids[1..]);
    }
  }

  ghost predicate AllAdmitted(t: map<Id, Node>, p: Pick, ids: seq<Id>) {
    forall i | 0 <= i < |ids| :: Admits(t, p, ids[i])
  }

  lemma {:induction false} WhereAll(t: map<Id, Node>, p: Pick, ids: seq<Id>)
    requires AllAdmitted(t, p, ids)
    ensures Where(t, p, ids) == ids
  {
    if ids != [] {
      assert forall i | 0 <= i < |ids[1..]| :: ids[1..][i] == ids[i + 1];
      WhereAll(t, p, ids[1..]);
      assert Admits(t, p, ids[0]);
    }
  }

  ghost predicate NoneAdmitted(t: map<Id, Node>, p: Pick, ids: seq<Id>) {
    forall i | 0 <= i < |ids| :: !Admits(t, p, ids[i])
  }

  lemma {:induction false} WhereNone(t: map<Id, Node>, p: Pick, ids: seq<Id>)
    requires NoneAdmitted(t, p, ids)
    ensures Where(t, p, ids) == []
  {
    if ids != [] {
      assert forall i | 0 <= i < |ids[1..]| :: ids[1..][i] == ids[i + 1];
      WhereNone(t, p, ids[1..]);
      assert !Admits(t, p, ids[0]);
    }
  }

  /** Two distinct lists of the same ids have the same length. */
  lemma {:induction false} SameLength(a: seq<Id>, b: seq<Id>)
    requires Distinct(a) && Distinct(b) && forall id :: id in a <==> id in b
    ensures |a| == |b|
  {
    SizeIsLength(a);
    SizeIsLength(b);
    assert (set id | id in a) == (set id | id in b);
  }

  lemma {:induction false} SizeIsLength(a: seq<Id>)
    requires Distinct(a)
    ensures |set id | id in a| == |a|
  {
    if a != [] {
      var rest := a[1..];
      SizeIsLength(rest);
      assert (set id | id in a) == (set id | id in rest) + {a[0]};
      assert a[0] !in rest;
    }
  }

  // ----- Ranking within a file -----

  function KindPriority(kind: string): nat {
    if kind in ["class", "interface", "struct", "trait", "protocol", "enum"] then 3
    else if kind in ["method", "function"] then 1
    else 0
  }

  function Rank(t: map<Id, Node>, roots: seq<Id>, id: Id): nat
    requires id in t
  {
    (if id in roots then 10 else 0) + KindPriority(t[id].kind)
  }

  function RankOf(t: map<Id, Node>, roots: seq<Id>, id: Id): nat {
    if id in t then Rank(t, roots, id) else 0
  }

  function InsertRanked(t: map<Id, Node>, roots: seq<Id>, id: Id, sorted: seq<Id>): seq<Id> {
    if sorted == [] || RankOf(t, roots, id) >= RankOf(t, roots, sorted[0]) then [id] + sorted
    else [sorted[0]] + InsertRanked(t, roots, id, sorted[1..])
  }

  /** What the stable sort by falling rank makes of a list. */
  function SortRanked(t: map<Id, Node>, roots: seq<Id>, ids: seq<Id>): seq<Id> {
    if ids == [] then [] else InsertRanked(t, roots, ids[0], SortRanked(t, roots, ids[1..]))
  }

  ghost predicate Falling(t: map<Id, Node>, roots: seq<Id>, ids: seq<Id>) {
    forall i, j | 0 <= i < j < |ids| :: RankOf(t, roots, ids[i]) >= RankOf(t, roots, ids[j])
  }

  lemma {:induction false} InsertHolds(t: map<Id, Node>, roots: seq<Id>, id: Id, sorted: seq<Id>, x: Id)
    ensures x in InsertRanked(t, roots, id, sorted) <==> x == id || x in sorted
    ensures |InsertRanked(t, roots, id, sorted)| == |sorted| + 1
  {
    if sorted != [] {
      InsertHolds(t, roots, id, sorted[1..], x);
      assert sorted == [sorted[0]] + sorted[1..];
    }
  }

  lemma {:induction false} SortHolds(t: map<Id, Node>, roots: seq<Id>, ids: seq<Id>, x: Id)
    ensures x in SortRanked(t, roots, ids) <==> x in ids
    ensures |SortRanked(t, roots, ids)| == |ids|
  {
    if ids != [] {
      SortHolds(t, roots, ids[1..], x);
      InsertHolds(t, roots, ids[0], SortRanked(t, roots, ids[1..]), x);
      assert ids == [ids[0]] + ids[1..];
    }
  }

  lemma {:induction false} InsertFalls(t: map<Id, Node>, roots: seq<Id>, id: Id, sorted: seq<Id>)
    requires Falling(t, roots, sorted)
    ensures Falling(t, roots, InsertRanked(t, roots, id, sorted))
  {
    if sorted != [] && RankOf(t, roots, id) < RankOf(t, roots, sorted[0]) {
      InsertFalls(t, roots, id, sorted[1..]);
      var rest := InsertRanked(t, roots, id, sorted[1..]);
      forall j | 0 <= j < |rest|
        ensures RankOf(t, roots, sorted[0]) >= RankOf(t, roots, rest[j])
      {
        InsertHolds(t, roots, id, sorted[1..], rest[j]);
        if rest[j] != id {
          var k :| 0 <= k < |sorted[1..]| && sorted[1..][k] == rest[j];
          assert sorted[k + 1] == rest[j];
        }
      }
    }
  }

  lemma {:induction false} SortFalls(t: map<Id, Node>, roots: seq<Id>, ids: seq<Id>)
    ensures Falling(t, roots, SortRanked(t, roots, ids))
  {
    if ids != [] {
      SortFalls(t, roots, ids[1..]);
      InsertFalls(t, roots, ids[0], SortRanked(t, roots, ids[1..]));
    }
  }

  lemma {:induction false} InsertDistinct(t: map<Id, Node>, roots: seq<Id>, id: Id, sorted: seq<Id>)
    requires Distinct(sorted) && id !in sorted
    ensures Distinct(InsertRanked(t, roots, id, sorted))
  {
    if sorted != [] && RankOf(t, roots, id) < RankOf(t, roots, sorted[0]) {
      InsertDistinct(t, roots, id, sorted[1..]);
      var rest := InsertRanked(t, roots, id, sorted[1..]);
      InsertHolds(t, roots, id, sorted[1..], sorted[0]);
      assert sorted[0] !in rest;
    }
  }

  lemma {:induction false} SortDistinct(t: map<Id, Node>, roots: seq<Id>, ids: seq<Id>)
    requires Distinct(ids)
    ensures Distinct(SortRanked(t, roots, ids))
  {
    if ids != [] {
      SortDistinct(t, roots, ids[1..]);
      SortHolds(t, roots, ids[1..], ids[0]);
      assert ids[0] !in ids[1..];
      InsertDistinct(t, roots, ids[0], SortRanked(t, roots, ids[1..]));
    }
  }

  lemma {:induction false} InsertIsStable(t: map<Id, Node>, roots: seq<Id>, id: Id, sorted: seq<Id>, rank: nat)
    requires id in t && InTable(t, sorted) && Falling(t, roots, sorted)
    ensures Where(t, WithRank(roots, rank), InsertRanked(t, roots, id, sorted)) == Where(t, WithRank(roots, rank), [id] + sorted)
  {
    assert ([id] + sorted)[1..] == sorted;
    if sorted != [] && RankOf(t, roots, id) < RankOf(t, roots, sorted[0]) {
      var rest := sorted[1..];
      assert ([id] + rest)[1..] == rest;
      assert forall i | 0 <= i < |rest| :: rest[i] == sorted[i + 1];
      InsertIsStable(t, roots, id, rest, rank);
    }
  }

  /** Ids of equal rank keep their order. */
  lemma {:induction false} SortIsStable(t: map<Id, Node>, roots: seq<Id>, ids: seq<Id>, rank: nat)
    requires InTable(t, ids)
    ensures Where(t, WithRank(roots, rank), SortRanked(t, roots, ids)) == Where(t, WithRank(roots, rank), ids)
  {
    if ids != [] {
      assert forall i | 0 <= i < |ids[1..]| :: ids[1..][i] == ids[i + 1];
      SortIsStable(t, roots, ids[1..], rank);
      var sorted := SortRanked(t, roots, ids[1..]);
      SortFalls(t, roots, ids[1..]);
      forall i | 0 <= i < |sorted| ensures sorted[i] in t {
        SortHolds(t, roots, ids[1..], sorted[i]);
      }
      InsertIsStable(t, roots, ids[0], sorted, rank);
      assert ([ids[0]] + sorted)[1..] == sorted;
    }
  }

  // ----- The cap on nodes -----

  /** Entry points, then the other ends of the edges that touch what is there already, in one pass. */
  function Spread(ids: seq<Id>, edges: seq<Edge>): seq<Id>
    decreases |edges|
  {
    if edges == [] then ids else Spread(Touch(ids, edges[0]), edges[1..])
  }

  function Touch(ids: seq<Id>, e: Edge): seq<Id> {
    var forward := if e.source in ids then Add(ids, e.target) else ids;
    if e.target in forward then Add(forward, e.source) else forward
  }

  function Add(ids: seq<Id>, id: Id): seq<Id> {
    if id in ids then ids else ids + [id]
  }

  function Unique(ids: seq<Id>): seq<Id> {
    if ids == [] then [] else Add(Unique(ids[..|ids| - 1]), ids[|ids| - 1])
  }

  lemma AddDistinct(ids: seq<Id>, id: Id)
    requires Distinct(ids)
    ensures Distinct(Add(ids, id))
  {
  }

  lemma {:induction false} UniqueDistinct(ids: seq<Id>)
    ensures Distinct(Unique(ids))
  {
    if ids != [] {
      UniqueDistinct(ids[..|ids| - 1]);
      AddDistinct(Unique(ids[..|ids| - 1]), ids[|ids| - 1]);
    }
  }

  lemma {:induction false} UniqueHolds(ids: seq<Id>, id: Id)
    ensures id in Unique(ids) <==> id in ids
  {
    if ids != [] {
      UniqueHolds(ids[..|ids| - 1], id);
      assert ids == ids[..|ids| - 1] + [ids[|ids| - 1]];
    }
  }

  lemma {:induction false} SpreadDistinct(ids: seq<Id>, edges: seq<Edge>)
    requires Distinct(ids)
    ensures Distinct(Spread(ids, edges))
    decreases |edges|
  {
    if edges != [] {
      SpreadDistinct(Touch(ids, edges[0]), edges[1..]);
    }
  }

  lemma {:induction false} SpreadExtends(ids: seq<Id>, edges: seq<Edge>)
    ensures ids <= Spread(ids, edges)
    decreases |edges|
  {
    if edges != [] {
      SpreadExtends(Touch(ids, edges[0]), edges[1..]);
    }
  }

  /** Every direct neighbour of an entry point has priority, whichever end of the edge it is. */
  lemma {:induction false} NeighboursHavePriority(ids: seq<Id>, edges: seq<Edge>, k: nat)
    requires k < |edges|
    ensures edges[k].source in ids ==> edges[k].target in Spread(ids, edges)
    ensures edges[k].target in ids ==> edges[k].source in Spread(ids, edges)
    decreases |edges|
  {
    var next := Touch(ids, edges[0]);
    if k == 0 {
      assert edges[0].target in ids ==> edges[0].source in next;
      SpreadExtends(next, edges[1..]);
    } else {
      NeighboursHavePriority(next, edges[1..], k - 1);
    }
  }

  /** All nodes, those with priority first. */
  function Ordered(t: map<Id, Node>, nodes: seq<Id>, roots: seq<Id>, edges: seq<Edge>): seq<Id> {
    var priority := Where(t, Among(nodes), Spread(Unique(roots), edges));
    priority + Where(t, Except(priority), nodes)
  }

  function AtMost(ids: seq<Id>, n: nat): seq<Id> {
    if |ids| <= n then ids else ids[..n]
  }

  lemma AtMostSnoc(ids: seq<Id>, id: Id, n: nat)
    ensures AtMost(ids + [id], n) == if |AtMost(ids, n)| < n then AtMost(ids, n) + [id] else AtMost(ids, n)
  {
  }

  lemma AtMostNothing(n: nat)
    ensures AtMost([], n) == []
  {
  }

  method PriorityIds(roots: seq<Id>, edges: seq<Edge>) returns (ids: seq<Id>)
    ensures ids == Spread(Unique(roots), edges)
  {
    ids := [];
    for i := 0 to |roots|
      invariant ids == Unique(roots[..i])
    {
      assert roots[..i + 1][..i] == roots[..i];
      if roots[i] !in ids {
        ids := ids + [roots[i]];
      }
    }
    assert roots[..|roots|] == roots;
    for i := 0 to |edges|
      invariant Spread(ids, edges[i..]) == Spread(Unique(roots), edges)
    {
      var e := edges[i];
      assert edges[i..][0] == e && edges[i..][1..] == edges[i + 1..];
      if e.source in ids && e.target !in ids {
        ids := ids + [e.target];
      }
      if e.target in ids && e.source !in ids {
        ids := ids + [e.source];
      }
    }
  }

  /** The nodes with priority, then the others, as far as the budget goes. */
  method TrimToMax(t: map<Id, Node>, nodes: seq<Id>, roots: seq<Id>, edges: seq<Edge>, maxNodes: int) returns (kept: seq<Id>)
    requires Distinct(nodes)
    ensures kept == AtMost(Ordered(t, nodes, roots, edges), if maxNodes < 0 then 0 else maxNodes)
  {
    hide Where, Spread, Unique, AtMost, Distinct;
    var priorityIds := PriorityIds(roots, edges);
    kept := KeepPriority(t, nodes, priorityIds, maxNodes);
    kept := Fill(t, nodes, Where(t, Among(nodes), priorityIds), kept, maxNodes);
  }

  method KeepPriority(t: map<Id, Node>, nodes: seq<Id>, priorityIds: seq<Id>, maxNodes: int) returns (kept: seq<Id>)
    ensures kept == AtMost(Where(t, Among(nodes), priorityIds), if maxNodes < 0 then 0 else maxNodes)
  {
    ghost var max := if maxNodes < 0 then 0 else maxNodes;
    WhereNothing(t, Among(nodes));
    AtMostNothing(max);
    hide Where;
    kept := [];
    for i := 0 to |priorityIds|
      invariant kept == AtMost(Where(t, Among(nodes), priorityIds[..i]), max)
    {
      assert priorityIds[..i + 1] == priorityIds[..i] + [priorityIds[i]];
      WhereSnoc(t, Among(nodes), priorityIds[..i], priorityIds[i]);
      AtMostSnoc(Where(t, Among(nodes), priorityIds[..i]), priorityIds[i], max);
      if priorityIds[i] in nodes && |kept| < maxNodes {
        kept := kept + [priorityIds[i]];
      }
    }
    assert priorityIds[..|priorityIds|] == priorityIds;
  }

  method Fill(t: map<Id, Node>, nodes: seq<Id>, ghost priority: seq<Id>, some: seq<Id>, maxNodes: int) returns (kept: seq<Id>)
    requires Distinct(nodes) && some == AtMost(priority, if maxNodes < 0 then 0 else maxNodes)
    ensures kept == AtMost(priority + Where(t, Except(priority), nodes), if maxNodes < 0 then 0 else maxNodes)
  {
    WhereNothing(t, Except(priority));
    hide Where;
    ghost var max := if maxNodes < 0 then 0 else maxNodes;
    kept := some;
    var i := 0;
    assert nodes[..0] == [];
    assert priority + [] == priority;
    while i < |nodes|
      invariant 0 <= i <= |nodes|
      invariant kept == AtMost(priority + Where(t, Except(priority), nodes[..i]), max)
    {
      assert nodes[..i + 1] == nodes[..i] + [nodes[i]];
      WhereSnoc(t, Except(priority), nodes[..i], nodes[i]);
      assert nodes == nodes[..i] + nodes[i..];
      WhereConcat(t, Except(priority), nodes[..i], nodes[i..]);
      if |kept| >= maxNodes {
        break;
      }
      WhereHolds(t, Except(priority), nodes[..i], nodes[i]);
      if nodes[i] !in kept {
        kept := kept + [nodes[i]];
      }
      i := i + 1;
    }
    assert nodes[..|nodes|] == nodes;
  }

  // ----- The cap per file -----

  /** A fifth of the budget rounded up, and five at least. */
  function CapPerFile(maxNodes: int): (cap: int)
    ensures cap >= 5 && 5 * cap >= maxNodes
    ensures cap > 5 ==> 5 * (cap - 1) < maxNodes
  {
    var fifth := (maxNodes + 4) / 5;
    if fifth > 5 then fifth else 5
  }

  /** The ids of a file beyond its cap, lowest ranks last. */
  function Overflow(t: map<Id, Node>, roots: seq<Id>, ids: seq<Id>, file: string, cap: nat): seq<Id> {
    var sorted := SortRanked(t, roots, Where(t, InFile(file), ids));
    if |sorted| <= cap then [] else sorted[cap..]
  }

  function Overflows(t: map<Id, Node>, roots: seq<Id>, ids: seq<Id>, files: seq<string>, cap: nat): seq<Id> {
    if files == [] then []
    else Overflows(t, roots, ids, files[..|files| - 1], cap) + Overflow(t, roots, ids, files[|files| - 1], cap)
  }

  lemma OverflowIsInFile(t: map<Id, Node>, roots: seq<Id>, ids: seq<Id>, file: string, cap: nat, id: Id)
    requires id in Overflow(t, roots, ids, file, cap)
    ensures id in ids && id in t && t[id].file == file
  {
    SortHolds(t, roots, Where(t, InFile(file), ids), id);
    WhereHolds(t, InFile(file), ids, id);
  }

  lemma {:induction false} OverflowsHolds(t: map<Id, Node>, roots: seq<Id>, ids: seq<Id>, files: seq<string>, cap: nat, id: Id)
    requires id in t
    ensures id in Overflows(t, roots, ids, files, cap) <==> t[id].file in files && id in Overflow(t, roots, ids, t[id].file, cap)
  {
    if files != [] {
      var last := files[|files| - 1];
      OverflowsHolds(t, roots, ids, files[..|files| - 1], cap, id);
      assert files == files[..|files| - 1] + [last];
      if id in Overflow(t, roots, ids, last, cap) {
        OverflowIsInFile(t, roots, ids, last, cap, id);
      }
    }
  }

  lemma ExceptBoth(t: map<Id, Node>, ids: seq<Id>, a: seq<Id>, b: seq<Id>)
    ensures Where(t, Except(b), Where(t, Except(a), ids)) == Where(t, Except(a + b), ids)
  {
    WhereTwice(t, Except(a), Except(b), Except(a + b), ids);
  }

  lemma ExceptNothing(t: map<Id, Node>, ids: seq<Id>)
    ensures Where(t, Except([]), ids) == ids
  {
    WhereAll(t, Except([]), ids);
  }

  /** Deleting ids from the map, one by one. */
  method DeleteAll(t: map<Id, Node>, ids: seq<Id>, drop: seq<Id>) returns (kept: seq<Id>)
    ensures kept == Where(t, Except(drop), ids)
  {
    kept := ids;
    ExceptNothing(t, ids);
    for i := 0 to |drop|
      invariant kept == Where(t, Except(drop[..i]), ids)
    {
      ExceptBoth(t, ids, drop[..i], [drop[i]]);
      assert drop[..i + 1] == drop[..i] + [drop[i]];
      kept := Where(t, Except([drop[i]]), kept);
    }
    assert drop[..|drop|] == drop;
  }

  ghost predicate FilesOf(t: map<Id, Node>, ids: seq<Id>, files: seq<string>) {
    forall i | 0 <= i < |ids| :: ids[i] in t && t[ids[i]].file in files
  }

  ghost predicate Grouped(t: map<Id, Node>, ids: seq<Id>, files: seq<string>, counts: map<string, seq<Id>>) {
    && (forall f :: f in counts <==> f in files)
    && (forall f :: f in counts ==> counts[f] == Where(t, InFile(f), ids))
    && FilesOf(t, ids, files)
  }

  lemma GroupOne(t: map<Id, Node>, ids: seq<Id>, files: seq<string>, counts: map<string, seq<Id>>, id: Id)
    requires Grouped(t, ids, files, counts) && id in t
    ensures var f := t[id].file;
            Grouped(t, ids + [id], if f in counts then files else files + [f],
                    counts[f := (if f in counts then counts[f] else []) + [id]])
  {
    hide Where;
    var f := t[id].file;
    forall g ensures Where(t, InFile(g), ids + [id]) == if g == f then Where(t, InFile(g), ids) + [id] else Where(t, InFile(g), ids) {
      WhereSnoc(t, InFile(g), ids, id);
    }
    if f !in counts {
      FileAbsent(t, ids, files, f);
    }
    forall i | 0 <= i < |ids + [id]|
      ensures (ids + [id])[i] in t && t[(ids + [id])[i]].file in (if f in counts then files else files + [f])
    {
      if i < |ids| {
        assert (ids + [id])[i] == ids[i];
      }
    }
  }

  lemma FileAbsent(t: map<Id, Node>, ids: seq<Id>, files: seq<string>, f: string)
    requires FilesOf(t, ids, files) && f !in files
    ensures Where(t, InFile(f), ids) == []
  {
    WhereNone(t, InFile(f), ids);
  }

  /** The ids of each file, files in the order they first appear. */
  method GroupByFile(t: map<Id, Node>, ids: seq<Id>) returns (files: seq<string>, counts: map<string, seq<Id>>)
    requires InTable(t, ids)
    ensures Grouped(t, ids, files, counts)
  {
    files, counts := [], map[];
    for i := 0 to |ids|
      invariant Grouped(t, ids[..i], files, counts)
    {
      assert ids[..i + 1] == ids[..i] + [ids[i]];
      GroupOne(t, ids[..i], files, counts, ids[i]);
      var f := t[ids[i]].file;
      if f in counts {
        counts := counts[f := counts[f] + [ids[i]]];
      } else {
        files := files + [f];
        counts := counts[f := [] + [ids[i]]];
      }
    }
    assert ids[..|ids|] == ids;
  }

  function AllFiles(t: map<Id, Node>, ids: seq<Id>): seq<string> {
    if ids == [] then []
    else (if ids[0] in t then [t[ids[0]].file] else []) + AllFiles(t, ids[1..])
  }

  lemma {:induction false} AllFilesHolds(t: map<Id, Node>, ids: seq<Id>)
    requires InTable(t, ids)
    ensures FilesOf(t, ids, AllFiles(t, ids))
  {
    if ids != [] {
      assert forall i | 0 <= i < |ids[1..]| :: ids[1..][i] == ids[i + 1];
      AllFilesHolds(t, ids[1..]);
      forall i | 0 <= i < |ids| ensures ids[i] in t && t[ids[i]].file in AllFiles(t, ids) {
        if i > 0 {
          assert ids[1..][i - 1] == ids[i];
        }
      }
    }
  }

  /** Every file within its cap. */
  function PerFile(t: map<Id, Node>, ids: seq<Id>, roots: seq<Id>, cap: nat): seq<Id> {
    Where(t, Except(Overflows(t, roots, ids, AllFiles(t, ids), cap)), ids)
  }

  lemma PerFileByFiles(t: map<Id, Node>, ids: seq<Id>, roots: seq<Id>, cap: nat, files: seq<string>)
    requires InTable(t, ids) && FilesOf(t, ids, files)
    ensures Where(t, Except(Overflows(t, roots, ids, files, cap)), ids) == PerFile(t, ids, roots, cap)
  {
    AllFilesHolds(t, ids);
    var a, b := Overflows(t, roots, ids, files, cap), Overflows(t, roots, ids, AllFiles(t, ids), cap);
    forall i | 0 <= i < |ids|
      ensures ids[i] in a <==> ids[i] in b
    {
      OverflowsHolds(t, roots, ids, files, cap, ids[i]);
      OverflowsHolds(t, roots, ids, AllFiles(t, ids), cap, ids[i]);
    }
    AgreeingExcept(t, a, b, ids);
  }

  method TrimPerFile(t: map<Id, Node>, ids: seq<Id>, roots: seq<Id>, maxNodes: int) returns (kept: seq<Id>)
    requires InTable(t, ids)
    ensures kept == PerFile(t, ids, roots, CapPerFile(maxNodes))
  {
    var maxPerFile := CapPerFile(maxNodes);
    var order, counts := GroupByFile(t, ids);
    kept := ids;
    ExceptNothing(t, ids);
    for i := 0 to |order|
      invariant kept == Where(t, Except(Overflows(t, roots, ids, order[..i], maxPerFile)), ids)
    {
      var f := order[i];
      assert order[..i + 1] == order[..i] + [f] && order[..i + 1][..i] == order[..i];
      var nodeIds := counts[f];
      SortHolds(t, roots, nodeIds, "");
      ExceptBoth(t, ids, Overflows(t, roots, ids, order[..i], maxPerFile), Overflow(t, roots, ids, f, maxPerFile));
      if |nodeIds| <= maxPerFile {
        ExceptNothing(t, kept);
        continue;
      }
      var sorted := SortRanked(t, roots, nodeIds);
      kept := DeleteAll(t, kept, sorted[maxPerFile..]);
    }
    assert order[..|order|] == order;
    PerFileByFiles(t, ids, roots, maxPerFile, order);
  }

  /** What is left of a file: the `cap` highest ranks of it, or all of it. */
  lemma LeftOfFile(t: map<Id, Node>, roots: seq<Id>, ids: seq<Id>, cap: nat, file: string)
    requires Distinct(ids) && InTable(t, ids)
    ensures var all := Where(t, InFile(file), ids);
            var left := Where(t, InFile(file), PerFile(t, ids, roots, cap));
            && left == Where(t, Except(Overflow(t, roots, ids, file, cap)), all)
            && |left| == if |all| < cap then |all| else cap
  {
    var all := Where(t, InFile(file), ids);
    var files := AllFiles(t, ids);
    AllFilesHolds(t, ids);
    var evicted, over := Overflows(t, roots, ids, files, cap), Overflow(t, roots, ids, file, cap);
    WhereSwap(t, Except(evicted), InFile(file), ids);
    forall i | 0 <= i < |all|
      ensures all[i] in evicted <==> all[i] in over
    {
      WhereHolds(t, InFile(file), ids, all[i]);
      OverflowsHolds(t, roots, ids, files, cap, all[i]);
    }
    AgreeingExcept(t, evicted, over, all);
    WhereDistinct(t, InFile(file), ids);
    LeftOver(t, roots, all, cap);
  }

  lemma {:induction false} AgreeingExcept(t: map<Id, Node>, a: seq<Id>, b: seq<Id>, ids: seq<Id>)
    requires forall i | 0 <= i < |ids| :: ids[i] in a <==> ids[i] in b
    ensures Where(t, Except(a), ids) == Where(t, Except(b), ids)
  {
    if ids != [] {
      assert forall i | 0 <= i < |ids[1..]| :: ids[1..][i] == ids[i + 1];
      AgreeingExcept(t, a, b, ids[1..]);
      assert ids[0] in a <==> ids[0] in b;
    }
  }

  lemma FrontOrRest(ids: seq<Id>, n: nat, id: Id)
    requires Distinct(ids) && n <= |ids|
    ensures id in ids[..n] <==> id in ids && id !in ids[n..]
  {
    assert ids == ids[..n] + ids[n..];
    assert forall i | 0 <= i < |ids[n..]| :: ids[n..][i] == ids[n + i];
  }

  lemma LeftOver(t: map<Id, Node>, roots: seq<Id>, all: seq<Id>, cap: nat)
    requires Distinct(all)
    ensures var sorted := SortRanked(t, roots, all);
            var over := if |sorted| <= cap then [] else sorted[cap..];
            |Where(t, Except(over), all)| == if |all| < cap then |all| else cap
  {
    var sorted := SortRanked(t, roots, all);
    var over := if |sorted| <= cap then [] else sorted[cap..];
    SortHolds(t, roots, all, "");
    hide Where, SortRanked;
    if |all| <= cap {
      ExceptNothing(t, all);
    } else {
      var left := Where(t, Except(over), all);
      SortDistinct(t, roots, all);
      WhereDistinct(t, Except(over), all);
      forall id ensures id in left <==> id in sorted[..cap] {
        WhereHolds(t, Except(over), all, id);
        SortHolds(t, roots, all, id);
        FrontOrRest(sorted, cap, id);
      }
      SameLength(left, sorted[..cap]);
    }
  }

  /** Of a file over its cap, no evicted node outranks a retained one. */
  lemma {:induction false} EvictedRankNoHigher(t: map<Id, Node>, roots: seq<Id>, ids: seq<Id>, file: string, cap: nat, evicted: Id, kept: Id)
    requires evicted in Overflow(t, roots, ids, file, cap)
    requires kept in Where(t, InFile(file), ids) && kept !in Overflow(t, roots, ids, file, cap)
    ensures evicted in t && kept in t && Rank(t, roots, kept) >= Rank(t, roots, evicted)
  {
    var all := Where(t, InFile(file), ids);
    var sorted := SortRanked(t, roots, all);
    SortHolds(t, roots, all, kept);
    SortFalls(t, roots, all);
    WhereHolds(t, InFile(file), ids, kept);
    OverflowIsInFile(t, roots, ids, file, cap, evicted);
    var i :| 0 <= i < |sorted| && sorted[i] == kept;
    var j :| 0 <= j < |sorted[cap..]| && sorted[cap..][j] == evicted;
    assert sorted[cap + j] == evicted;
    assert forall k | cap <= k < |sorted| :: sorted[k] == sorted[cap..][k - cap];
  }

  // ----- Who is evicted, by counting -----

  /** How many of a list rank above `r`. */
  function Higher(t: map<Id, Node>, roots: seq<Id>, ids: seq<Id>, r: Id): nat {
    if ids == [] then 0
    else (if RankOf(t, roots, ids[0]) > RankOf(t, roots, r) then 1 else 0) + Higher(t, roots, ids[1..], r)
  }

  /** How many of a list go before `r`: those that rank above it, and those that rank the same and are listed earlier. */
  function Ahead(t: map<Id, Node>, roots: seq<Id>, ids: seq<Id>, r: Id): nat {
    if ids == [] then 0
    else if ids[0] == r then Higher(t, roots, ids[1..], r)
    else (if RankOf(t, roots, ids[0]) >= RankOf(t, roots, r) then 1 else 0) + Ahead(t, roots, ids[1..], r)
  }

  function Place(ids: seq<Id>, r: Id): nat {
    if ids == [] || ids[0] == r then 0 else 1 + Place(ids[1..], r)
  }

  lemma {:induction false} PlaceInTail(ids: seq<Id>, r: Id, n: nat)
    requires Distinct(ids) && r in ids && n <= |ids|
    ensures r in ids[n..] <==> Place(ids, r) >= n
    ensures r in ids[..n] <==> Place(ids, r) < n
  {
    assert ids == [ids[0]] + ids[1..];
    if n > 0 {
      assert ids[n..] == ids[1..][n - 1..] && ids[..n] == [ids[0]] + ids[1..][..n - 1];
      assert ids[0] !in ids[1..];
      assert ids[1..] == ids[1..][..n - 1] + ids[1..][n - 1..];
      if ids[0] != r {
        PlaceInTail(ids[1..], r, n - 1);
      }
    }
  }

  lemma {:induction false} NoneHigher(t: map<Id, Node>, roots: seq<Id>, sorted: seq<Id>, r: Id)
    requires Falling(t, roots, sorted) && (sorted != [] ==> RankOf(t, roots, r) >= RankOf(t, roots, sorted[0]))
    ensures Higher(t, roots, sorted, r) == 0
  {
    if sorted != [] {
      NoneHigher(t, roots, sorted[1..], r);
    }
  }

  lemma {:induction false} InsertPlace(t: map<Id, Node>, roots: seq<Id>, id: Id, sorted: seq<Id>)
    requires Falling(t, roots, sorted) && id !in sorted
    ensures Place(InsertRanked(t, roots, id, sorted), id) == Higher(t, roots, sorted, id)
  {
    if sorted == [] || RankOf(t, roots, id) >= RankOf(t, roots, sorted[0]) {
      NoneHigher(t, roots, sorted, id);
    } else {
      InsertPlace(t, roots, id, sorted[1..]);
    }
  }

  lemma {:induction false} HigherInserted(t: map<Id, Node>, roots: seq<Id>, id: Id, sorted: seq<Id>, r: Id)
    ensures Higher(t, roots, InsertRanked(t, roots, id, sorted), r) == Higher(t, roots, [id] + sorted, r)
  {
    assert ([id] + sorted)[1..] == sorted;
    if sorted != [] && RankOf(t, roots, id) < RankOf(t, roots, sorted[0]) {
      assert ([id] + sorted[1..])[1..] == sorted[1..];
      HigherInserted(t, roots, id, sorted[1..], r);
    }
  }

  lemma {:induction false} HigherSorted(t: map<Id, Node>, roots: seq<Id>, ids: seq<Id>, r: Id)
    ensures Higher(t, roots, SortRanked(t, roots, ids), r) == Higher(t, roots, ids, r)
  {
    if ids != [] {
      var sorted := SortRanked(t, roots, ids[1..]);
      HigherSorted(t, roots, ids[1..], r);
      HigherInserted(t, roots, ids[0], sorted, r);
      assert ([ids[0]] + sorted)[1..] == sorted;
    }
  }

  lemma {:induction false} InsertShifts(t: map<Id, Node>, roots: seq<Id>, id: Id, sorted: seq<Id>, r: Id)
    requires Falling(t, roots, sorted) && r in sorted && id != r
    ensures Place(InsertRanked(t, roots, id, sorted), r)
         == Place(sorted, r) + if RankOf(t, roots, id) >= RankOf(t, roots, r) then 1 else 0
  {
    assert ([id] + sorted)[1..] == sorted;
    if RankOf(t, roots, id) < RankOf(t, roots, sorted[0]) && sorted[0] != r {
      InsertShifts(t, roots, id, sorted[1..], r);
    }
  }

  /** The sort puts an id behind exactly those that go before it. */
  lemma {:induction false} PlaceIsAhead(t: map<Id, Node>, roots: seq<Id>, ids: seq<Id>, r: Id)
    requires Distinct(ids) && r in ids
    ensures Place(SortRanked(t, roots, ids), r) == Ahead(t, roots, ids, r)
  {
    var sorted := SortRanked(t, roots, ids[1..]);
    SortFalls(t, roots, ids[1..]);
    SortHolds(t, roots, ids[1..], r);
    assert ids == [ids[0]] + ids[1..];
    if ids[0] == r {
      assert r !in ids[1..];
      InsertPlace(t, roots, r, sorted);
      HigherSorted(t, roots, ids[1..], r);
    } else {
      PlaceIsAhead(t, roots, ids[1..], r);
      InsertShifts(t, roots, ids[0], sorted, r);
    }
  }

  /** A node survives the per-file cap exactly when fewer than `cap` nodes of its file go before it. */
  lemma {:induction false} SurvivesFile(t: map<Id, Node>, ids: seq<Id>, roots: seq<Id>, cap: nat, r: Id)
    requires Distinct(ids) && InTable(t, ids) && r in ids && r in t
    ensures r in PerFile(t, ids, roots, cap) <==> Ahead(t, roots, Where(t, InFile(t[r].file), ids), r) < cap
  {
    hide Where, SortRanked, Ahead, Place;
    var mates := Where(t, InFile(t[r].file), ids);
    var sorted := SortRanked(t, roots, mates);
    WhereHolds(t, Except(Overflows(t, roots, ids, AllFiles(t, ids), cap)), ids, r);
    AllFilesHolds(t, ids);
    OverflowsHolds(t, roots, ids, AllFiles(t, ids), cap, r);
    WhereHolds(t, InFile(t[r].file), ids, r);
    WhereDistinct(t, InFile(t[r].file), ids);
    SortHolds(t, roots, mates, r);
    SortDistinct(t, roots, mates);
    PlaceIsAhead(t, roots, mates, r);
    PlaceInTail(sorted, r, if |sorted| <= cap then |sorted| else cap);
  }

  // ----- The cap on test files -----

  /** Fifteen percent of the budget rounded up, and three at least. */
  function CapTests(maxNodes: int): (cap: int)
    ensures cap >= 3 && 20 * cap >= 3 * maxNodes
    ensures cap > 3 ==> 20 * (cap - 1) < 3 * maxNodes
  {
    var share := (3 * maxNodes + 19) / 20;
    if share > 3 then share else 3
  }

  /** The test-file nodes beyond the cap: the later ones. */
  function LateTests(t: map<Id, Node>, ids: seq<Id>, cap: nat): seq<Id> {
    var tests := Where(t, InTests, ids);
    if |tests| <= cap then [] else tests[cap..]
  }

  function RemoveFirst(ids: seq<Id>, id: Id): seq<Id> {
    if ids == [] then []
    else if ids[0] == id then ids[1..]
    else [ids[0]] + RemoveFirst(ids[1..], id)
  }

  function RemoveEach(ids: seq<Id>, drop: seq<Id>): seq<Id> {
    if drop == [] then ids else RemoveFirst(RemoveEach(ids, drop[..|drop| - 1]), drop[|drop| - 1])
  }

  lemma {:induction false} RemoveFirstIsExcept(t: map<Id, Node>, ids: seq<Id>, id: Id)
    requires Distinct(ids)
    ensures RemoveFirst(ids, id) == Where(t, Except([id]), ids)
  {
    if ids != [] {
      if ids[0] == id {
        assert forall i | 0 <= i < |ids[1..]| :: ids[1..][i] == ids[i + 1];
        WhereAll(t, Except([id]), ids[1..]);
      } else {
        RemoveFirstIsExcept(t, ids[1..], id);
      }
    }
  }

  lemma {:induction false} RemoveEachIsExcept(t: map<Id, Node>, ids: seq<Id>, drop: seq<Id>)
    requires Distinct(ids)
    ensures RemoveEach(ids, drop) == Where(t, Except(drop), ids)
  {
    if drop == [] {
      ExceptNothing(t, ids);
    } else {
      var init, last := drop[..|drop| - 1], drop[|drop| - 1];
      RemoveEachIsExcept(t, ids, init);
      WhereDistinct(t, Except(init), ids);
      RemoveFirstIsExcept(t, Where(t, Except(init), ids), last);
      ExceptBoth(t, ids, init, [last]);
      assert drop == init + [last];
    }
  }

  method TrimTests(t: map<Id, Node>, ids: seq<Id>, roots: seq<Id>, maxNodes: int) returns (kept: seq<Id>, anchors: seq<Id>)
    requires InTable(t, ids)
    ensures kept == Where(t, Except(LateTests(t, ids, CapTests(maxNodes))), ids)
    ensures anchors == RemoveEach(roots, LateTests(t, ids, CapTests(maxNodes)))
  {
    WhereNothing(t, InTests);
    hide Where, RemoveFirst;
    var maxNonProd := CapTests(maxNodes);
    var nonProdIds := [];
    for i := 0 to |ids|
      invariant nonProdIds == Where(t, InTests, ids[..i])
    {
      assert ids[..i + 1] == ids[..i] + [ids[i]];
      WhereSnoc(t, InTests, ids[..i], ids[i]);
      if t[ids[i]].test {
        nonProdIds := nonProdIds + [ids[i]];
      }
    }
    assert ids[..|ids|] == ids;
    kept, anchors := ids, roots;
    ExceptNothing(t, ids);
    if |nonProdIds| > maxNonProd {
      var drop := nonProdIds[maxNonProd..];
      for i := 0 to |drop|
        invariant kept == Where(t, Except(drop[..i]), ids)
        invariant anchors == RemoveEach(roots, drop[..i])
      {
        ExceptBoth(t, ids, drop[..i], [drop[i]]);
        assert drop[..i + 1] == drop[..i] + [drop[i]] && drop[..i + 1][..i] == drop[..i];
        kept := Where(t, Except([drop[i]]), kept);
        anchors := RemoveFirst(anchors, drop[i]);
      }
      assert drop[..|drop|] == drop;
    }
  }

  /** The earliest test-file nodes stay, up to the cap. */
  lemma TestsLeft(t: map<Id, Node>, ids: seq<Id>, cap: nat)
    requires Distinct(ids)
    ensures Where(t, InTests, Where(t, Except(LateTests(t, ids, cap)), ids)) == AtMost(Where(t, InTests, ids), cap)
  {
    hide Where;
    var tests, late := Where(t, InTests, ids), LateTests(t, ids, cap);
    WhereSwap(t, Except(late), InTests, ids);
    WhereDistinct(t, InTests, ids);
    if |tests| <= cap {
      ExceptNothing(t, tests);
    } else {
      var early := tests[..cap];
      assert tests == early + late;
      WhereConcat(t, Except(late), early, late);
      assert forall j | 0 <= j < |late| :: late[j] == tests[cap + j];
      WhereAll(t, Except(late), early);
      WhereNone(t, Except(late), late);
    }
  }

  // ----- Edges -----

  function Inside(edges: seq<Edge>, ids: seq<Id>): seq<Edge> {
    if edges == [] then []
    else if edges[0].source in ids && edges[0].target in ids then [edges[0]] + Inside(edges[1..], ids)
    else Inside(edges[1..], ids)
  }

  ghost predicate Closed(edges: seq<Edge>, ids: seq<Id>) {
    forall i | 0 <= i < |edges| :: edges[i].source in ids && edges[i].target in ids
  }

  predicate SameTriple(a: Edge, b: Edge) {
    a.source == b.source && a.target == b.target && a.kind == b.kind
  }

  ghost predicate DistinctTriples(edges: seq<Edge>) {
    forall i, j | 0 <= i < j < |edges| :: !SameTriple(edges[i], edges[j])
  }

  function Key(e: Edge): string {
    e.source + ":" + e.target + ":" + e.kind
  }

  ghost predicate HasKey(edges: seq<Edge>, key: string) {
    exists i :: 0 <= i < |edges| && Key(edges[i]) == key
  }

  lemma {:induction false} InsideHolds(edges: seq<Edge>, ids: seq<Id>, e: Edge)
    ensures e in Inside(edges, ids) <==> e in edges && e.source in ids && e.target in ids
  {
    if edges != [] {
      InsideHolds(edges[1..], ids, e);
      assert edges == [edges[0]] + edges[1..];
    }
  }

  lemma InsideIsClosed(edges: seq<Edge>, ids: seq<Id>)
    ensures Closed(Inside(edges, ids), ids)
  {
    var r := Inside(edges, ids);
    forall i | 0 <= i < |r| ensures r[i].source in ids && r[i].target in ids {
      InsideHolds(edges, ids, r[i]);
    }
  }

  lemma {:induction false} InsideDistinct(edges: seq<Edge>, ids: seq<Id>)
    requires DistinctTriples(edges)
    ensures DistinctTriples(Inside(edges, ids))
  {
    if edges != [] {
      var rest := Inside(edges[1..], ids);
      InsideDistinct(edges[1..], ids);
      forall j | 0 <= j < |rest| ensures !SameTriple(edges[0], rest[j]) {
        InsideHolds(edges[1..], ids, rest[j]);
        var k :| 0 <= k < |edges[1..]| && edges[1..][k] == rest[j];
        assert edges[k + 1] == rest[j];
      }
    }
  }

  /** Filtering the edges early as well makes no difference to the last filter. */
  lemma {:induction false} InsideTwice(edges: seq<Edge>, more: seq<Id>, ids: seq<Id>)
    requires forall id | id in ids :: id in more
    ensures Inside(Inside(edges, more), ids) == Inside(edges, ids)
  {
    if edges != [] {
      InsideTwice(edges[1..], more, ids);
    }
  }

  /** Found edges whose key is not there yet are appended, in order. */
  function Recovered(edges: seq<Edge>, found: seq<Edge>): seq<Edge>
    decreases |found|
  {
    if found == [] then edges
    else if Key(found[0]) in Keys(edges) then Recovered(edges, found[1..])
    else Recovered(edges + [found[0]], found[1..])
  }

  function Keys(edges: seq<Edge>): set<string> {
    set i | 0 <= i < |edges| :: Key(edges[i])
  }

  ghost predicate HasTriple(edges: seq<Edge>, e: Edge) {
    exists i :: 0 <= i < |edges| && SameTriple(edges[i], e)
  }

  /** How the edges of each traversal are merged in: no duplicate arises, and none is missed. */
  method MergeEdges(edges: seq<Edge>, more: seq<Edge>) returns (all: seq<Edge>)
    requires DistinctTriples(edges)
    ensures edges <= all && DistinctTriples(all)
    ensures forall k | 0 <= k < |more| :: HasTriple(all, more[k])
    ensures forall i | |edges| <= i < |all| :: all[i] in more
  {
    all := edges;
    for k := 0 to |more|
      invariant edges <= all && DistinctTriples(all)
      invariant forall j | 0 <= j < k :: HasTriple(all, more[j])
      invariant forall i | |edges| <= i < |all| :: all[i] in more
    {
      var known := exists i :: 0 <= i < |all| && SameTriple(all[i], more[k]);
      ghost var before := all;
      if !known {
        all := all + [more[k]];
        assert SameTriple(all[|before|], more[k]);
      }
      forall j | 0 <= j <= k ensures HasTriple(all, more[j]) {
        if j < k {
          var i :| 0 <= i < |before| && SameTriple(before[i], more[j]);
          assert SameTriple(all[i], more[j]);
        }
      }
    }
  }

  method FilterEdges(edges: seq<Edge>, ids: seq<Id>) returns (kept: seq<Edge>)
    ensures kept == Inside(edges, ids)
  {
    kept := [];
    for i := 0 to |edges|
      invariant kept + Inside(edges[i..], ids) == Inside(edges, ids)
    {
      assert edges[i..][0] == edges[i] && edges[i..][1..] == edges[i + 1..];
      if edges[i].source in ids && edges[i].target in ids {
        kept := kept + [edges[i]];
      }
    }
  }

  method RecoverEdges(edges: seq<Edge>, found: seq<Edge>) returns (all: seq<Edge>)
    ensures all == Recovered(edges, found)
  {
    all := edges;
    var existingEdgeKeys := Keys(edges);
    for i := 0 to |found|
      invariant existingEdgeKeys == Keys(all)
      invariant Recovered(all, found[i..]) == Recovered(edges, found)
    {
      assert found[i..][0] == found[i] && found[i..][1..] == found[i + 1..];
      var key := Key(found[i]);
      if key !in existingEdgeKeys {
        KeysSnoc(all, found[i]);
        all := all + [found[i]];
        existingEdgeKeys := existingEdgeKeys + {key};
      }
    }
  }

  lemma KeysSnoc(edges: seq<Edge>, e: Edge)
    ensures Keys(edges + [e]) == Keys(edges) + {Key(e)}
  {
    var more := edges + [e];
    assert forall i | 0 <= i < |edges| :: more[i] == edges[i];
    assert more[|edges|] == e;
    forall k ensures k in Keys(more) <==> k in Keys(edges) + {Key(e)} {
      if k in Keys(edges) {
        var i :| 0 <= i < |edges| && Key(edges[i]) == k;
        assert Key(more[i]) == k;
      }
    }
  }

  lemma FreshKeyIsFreshTriple(edges: seq<Edge>, e: Edge)
    requires DistinctTriples(edges) && Key(e) !in Keys(edges)
    ensures DistinctTriples(edges + [e])
  {
    forall i | 0 <= i < |edges| ensures !SameTriple(edges[i], e) {
      assert Key(edges[i]) in Keys(edges);
    }
  }

  /** After recovery too, no two edges share source, target and kind. */
  lemma {:induction false} RecoveredDistinct(edges: seq<Edge>, found: seq<Edge>)
    requires DistinctTriples(edges)
    ensures DistinctTriples(Recovered(edges, found))
    decreases |found|
  {
    if found != [] {
      if Key(found[0]) in Keys(edges) {
        RecoveredDistinct(edges, found[1..]);
      } else {
        FreshKeyIsFreshTriple(edges, found[0]);
        RecoveredDistinct(edges + [found[0]], found[1..]);
      }
    }
  }

  /** After recovery too, no endpoint is missing. */
  lemma {:induction false} RecoveredClosed(edges: seq<Edge>, found: seq<Edge>, ids: seq<Id>)
    requires Closed(edges, ids) && Closed(found, ids)
    ensures Closed(Recovered(edges, found), ids)
    decreases |found|
  {
    if found != [] {
      assert forall i | 0 <= i < |found[1..]| :: found[1..][i] == found[i + 1];
      RecoveredClosed(if Key(found[0]) in Keys(edges) then edges else edges + [found[0]], found[1..], ids);
    }
  }

  lemma {:induction false} RecoveredExtends(edges: seq<Edge>, found: seq<Edge>)
    ensures edges <= Recovered(edges, found)
    decreases |found|
  {
    if found != [] {
      RecoveredExtends(if Key(found[0]) in Keys(edges) then edges else edges + [found[0]], found[1..]);
    }
  }

  /** Every found edge is in the result, or one with its key is. */
  lemma {:induction false} RecoveredCovers(edges: seq<Edge>, found: seq<Edge>, k: nat)
    requires k < |found|
    ensures HasKey(Recovered(edges, found), Key(found[k]))
    decreases |found|
  {
    var next := if Key(found[0]) in Keys(edges) then edges else edges + [found[0]];
    var all := Recovered(edges, found);
    if k == 0 {
      RecoveredExtends(next, found[1..]);
      KeysSnoc(edges, found[0]);
      var i :| 0 <= i < |next| && Key(next[i]) == Key(found[0]);
      assert all[i] == next[i];
    } else {
      RecoveredCovers(next, found[1..], k - 1);
    }
  }

  // ----- Keys -----

  ghost predicate ColonFree(s: string) {
    ':' !in s
  }

  /** Two edges of one kind whose joined ends are the same text, cut at different colons: what one source has over the
      other, the other target has over the one. */
  ghost predicate Recut(d: Edge, e: Edge) {
    d.kind == e.kind && exists u :: LongerSource(d, e, u) || LongerSource(e, d, u)
  }

  ghost predicate LongerSource(d: Edge, e: Edge, u: string) {
    d.source == e.source + (":" + u) && e.target == u + (":" + d.target)
  }

  lemma LastColon(x: string, k: string, y: string, l: string)
    requires ColonFree(k) && ColonFree(l) && x + (":" + k) == y + (":" + l)
    ensures x == y && k == l
  {
    var s, t := x + (":" + k), y + (":" + l);
    assert s[|x|] == ':' && t[|y|] == ':';
    assert forall i | |x| < i < |s| :: s[i] == k[i - |x| - 1];
    assert forall i | |y| < i < |t| :: t[i] == l[i - |y| - 1];
    assert |x| == |y|;
    assert x == s[..|x|] && y == t[..|y|] && k == s[|x| + 1..] && l == t[|y| + 1..];
  }

  lemma CutTwice(e: Edge, d: Edge)
    requires e.source + (":" + e.target) == d.source + (":" + d.target) && |e.source| < |d.source|
    ensures exists u :: LongerSource(d, e, u)
  {
    var s := e.source + (":" + e.target);
    var u := d.source[|e.source| + 1..];
    assert s[..|d.source|] == d.source && s[|d.source| + 1..] == d.target;
    assert s[..|e.source|] == e.source && s[|e.source|] == ':' && s[|e.source| + 1..] == e.target;
    assert d.source == e.source + (":" + u);
    assert s[|e.source| + 1..] == u + (":" + d.target);
    assert LongerSource(d, e, u);
  }

  lemma RecutSharesKey(d: Edge, e: Edge, u: string)
    requires d.kind == e.kind && LongerSource(d, e, u)
    ensures Key(d) == Key(e) && !SameTriple(d, e)
  {
    assert |d.source| > |e.source|;
    assert (e.source + (":" + u)) + ":" + d.target == e.source + ":" + (u + (":" + d.target));
  }

  /** The key identifies source, target and kind, up to exactly such a second cut. */
  lemma KeyDecides(d: Edge, e: Edge)
    requires ColonFree(d.kind) && ColonFree(e.kind)
    ensures Key(d) == Key(e) <==> SameTriple(d, e) || Recut(d, e)
    ensures !(SameTriple(d, e) && Recut(d, e))
  {
    if Recut(d, e) {
      var u :| LongerSource(d, e, u) || LongerSource(e, d, u);
      if LongerSource(d, e, u) {
        RecutSharesKey(d, e, u);
      } else {
        RecutSharesKey(e, d, u);
      }
    } else if Key(d) == Key(e) {
      var x, y := d.source + (":" + d.target), e.source + (":" + e.target);
      assert Key(d) == x + (":" + d.kind) && Key(e) == y + (":" + e.kind);
      LastColon(x, d.kind, y, e.kind);
      if |d.source| < |e.source| {
        CutTwice(d, e);
      } else if |e.source| < |d.source| {
        CutTwice(e, d);
      } else {
        assert d.source == x[..|d.source|] && e.source == y[..|e.source|];
        assert d.target == x[|d.source| + 1..] && e.target == y[|e.source| + 1..];
      }
    }
  }

  ghost predicate ColonFreeKinds(edges: seq<Edge>) {
    forall i | 0 <= i < |edges| :: ColonFree(edges[i].kind)
  }

  /** No edge of a list shares `e`'s key without being `e`. */
  ghost predicate Unshadowed(edges: seq<Edge>, e: Edge) {
    forall i | 0 <= i < |edges| :: !Recut(edges[i], e)
  }

  /** `e` is found, and nothing that shares its key is there before it. */
  ghost predicate FoundInTime(edges: seq<Edge>, found: seq<Edge>, e: Edge, k: nat) {
    k < |found| && SameTriple(found[k], e) && Unshadowed(edges + found[..k], e)
  }

  ghost predicate FoundFirst(edges: seq<Edge>, found: seq<Edge>, e: Edge) {
    exists k: nat :: FoundInTime(edges, found, e, k)
  }

  lemma HeldKey(edges: seq<Edge>, e: Edge)
    requires ColonFreeKinds(edges) && ColonFree(e.kind) && Key(e) in Keys(edges)
    ensures HasTriple(edges, e) || !Unshadowed(edges, e)
  {
    var i :| 0 <= i < |edges| && Key(edges[i]) == Key(e);
    KeyDecides(edges[i], e);
  }

  lemma FreshKey(edges: seq<Edge>, e: Edge)
    requires ColonFreeKinds(edges) && ColonFree(e.kind) && Key(e) !in Keys(edges)
    ensures Unshadowed(edges, e) && !HasTriple(edges, e)
  {
    forall i | 0 <= i < |edges|
      ensures !Recut(edges[i], e) && !SameTriple(edges[i], e)
    {
      assert Key(edges[i]) in Keys(edges);
      KeyDecides(edges[i], e);
    }
  }

  lemma SameTripleSameKey(d: Edge, e: Edge)
    requires SameTriple(d, e)
    ensures Key(d) == Key(e) && forall x: Edge :: Recut(x, d) <==> Recut(x, e)
  {
    assert forall x: Edge, u :: LongerSource(x, d, u) <==> LongerSource(x, e, u);
    assert forall x: Edge, u :: LongerSource(d, x, u) <==> LongerSource(e, x, u);
  }

  /** When the first found edge's key is taken already, it may be dropped from consideration. */
  lemma FoundSkipped(edges: seq<Edge>, found: seq<Edge>, e: Edge)
    requires found != [] && ColonFreeKinds(edges) && ColonFreeKinds(found) && ColonFree(e.kind)
    requires Key(found[0]) in Keys(edges)
    ensures HasTriple(edges, e) || FoundFirst(edges, found, e) <==> HasTriple(edges, e) || FoundFirst(edges, found[1..], e)
  {
    var rest := found[1..];
    if k: nat :| FoundInTime(edges, found, e, k) {
      if k == 0 {
        SameTripleSameKey(found[0], e);
        HeldKey(edges, e);
        assert edges + found[..0] == edges;
      } else {
        assert found[..k] == [found[0]] + rest[..k - 1];
        UnshadowedParts(edges, found[0], rest[..k - 1], e);
        assert FoundInTime(edges, rest, e, k - 1);
      }
    }
    if k: nat :| FoundInTime(edges, rest, e, k) {
      assert found[..k + 1] == [found[0]] + rest[..k];
      UnshadowedParts(edges, found[0], rest[..k], e);
      if Recut(found[0], e) {
        KeyDecides(found[0], e);
        HeldKey(edges, e);
      } else {
        assert FoundInTime(edges, found, e, k + 1);
      }
    }
  }

  lemma UnshadowedParts(edges: seq<Edge>, d: Edge, more: seq<Edge>, e: Edge)
    ensures Unshadowed(edges + ([d] + more), e) <==> Unshadowed(edges + more, e) && !Recut(d, e)
    ensures Unshadowed((edges + [d]) + more, e) <==> Unshadowed(edges + more, e) && !Recut(d, e)
    ensures Unshadowed(edges + more, e) ==> Unshadowed(edges, e)
  {
    UnshadowedConcat(edges, more, e);
    UnshadowedConcat(edges, [d] + more, e);
    UnshadowedConcat([d], more, e);
    UnshadowedConcat(edges + [d], more, e);
    UnshadowedConcat(edges, [d], e);
    assert Unshadowed([d], e) <==> !Recut(d, e) by {
      assert [d][0] == d;
    }
  }

  lemma UnshadowedConcat(a: seq<Edge>, b: seq<Edge>, e: Edge)
    ensures Unshadowed(a + b, e) <==> Unshadowed(a, e) && Unshadowed(b, e)
  {
    assert forall i | 0 <= i < |a| :: (a + b)[i] == a[i];
    assert forall i | 0 <= i < |b| :: (a + b)[|a| + i] == b[i];
  }

  /** When its key is fresh, the first found edge joins. */
  lemma FoundJoins(edges: seq<Edge>, found: seq<Edge>, e: Edge)
    requires found != [] && ColonFreeKinds(edges) && ColonFreeKinds(found) && ColonFree(e.kind)
    requires Key(found[0]) !in Keys(edges)
    ensures HasTriple(edges, e) || FoundFirst(edges, found, e)
       <==> HasTriple(edges + [found[0]], e) || FoundFirst(edges + [found[0]], found[1..], e)
  {
    var rest, next := found[1..], edges + [found[0]];
    HasTripleSnoc(edges, found[0], e);
    if SameTriple(found[0], e) {
      SameTripleSameKey(found[0], e);
      FreshKey(edges, e);
      assert edges + found[..0] == edges;
      assert FoundInTime(edges, found, e, 0);
    }
    if k: nat :| FoundInTime(edges, found, e, k) {
      if k > 0 {
        assert edges + found[..k] == next + rest[..k - 1];
        assert FoundInTime(next, rest, e, k - 1);
      }
    }
    if k: nat :| FoundInTime(next, rest, e, k) {
      assert edges + found[..k + 1] == next + rest[..k];
      assert FoundInTime(edges, found, e, k + 1);
    }
  }

  lemma HasTripleSnoc(edges: seq<Edge>, d: Edge, e: Edge)
    ensures HasTriple(edges + [d], e) <==> HasTriple(edges, e) || SameTriple(d, e)
  {
    var more := edges + [d];
    assert forall i | 0 <= i < |edges| :: more[i] == edges[i];
    assert more[|edges|] == d;
  }

  /** Exactly which edges are there after recovery: those there before, and each found edge that no edge with the same
      key, cut elsewhere, comes before. */
  lemma {:induction false} RecoveredExactly(edges: seq<Edge>, found: seq<Edge>, e: Edge)
    requires ColonFreeKinds(edges) && ColonFreeKinds(found) && ColonFree(e.kind)
    ensures HasTriple(Recovered(edges, found), e) <==> HasTriple(edges, e) || FoundFirst(edges, found, e)
    decreases |found|
  {
    if found == [] {
    } else {
      hide HasTriple, FoundFirst;
      var rest := found[1..];
      assert forall i | 0 <= i < |rest| :: rest[i] == found[i + 1];
      if Key(found[0]) in Keys(edges) {
        FoundSkipped(edges, found, e);
        RecoveredExactly(edges, rest, e);
      } else {
        FoundJoins(edges, found, e);
        RecoveredExactly(edges + [found[0]], rest, e);
      }
    }
  }

  // ----- Which ids make it complete -----

  /** `id` goes on, after some colon of its own, as `end`. */
  ghost predicate EndsAfterColon(id: Id, end: Id) {
    exists u :: id == u + (":" + end)
  }

  /** No target ends, after a colon, in another target. */
  ghost predicate TargetsApart(edges: seq<Edge>) {
    forall i, j | 0 <= i < |edges| && 0 <= j < |edges| :: !EndsAfterColon(edges[i].target, edges[j].target)
  }

  /** Whatever the sources are, recovery misses no found edge when no target ends, after a colon, in another. */
  lemma {:induction false} RecoveryIsComplete(edges: seq<Edge>, found: seq<Edge>, k: nat)
    requires ColonFreeKinds(edges) && ColonFreeKinds(found) && TargetsApart(edges + found)
    requires k < |found|
    ensures HasTriple(Recovered(edges, found), found[k])
  {
    var all, e := edges + found, found[k];
    var before := edges + found[..k];
    assert all[|edges| + k] == e;
    forall i | 0 <= i < |before|
      ensures !Recut(before[i], e)
    {
      assert before[i] == all[i];
      forall u
        ensures !LongerSource(all[i], e, u) && !LongerSource(e, all[i], u)
      {
        assert e.target == u + (":" + all[i].target) ==> EndsAfterColon(e.target, all[i].target);
        assert all[i].target == u + (":" + e.target) ==> EndsAfterColon(all[i].target, e.target);
      }
    }
    RecoveredExactly(edges, found, e);
    assert FoundInTime(edges, found, e, k);
  }

  /** An id made of a tag, one colon, and the rest: a kind and a hash, or `file` and a path without colons. */
  ghost predicate OneColon(id: Id) {
    exists tag, rest :: IsTagged(id, tag, rest)
  }

  ghost predicate IsTagged(id: Id, tag: string, rest: string) {
    id == tag + (":" + rest) && ColonFree(tag) && ColonFree(rest)
  }

  /** Targets with one colon never end in one another. Sources may be routes, views or anything else. */
  lemma OneColonTargetsApart(edges: seq<Edge>)
    requires forall i | 0 <= i < |edges| :: OneColon(edges[i].target)
    ensures TargetsApart(edges)
  {
    forall i, j | 0 <= i < |edges| && 0 <= j < |edges|
      ensures !EndsAfterColon(edges[i].target, edges[j].target)
    {
      OneColonHasNoTail(edges[i].target, edges[j].target);
    }
  }

  lemma OneColonHasNoTail(id: Id, end: Id)
    requires OneColon(id) && OneColon(end)
    ensures !EndsAfterColon(id, end)
  {
    var tag, rest :| IsTagged(id, tag, rest);
    var tag', rest' :| IsTagged(end, tag', rest');
    forall u
      ensures id != u + (":" + end)
    {
      var t := u + (":" + end);
      assert t[|u|] == ':' && t[|u| + 1 + |tag'|] == ':';
      assert forall i | 0 <= i < |id| && i != |tag| :: id[i] != ':' by {
        assert forall i | 0 <= i < |tag| :: id[i] == tag[i];
        assert forall i | |tag| < i < |id| :: id[i] == rest[i - |tag| - 1];
      }
    }
  }

  // ----- Ids that carry a path -----

  function FileId(path: string): Id {
    "file:" + path
  }

  /** Of two found edges with one key, only the first is recovered. */
  lemma SharedKeyLosesEdge(a: Edge, b: Edge)
    requires Key(a) == Key(b)
    ensures Recovered([], [a, b]) == [a]
  {
    var none: seq<Edge> := [];
    assert none + [a] == [a];
    assert [a, b][1..] == [b] && [b][1..] == none;
    assert Recovered(none, [a, b]) == Recovered([a], [b]);
    assert Key([a][0]) in Keys([a]);
  }

  /** Between files whose paths hold a colon, an edge can be lost: of the edges from file `p` to file `file:q` and from
      file `p:file` to file `q`, only the first found is recovered. */
  lemma ColonInPathLosesEdge(p: string, q: string, kind: string, m: nat, n: nat)
    ensures var a := Edge(FileId(p), FileId("file:" + q), kind, m);
            var b := Edge(FileId(p + ":file"), FileId(q), kind, n);
            !SameTriple(a, b) && Recovered([], [a, b]) == [a]
  {
    var a := Edge(FileId(p), FileId("file:" + q), kind, m);
    var b := Edge(FileId(p + ":file"), FileId(q), kind, n);
    assert b.source == a.source + (":" + "file");
    assert a.target == "file" + (":" + b.target);
    RecutSharesKey(b, a, "file");
    SharedKeyLosesEdge(a, b);
  }

  /** Between files, exactly when: one path goes on where the other ends, and its target's path ends in the other's. */
  lemma FilesRecut(d: Edge, e: Edge, p: string, q: string, p': string, q': string)
    requires d.kind == e.kind
    requires d.source == FileId(p) && d.target == FileId(q) && e.source == FileId(p') && e.target == FileId(q')
    ensures Recut(d, e) <==>
            exists u :: (p == p' + (":" + u) && FileId(q') == u + (":" + FileId(q)))
                     || (p' == p + (":" + u) && FileId(q) == u + (":" + FileId(q')))
  {
    forall u
      ensures FileId(p) == FileId(p') + (":" + u) <==> p == p' + (":" + u)
      ensures FileId(p') == FileId(p) + (":" + u) <==> p' == p + (":" + u)
    {
      FileIdExtends(p, p', u);
      FileIdExtends(p', p, u);
    }
    if u :| LongerSource(d, e, u) || LongerSource(e, d, u) {
      assert FileId(p) == FileId(p') + (":" + u) || FileId(p') == FileId(p) + (":" + u);
    }
    if u :| (p == p' + (":" + u) && FileId(q') == u + (":" + FileId(q))) || (p' == p + (":" + u) && FileId(q) == u + (":" + FileId(q'))) {
      assert LongerSource(d, e, u) || LongerSource(e, d, u);
    }
  }

  lemma FileIdExtends(p: string, p': string, u: string)
    ensures FileId(p) == FileId(p') + (":" + u) <==> p == p' + (":" + u)
  {
    assert FileId(p)[5..] == p && (FileId(p') + (":" + u))[5..] == p' + (":" + u);
    assert "file:" + (p' + (":" + u)) == FileId(p') + (":" + u);
  }

  // ----- The whole of it -----

  const RECOVERY_KINDS: seq<string> := ["calls", "extends", "implements", "references", "overrides"]

  /** The stored edges of the given kinds between the given nodes. */
  function FindEdgesBetweenNodes(stored: seq<Edge>, ids: seq<Id>, kinds: seq<string>): seq<Edge> {
    if stored == [] then []
    else if stored[0].source in ids && stored[0].target in ids && stored[0].kind in kinds then
      [stored[0]] + FindEdgesBetweenNodes(stored[1..], ids, kinds)
    else FindEdgesBetweenNodes(stored[1..], ids, kinds)
  }

  lemma {:induction false} FoundHolds(stored: seq<Edge>, ids: seq<Id>, kinds: seq<string>, e: Edge)
    ensures e in FindEdgesBetweenNodes(stored, ids, kinds)
       <==> e in stored && e.source in ids && e.target in ids && e.kind in kinds
  {
    if stored != [] {
      FoundHolds(stored[1..], ids, kinds, e);
      assert stored == [stored[0]] + stored[1..];
    }
  }

  lemma FoundIsClosed(stored: seq<Edge>, ids: seq<Id>, kinds: seq<string>)
    ensures Closed(FindEdgesBetweenNodes(stored, ids, kinds), ids)
  {
    var r := FindEdgesBetweenNodes(stored, ids, kinds);
    forall i | 0 <= i < |r| ensures r[i].source in ids && r[i].target in ids {
      FoundHolds(stored, ids, kinds, r[i]);
    }
  }

  /** The nodes left by the three caps, one after the other. */
  function Selected(t: map<Id, Node>, nodes: seq<Id>, roots: seq<Id>, edges: seq<Edge>, maxNodes: int): seq<Id> {
    if |nodes| > maxNodes then AtMost(Ordered(t, nodes, roots, edges), if maxNodes < 0 then 0 else maxNodes) else nodes
  }

  function Thinned(t: map<Id, Node>, nodes: seq<Id>, roots: seq<Id>, edges: seq<Edge>, maxNodes: int): seq<Id> {
    PerFile(t, Selected(t, nodes, roots, edges, maxNodes), roots, CapPerFile(maxNodes))
  }

  function Late(t: map<Id, Node>, ids: seq<Id>, maxNodes: int, isTestQuery: bool): seq<Id> {
    if isTestQuery then [] else LateTests(t, ids, CapTests(maxNodes))
  }

  function FinalNodes(t: map<Id, Node>, nodes: seq<Id>, roots: seq<Id>, edges: seq<Edge>, maxNodes: int, isTestQuery: bool): seq<Id> {
    var ids := Thinned(t, nodes, roots, edges, maxNodes);
    Where(t, Except(Late(t, ids, maxNodes, isTestQuery)), ids)
  }

  lemma OrderedIsDistinct(t: map<Id, Node>, nodes: seq<Id>, roots: seq<Id>, edges: seq<Edge>)
    requires Distinct(nodes)
    ensures Distinct(Ordered(t, nodes, roots, edges))
  {
    var spread := Spread(Unique(roots), edges);
    var priority := Where(t, Among(nodes), spread);
    var others := Where(t, Except(priority), nodes);
    UniqueDistinct(roots);
    SpreadDistinct(Unique(roots), edges);
    WhereDistinct(t, Among(nodes), spread);
    WhereDistinct(t, Except(priority), nodes);
    forall i, j | 0 <= i < |priority| && 0 <= j < |others|
      ensures priority[i] != others[j]
    {
      WhereHolds(t, Except(priority), nodes, others[j]);
    }
  }

  lemma OrderedHolds(t: map<Id, Node>, nodes: seq<Id>, roots: seq<Id>, edges: seq<Edge>, id: Id)
    ensures id in Ordered(t, nodes, roots, edges) <==> id in nodes
  {
    var spread := Spread(Unique(roots), edges);
    var priority := Where(t, Among(nodes), spread);
    WhereHolds(t, Among(nodes), spread, id);
    WhereHolds(t, Except(priority), nodes, id);
  }

  lemma SelectedIsDistinct(t: map<Id, Node>, nodes: seq<Id>, roots: seq<Id>, edges: seq<Edge>, maxNodes: int)
    requires Distinct(nodes)
    ensures Distinct(Selected(t, nodes, roots, edges, maxNodes))
  {
    OrderedIsDistinct(t, nodes, roots, edges);
  }

  lemma SelectedHolds(t: map<Id, Node>, nodes: seq<Id>, roots: seq<Id>, edges: seq<Edge>, maxNodes: int, id: Id)
    requires id in Selected(t, nodes, roots, edges, maxNodes)
    ensures id in nodes
  {
    OrderedHolds(t, nodes, roots, edges, id);
  }

  /** With room for them, no entry point is lost to the cap on nodes. */
  lemma EntryPointsSurvive(t: map<Id, Node>, nodes: seq<Id>, roots: seq<Id>, edges: seq<Edge>, maxNodes: int, r: Id)
    requires Distinct(nodes) && |Unique(roots)| <= maxNodes
    requires r in roots && r in nodes
    ensures r in Selected(t, nodes, roots, edges, maxNodes)
  {
    var unique, spread := Unique(roots), Spread(Unique(roots), edges);
    if |nodes| > maxNodes {
      UniqueHolds(roots, r);
      SpreadExtends(unique, edges);
      assert spread == unique + spread[|unique|..];
      WhereConcat(t, Among(nodes), unique, spread[|unique|..]);
      WhereHolds(t, Among(nodes), unique, r);
      WhereShorter(t, Among(nodes), unique);
      var first := Where(t, Among(nodes), unique);
      var i :| 0 <= i < |first| && first[i] == r;
      assert Ordered(t, nodes, roots, edges)[i] == r;
    }
  }

  /** The three budgets hold together. */
  lemma BudgetsHold(t: map<Id, Node>, nodes: seq<Id>, roots: seq<Id>, edges: seq<Edge>, maxNodes: int, isTestQuery: bool, file: string)
    requires Distinct(nodes) && InTable(t, nodes)
    ensures var final := FinalNodes(t, nodes, roots, edges, maxNodes, isTestQuery);
            && |final| <= (if maxNodes < 0 then 0 else maxNodes)
            && |Where(t, InFile(file), final)| <= CapPerFile(maxNodes)
            && (!isTestQuery ==> |Where(t, InTests, final)| <= CapTests(maxNodes))
  {
    var selected := Selected(t, nodes, roots, edges, maxNodes);
    var spread := Thinned(t, nodes, roots, edges, maxNodes);
    var late := Late(t, spread, maxNodes, isTestQuery);
    SelectedIsDistinct(t, nodes, roots, edges, maxNodes);
    SelectedInTable(t, nodes, roots, edges, maxNodes);
    var over := Overflows(t, roots, selected, AllFiles(t, selected), CapPerFile(maxNodes));
    WhereShorter(t, Except(over), selected);
    WhereShorter(t, Except(late), spread);
    LeftOfFile(t, roots, selected, CapPerFile(maxNodes), file);
    WhereSwap(t, Except(late), InFile(file), spread);
    WhereShorter(t, Except(late), Where(t, InFile(file), spread));
    WhereDistinct(t, Except(over), selected);
    TestsLeft(t, spread, CapTests(maxNodes));
  }

  lemma SelectedInTable(t: map<Id, Node>, nodes: seq<Id>, roots: seq<Id>, edges: seq<Edge>, maxNodes: int)
    requires InTable(t, nodes)
    ensures InTable(t, Selected(t, nodes, roots, edges, maxNodes))
  {
    var r := Selected(t, nodes, roots, edges, maxNodes);
    forall i | 0 <= i < |r| ensures r[i] in t {
      SelectedHolds(t, nodes, roots, edges, maxNodes, r[i]);
    }
  }

  lemma PerFileInTable(t: map<Id, Node>, ids: seq<Id>, roots: seq<Id>, cap: nat)
    requires InTable(t, ids)
    ensures InTable(t, PerFile(t, ids, roots, cap))
  {
    var over := Overflows(t, roots, ids, AllFiles(t, ids), cap);
    var r := PerFile(t, ids, roots, cap);
    forall i | 0 <= i < |r| ensures r[i] in t {
      WhereHolds(t, Except(over), ids, r[i]);
    }
  }

  datatype Subgraph = Subgraph(nodes: seq<Id>, edges: seq<Edge>, roots: seq<Id>)

  method TrimSubgraph(t: map<Id, Node>, nodes: seq<Id>, edges: seq<Edge>, roots: seq<Id>, maxNodes: int, isTestQuery: bool,
                      stored: seq<Edge>) returns (g: Subgraph)
    requires Distinct(nodes) && InTable(t, nodes)
    ensures g.nodes == FinalNodes(t, nodes, roots, edges, maxNodes, isTestQuery)
    ensures g.edges == Recovered(Inside(edges, g.nodes), FindEdgesBetweenNodes(stored, g.nodes, RECOVERY_KINDS))
    ensures g.roots == RemoveEach(roots, Late(t, Thinned(t, nodes, roots, edges, maxNodes), maxNodes, isTestQuery))
    ensures DistinctTriples(edges) ==> DistinctTriples(g.edges)
    ensures Closed(g.edges, g.nodes)
  {
    var finalNodes, finalEdges := nodes, edges;
    if |nodes| > maxNodes {
      finalNodes := TrimToMax(t, nodes, roots, edges, maxNodes);
      finalEdges := FilterEdges(edges, finalNodes);
    }
    SelectedInTable(t, nodes, roots, edges, maxNodes);
    ghost var selected := finalNodes;
    finalNodes := TrimPerFile(t, finalNodes, roots, maxNodes);
    PerFileInTable(t, selected, roots, CapPerFile(maxNodes));
    ghost var spread := finalNodes;
    var anchors := roots;
    ExceptNothing(t, spread);
    if !isTestQuery {
      finalNodes, anchors := TrimTests(t, finalNodes, roots, maxNodes);
    }
    FinalIsSelected(t, nodes, roots, edges, maxNodes, isTestQuery);
    if |nodes| > maxNodes {
      InsideTwice(edges, selected, finalNodes);
    }
    finalEdges := FilterEdges(finalEdges, finalNodes);
    var found := FindEdgesBetweenNodes(stored, finalNodes, RECOVERY_KINDS);
    finalEdges := RecoverEdges(finalEdges, found);
    RecoveryKeepsClosed(edges, stored, finalNodes);
    g := Subgraph(finalNodes, finalEdges, anchors);
  }

  lemma FinalIsSelected(t: map<Id, Node>, nodes: seq<Id>, roots: seq<Id>, edges: seq<Edge>, maxNodes: int, isTestQuery: bool)
    ensures forall id | id in FinalNodes(t, nodes, roots, edges, maxNodes, isTestQuery) :: id in Selected(t, nodes, roots, edges, maxNodes)
  {
    var selected := Selected(t, nodes, roots, edges, maxNodes);
    var spread := Thinned(t, nodes, roots, edges, maxNodes);
    forall id | id in FinalNodes(t, nodes, roots, edges, maxNodes, isTestQuery)
      ensures id in selected
    {
      WhereHolds(t, Except(Late(t, spread, maxNodes, isTestQuery)), spread, id);
      WhereHolds(t, Except(Overflows(t, roots, selected, AllFiles(t, selected), CapPerFile(maxNodes))), selected, id);
    }
  }

  lemma RecoveryKeepsClosed(edges: seq<Edge>, stored: seq<Edge>, ids: seq<Id>)
    ensures var all := Recovered(Inside(edges, ids), FindEdgesBetweenNodes(stored, ids, RECOVERY_KINDS));
            Closed(all, ids) && (DistinctTriples(edges) ==> DistinctTriples(all))
  {
    var found := FindEdgesBetweenNodes(stored, ids, RECOVERY_KINDS);
    InsideIsClosed(edges, ids);
    FoundIsClosed(stored, ids, RECOVERY_KINDS);
    RecoveredClosed(Inside(edges, ids), found, ids);
    if DistinctTriples(edges) {
      InsideDistinct(edges, ids);
      RecoveredDistinct(Inside(edges, ids), found);
    }
  }

  ghost predicate RecoveryKind(kind: string) {
    kind == "calls" || kind == "extends" || kind == "implements" || kind == "references" || kind == "overrides"
  }

  lemma {:induction false} RecoveredFrom(edges: seq<Edge>, found: seq<Edge>, e: Edge)
    requires e in Recovered(edges, found)
    ensures e in edges || e in found
    decreases |found|
  {
    if found != [] {
      assert found == [found[0]] + found[1..];
      RecoveredFrom(if Key(found[0]) in Keys(edges) then edges else edges + [found[0]], found[1..], e);
    }
  }

  /** The edges of the result: those there were between its nodes, and stored calls, extensions, implementations,
      references and overrides between them, none of them left out unless one has its key. */
  lemma EdgesAre(edges: seq<Edge>, stored: seq<Edge>, ids: seq<Id>, e: Edge)
    ensures var all := Recovered(Inside(edges, ids), FindEdgesBetweenNodes(stored, ids, RECOVERY_KINDS));
            && (e in all ==> e.source in ids && e.target in ids && (e in edges || (e in stored && RecoveryKind(e.kind))))
            && (e in edges && e.source in ids && e.target in ids ==> e in all)
            && (e in stored && RecoveryKind(e.kind) && e.source in ids && e.target in ids ==> HasKey(all, Key(e)))
  {
    hide Recovered, Inside, FindEdgesBetweenNodes, HasKey, Key;
    var inside, found := Inside(edges, ids), FindEdgesBetweenNodes(stored, ids, RECOVERY_KINDS);
    var all := Recovered(inside, found);
    InsideHolds(edges, ids, e);
    FoundHolds(stored, ids, RECOVERY_KINDS, e);
    RecoveredExtends(inside, found);
    if e in all {
      RecoveredFrom(inside, found, e);
    }
    if e in found {
      var k :| 0 <= k < |found| && found[k] == e;
      RecoveredCovers(inside, found, k);
    }
    if e in inside {
      var k :| 0 <= k < |inside| && inside[k] == e;
      assert all[k] == e;
    }
  }

  /** A node survives the cap on nodes exactly when that many do not come before it. */
  lemma SurvivesTrim(t: map<Id, Node>, nodes: seq<Id>, roots: seq<Id>, edges: seq<Edge>, maxNodes: int, r: Id)
    requires Distinct(nodes) && r in nodes
    ensures r in Selected(t, nodes, roots, edges, maxNodes) <==>
            |nodes| <= maxNodes || Place(Ordered(t, nodes, roots, edges), r) < maxNodes
  {
    hide Place, Ordered;
    var ordered := Ordered(t, nodes, roots, edges);
    var max := if maxNodes < 0 then 0 else maxNodes;
    OrderedIsDistinct(t, nodes, roots, edges);
    OrderedHolds(t, nodes, roots, edges, r);
    PlaceInTail(ordered, r, if |ordered| <= max then |ordered| else max);
  }

  /** The roots an entry point dangles among: still listed, but no node of the result. */
  predicate Dangling(t: map<Id, Node>, nodes: seq<Id>, roots: seq<Id>, edges: seq<Edge>, maxNodes: int, isTestQuery: bool, r: Id) {
    && r in RemoveEach(roots, Late(t, Thinned(t, nodes, roots, edges, maxNodes), maxNodes, isTestQuery))
    && r !in FinalNodes(t, nodes, roots, edges, maxNodes, isTestQuery)
  }

  /** Only the cap on test files takes its nodes off the list. An entry point stays listed without being a node exactly
      when `maxNodes` nodes come before it, or as many nodes of its file as the cap per file allows. */
  lemma {:induction false} DanglingRoots(t: map<Id, Node>, nodes: seq<Id>, roots: seq<Id>, edges: seq<Edge>, maxNodes: int, isTestQuery: bool, r: Id)
    requires Distinct(nodes) && InTable(t, nodes) && Distinct(roots) && r in roots && r in nodes && r in t
    ensures Dangling(t, nodes, roots, edges, maxNodes, isTestQuery, r) <==>
            || (|nodes| > maxNodes && Place(Ordered(t, nodes, roots, edges), r) >= maxNodes)
            || Ahead(t, roots, Where(t, InFile(t[r].file), Selected(t, nodes, roots, edges, maxNodes)), r) >= CapPerFile(maxNodes)
  {
    hide Where, Ahead, Place, Ordered, RemoveEach;
    var selected := Selected(t, nodes, roots, edges, maxNodes);
    var spread := Thinned(t, nodes, roots, edges, maxNodes);
    ListedUnlessLate(t, spread, roots, maxNodes, isTestQuery, r);
    SurvivesTrim(t, nodes, roots, edges, maxNodes, r);
    SelectedIsDistinct(t, nodes, roots, edges, maxNodes);
    SelectedInTable(t, nodes, roots, edges, maxNodes);
    if r in selected {
      SurvivesFile(t, selected, roots, CapPerFile(maxNodes), r);
    } else {
      WhereHolds(t, Except(Overflows(t, roots, selected, AllFiles(t, selected), CapPerFile(maxNodes))), selected, r);
    }
  }

  lemma ListedUnlessLate(t: map<Id, Node>, spread: seq<Id>, roots: seq<Id>, maxNodes: int, isTestQuery: bool, r: Id)
    requires Distinct(roots) && r in roots
    ensures var late := Late(t, spread, maxNodes, isTestQuery);
            r in RemoveEach(roots, late) && r !in Where(t, Except(late), spread) <==> r !in spread
  {
    var late := Late(t, spread, maxNodes, isTestQuery);
    RemoveEachIsExcept(t, roots, late);
    WhereHolds(t, Except(late), roots, r);
    WhereHolds(t, Except(late), spread, r);
    if r in late {
      var tests := Where(t, InTests, spread);
      assert r in tests;
      WhereHolds(t, InTests, spread, r);
    }
  }

  lemma {:induction false} EquallyRanked(t: map<Id, Node>, roots: seq<Id>, ids: seq<Id>, i: nat)
    requires Distinct(ids) && i < |ids|
    requires forall k | 0 <= k < |ids| :: RankOf(t, roots, ids[k]) == RankOf(t, roots, ids[i])
    ensures Ahead(t, roots, ids, ids[i]) == i
  {
    if i == 0 {
      NoneHigherThanAll(t, roots, ids[1..], ids[0]);
    } else {
      EquallyRanked(t, roots, ids[1..], i - 1);
    }
  }

  lemma {:induction false} NoneHigherThanAll(t: map<Id, Node>, roots: seq<Id>, ids: seq<Id>, r: Id)
    requires forall k | 0 <= k < |ids| :: RankOf(t, roots, ids[k]) == RankOf(t, roots, r)
    ensures Higher(t, roots, ids, r) == 0
  {
    if ids != [] {
      NoneHigherThanAll(t, roots, ids[1..], r);
    }
  }

  /** With a budget of 20, the sixth of six entry points in one file dangles. */
  lemma SixthEntryPointDangles(ids: seq<Id>, node: Node, isTestQuery: bool)
    requires |ids| == 6 && Distinct(ids)
    ensures Dangling(map id | id in ids :: node, ids, ids, [], 20, isTestQuery, ids[5])
  {
    var t := map id | id in ids :: node;
    WhereAll(t, InFile(node.file), ids);
    EquallyRanked(t, ids, ids, 5);
    DanglingRoots(t, ids, ids, [], 20, isTestQuery, ids[5]);
  }
}
