/** Which nodes of a crowded file stay in a context: entry points first, then types, then code, then the rest, and the
    earlier ones among equals. */
module FileCap {
  import opened SubgraphTrim

  ghost predicate IsType(kind: string) {
    kind == "class" || kind == "interface" || kind == "struct" || kind == "trait" || kind == "protocol" || kind == "enum"
  }

  ghost predicate IsCode(kind: string) {
    kind == "method" || kind == "function"
  }

  ghost predicate KindBefore(a: string, b: string) {
    (IsType(a) && !IsType(b)) || (IsCode(a) && !IsType(b) && !IsCode(b))
  }

  ghost predicate ListedFirst(ids: seq<Id>, a: Id, b: Id) {
    exists i, j :: 0 <= i < j < |ids| && ids[i] == a && ids[j] == b
  }

  /** `a` is kept rather than `b`. */
  ghost predicate GoesBefore(t: map<Id, Node>, roots: seq<Id>, ids: seq<Id>, a: Id, b: Id)
    requires a in t && b in t
  {
    || (a in roots && b !in roots)
    || ((a in roots <==> b in roots)
        && (KindBefore(t[a].kind, t[b].kind) || (!KindBefore(t[b].kind, t[a].kind) && ListedFirst(ids, a, b))))
  }

  /** The nodes of `r`'s file that are kept rather than `r`. */
  ghost function Preferred(t: map<Id, Node>, roots: seq<Id>, ids: seq<Id>, r: Id): set<Id>
    requires r in t
  {
    set a | a in ids && a in t && t[a].file == t[r].file && GoesBefore(t, roots, ids, a, r)
  }

  lemma RankIsOrder(t: map<Id, Node>, roots: seq<Id>, a: Id, b: Id)
    requires a in t && b in t
    ensures RankOf(t, roots, a) > RankOf(t, roots, b) <==>
            (a in roots && b !in roots) || ((a in roots <==> b in roots) && KindBefore(t[a].kind, t[b].kind))
    ensures RankOf(t, roots, a) == RankOf(t, roots, b) <==>
            (a in roots <==> b in roots) && !KindBefore(t[a].kind, t[b].kind) && !KindBefore(t[b].kind, t[a].kind)
  {
  }

  /** Those of a list that rank above `r`. */
  ghost function Above(t: map<Id, Node>, roots: seq<Id>, ids: seq<Id>, r: Id): set<Id> {
    set a | a in ids && RankOf(t, roots, a) > RankOf(t, roots, r)
  }

  lemma AboveFirst(t: map<Id, Node>, roots: seq<Id>, ids: seq<Id>, r: Id)
    requires Distinct(ids) && ids != []
    ensures ids[0] !in Above(t, roots, ids[1..], r)
    ensures Above(t, roots, ids, r)
         == Above(t, roots, ids[1..], r) + if RankOf(t, roots, ids[0]) > RankOf(t, roots, r) then {ids[0]} else {}
  {
    hide RankOf;
    assert ids == [ids[0]] + ids[1..] && ids[0] !in ids[1..];
  }

  lemma {:induction false} HigherCounts(t: map<Id, Node>, roots: seq<Id>, ids: seq<Id>, r: Id)
    requires Distinct(ids)
    ensures Higher(t, roots, ids, r) == |Above(t, roots, ids, r)|
  {
    hide RankOf;
    if ids == [] {
      assert Above(t, roots, ids, r) == {};
    } else {
      AboveFirst(t, roots, ids, r);
      hide Above;
      HigherCounts(t, roots, ids[1..], r);
    }
  }

  /** Those of a list that are sorted before `r`. */
  ghost function Sooner(t: map<Id, Node>, roots: seq<Id>, ids: seq<Id>, r: Id): set<Id> {
    set a | a in ids && (RankOf(t, roots, a) > RankOf(t, roots, r)
                         || (RankOf(t, roots, a) == RankOf(t, roots, r) && ListedFirst(ids, a, r)))
  }

  lemma FirstListed(ids: seq<Id>, a: Id, r: Id)
    requires Distinct(ids) && ids != []
    ensures ids[0] == r ==> !ListedFirst(ids, a, r)
    ensures ids[0] != r && a == ids[0] ==> (ListedFirst(ids, a, r) <==> r in ids)
    ensures ids[0] != r && a != ids[0] ==> (ListedFirst(ids, a, r) <==> ListedFirst(ids[1..], a, r))
  {
    var rest := ids[1..];
    assert forall i | 1 <= i < |ids| :: ids[i] == rest[i - 1];
    if i, j :| 0 <= i < j < |rest| && rest[i] == a && rest[j] == r {
      assert ids[i + 1] == a && ids[j + 1] == r;
    }
  }

  lemma SoonerThanFirst(t: map<Id, Node>, roots: seq<Id>, ids: seq<Id>)
    requires Distinct(ids) && ids != []
    ensures Sooner(t, roots, ids, ids[0]) == Above(t, roots, ids[1..], ids[0])
  {
    hide RankOf, ListedFirst;
    assert ids == [ids[0]] + ids[1..];
    forall a
      ensures a in Sooner(t, roots, ids, ids[0]) <==> a in Above(t, roots, ids[1..], ids[0])
    {
      FirstListed(ids, a, ids[0]);
    }
  }

  lemma SoonerThanLater(t: map<Id, Node>, roots: seq<Id>, ids: seq<Id>, r: Id)
    requires Distinct(ids) && ids != [] && ids[0] != r && r in ids
    ensures Sooner(t, roots, ids, r)
         == Sooner(t, roots, ids[1..], r) + if RankOf(t, roots, ids[0]) >= RankOf(t, roots, r) then {ids[0]} else {}
  {
    hide RankOf, ListedFirst;
    var rest := ids[1..];
    assert ids == [ids[0]] + rest && ids[0] !in rest;
    forall a
      ensures a in Sooner(t, roots, ids, r) <==>
              a in Sooner(t, roots, rest, r) || (a == ids[0] && RankOf(t, roots, ids[0]) >= RankOf(t, roots, r))
    {
      FirstListed(ids, a, r);
    }
  }

  lemma {:induction false} AheadCounts(t: map<Id, Node>, roots: seq<Id>, ids: seq<Id>, r: Id)
    requires Distinct(ids) && r in ids
    ensures Ahead(t, roots, ids, r) == |Sooner(t, roots, ids, r)|
  {
    hide RankOf, Higher, ListedFirst;
    var rest := ids[1..];
    assert ids == [ids[0]] + rest && ids[0] !in rest;
    if ids[0] == r {
      HigherCounts(t, roots, rest, r);
      SoonerThanFirst(t, roots, ids);
    } else {
      AheadCounts(t, roots, rest, r);
      SoonerThanLater(t, roots, ids, r);
      assert ids[0] !in Sooner(t, roots, rest, r);
    }
  }

  /** Selecting keeps the order. */
  lemma {:induction false} WhereInOrder(t: map<Id, Node>, p: Pick, ids: seq<Id>, a: Id, b: Id)
    requires Distinct(ids) && Admits(t, p, a) && Admits(t, p, b)
    ensures ListedFirst(Where(t, p, ids), a, b) <==> ListedFirst(ids, a, b)
  {
    if ids != [] {
      hide Admits, ListedFirst;
      var rest, picked := ids[1..], Where(t, p, ids);
      assert Distinct(rest);
      WhereInOrder(t, p, rest, a, b);
      WhereDistinct(t, p, ids);
      WhereHolds(t, p, ids, b);
      FirstListed(ids, a, b);
      if Admits(t, p, ids[0]) {
        assert picked[1..] == Where(t, p, rest);
        FirstListed(picked, a, b);
      } else {
        assert ids[0] != a && ids[0] != b;
      }
    } else {
      assert Where(t, p, ids) == ids;
    }
  }

  /** Exactly which nodes the cap per file keeps: those to which fewer than `cap` of their file are preferred. */
  lemma KeptExactly(t: map<Id, Node>, ids: seq<Id>, roots: seq<Id>, cap: nat, r: Id)
    requires Distinct(ids) && InTable(t, ids) && r in ids && r in t
    ensures r in PerFile(t, ids, roots, cap) <==> |Preferred(t, roots, ids, r)| < cap
  {
    hide PerFile, Where, RankOf, ListedFirst, Ahead, KindBefore;
    var p := InFile(t[r].file);
    var mates := Where(t, p, ids);
    SurvivesFile(t, ids, roots, cap, r);
    WhereDistinct(t, p, ids);
    WhereHolds(t, p, ids, r);
    AheadCounts(t, roots, mates, r);
    forall a
      ensures a in Sooner(t, roots, mates, r) <==> a in Preferred(t, roots, ids, r)
    {
      WhereHolds(t, p, ids, a);
      if a in mates {
        WhereInOrder(t, p, ids, a, r);
        RankIsOrder(t, roots, a, r);
      }
    }
    assert Sooner(t, roots, mates, r) == Preferred(t, roots, ids, r);
  }

  lemma SmallerSet(a: set<Id>, b: set<Id>)
    requires a <= b
    ensures |a| <= |b|
  {
    assert b == a + (b - a);
  }

  /** No entry point is evicted while another node of its file is kept. */
  lemma EntryPointsOutlast(t: map<Id, Node>, ids: seq<Id>, roots: seq<Id>, cap: nat, r: Id, other: Id)
    requires Distinct(ids) && InTable(t, ids) && r in ids && r in t && other in ids && other in t && t[other].file == t[r].file
    requires r in roots && other !in roots && other in PerFile(t, ids, roots, cap)
    ensures r in PerFile(t, ids, roots, cap)
  {
    hide PerFile, KindBefore, ListedFirst;
    KeptExactly(t, ids, roots, cap, r);
    KeptExactly(t, ids, roots, cap, other);
    SmallerSet(Preferred(t, roots, ids, r), Preferred(t, roots, ids, other));
  }

  /** Among nodes that are entry points, or among those that are none, a type outlasts code and code the rest. */
  lemma KindsOutlast(t: map<Id, Node>, ids: seq<Id>, roots: seq<Id>, cap: nat, r: Id, other: Id)
    requires Distinct(ids) && InTable(t, ids) && r in ids && r in t && other in ids && other in t && t[other].file == t[r].file
    requires (r in roots <==> other in roots) && KindBefore(t[r].kind, t[other].kind) && other in PerFile(t, ids, roots, cap)
    ensures r in PerFile(t, ids, roots, cap)
  {
    hide PerFile, ListedFirst;
    KeptExactly(t, ids, roots, cap, r);
    KeptExactly(t, ids, roots, cap, other);
    SmallerSet(Preferred(t, roots, ids, r), Preferred(t, roots, ids, other));
  }

  ghost function EntryPointsOf(t: map<Id, Node>, ids: seq<Id>, roots: seq<Id>, file: string): set<Id> {
    set a | a in ids && a in t && t[a].file == file && a in roots
  }

  /** The entry points of a file are all kept when there are no more of them than the cap. */
  lemma EntryPointsFit(t: map<Id, Node>, ids: seq<Id>, roots: seq<Id>, cap: nat, r: Id)
    requires Distinct(ids) && InTable(t, ids) && r in ids && r in t && r in roots
    requires |EntryPointsOf(t, ids, roots, t[r].file)| <= cap
    ensures r in PerFile(t, ids, roots, cap)
  {
    hide PerFile, KindBefore;
    KeptExactly(t, ids, roots, cap, r);
    assert r !in Preferred(t, roots, ids, r) by {
      NotBeforeItself(t, roots, ids, r);
    }
    SmallerSet(Preferred(t, roots, ids, r) + {r}, EntryPointsOf(t, ids, roots, t[r].file));
  }

  lemma NotBeforeItself(t: map<Id, Node>, roots: seq<Id>, ids: seq<Id>, r: Id)
    requires Distinct(ids) && r in t
    ensures !GoesBefore(t, roots, ids, r, r)
  {
  }

  /** End to end: an entry point that is no test file's node is in the result whenever the entry points fit the budget and
      those of its file fit the cap. */
  lemma EntryPointStays(t: map<Id, Node>, nodes: seq<Id>, roots: seq<Id>, edges: seq<Edge>, maxNodes: int, isTestQuery: bool, r: Id)
    requires Distinct(nodes) && InTable(t, nodes) && r in nodes && r in t && r in roots
    requires |Unique(roots)| <= maxNodes
    requires |EntryPointsOf(t, nodes, roots, t[r].file)| <= CapPerFile(maxNodes)
    requires isTestQuery || !t[r].test
    ensures r in FinalNodes(t, nodes, roots, edges, maxNodes, isTestQuery)
  {
    hide PerFile, Where, Ordered;
    var selected := Selected(t, nodes, roots, edges, maxNodes);
    var spread := Thinned(t, nodes, roots, edges, maxNodes);
    EntryPointsSurvive(t, nodes, roots, edges, maxNodes, r);
    SelectedIsDistinct(t, nodes, roots, edges, maxNodes);
    SelectedInTable(t, nodes, roots, edges, maxNodes);
    forall a | a in EntryPointsOf(t, selected, roots, t[r].file)
      ensures a in EntryPointsOf(t, nodes, roots, t[r].file)
    {
      SelectedHolds(t, nodes, roots, edges, maxNodes, a);
    }
    SmallerSet(EntryPointsOf(t, selected, roots, t[r].file), EntryPointsOf(t, nodes, roots, t[r].file));
    EntryPointsFit(t, selected, roots, CapPerFile(maxNodes), r);
    var late := Late(t, spread, maxNodes, isTestQuery);
    if r in late {
      WhereHolds(t, InTests, spread, r);
    }
    WhereHolds(t, Except(late), spread, r);
  }
}
