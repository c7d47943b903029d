/** Which of the call chains found are shown: at least two roots on the chain, ranked, and not a sub-path of a chain
    already shown. */
module ChainRanking {
  import opened ChainKeys

  const MAX_KEPT := 3
  const MIN_ROOTS := 2

  function RootCount(c: Chain, roots: set<Id>): nat {
    if c == [] then 0 else (if c[0] in roots then 1 else 0) + RootCount(c[1..], roots)
  }

  /** More roots first, then longer first. */
  predicate RanksBefore(a: Chain, b: Chain, roots: set<Id>) {
    var ra, rb := RootCount(a, roots), RootCount(b, roots);
    ra > rb || (ra == rb && |a| >= |b|)
  }

  lemma {:induction false} RootCountCounts(c: Chain, roots: set<Id>)
    ensures RootCount(c, roots) == |set i | 0 <= i < |c| && c[i] in roots|
  {
    if c != [] {
      var last := |c| - 1;
      RootCountSplit(c[..last], [c[last]], roots);
      assert c == c[..last] + [c[last]] && [c[last]][1..] == [];
      RootCountCounts(c[..last], roots);
      var before := set i | 0 <= i < |c[..last]| && c[..last][i] in roots;
      assert (set i | 0 <= i < |c| && c[i] in roots) == before + if c[last] in roots then {last} else {};
    }
  }

  ghost predicate Ranked(cs: seq<Chain>, roots: set<Id>) {
    forall i, j | 0 <= i < j < |cs| :: RanksBefore(cs[i], cs[j], roots)
  }

  function Relevant(cs: seq<Chain>, roots: set<Id>): seq<Chain> {
    if cs == [] then []
    else if RootCount(cs[0], roots) >= MIN_ROOTS then [cs[0]] + Relevant(cs[1..], roots)
    else Relevant(cs[1..], roots)
  }

  lemma {:induction false} RelevantHolds(cs: seq<Chain>, roots: set<Id>, c: Chain)
    ensures c in Relevant(cs, roots) <==> c in cs && RootCount(c, roots) >= MIN_ROOTS
  {
    if cs != [] {
      RelevantHolds(cs[1..], roots, c);
      assert cs == [cs[0]] + cs[1..];
    }
  }

  /** Ranking loses and adds nothing. */
  lemma CandidateHolds(cs: seq<Chain>, roots: set<Id>, c: Chain)
    ensures c in Sort(Relevant(cs, roots), roots) <==> c in cs && RootCount(c, roots) >= MIN_ROOTS
  {
    RelevantHolds(cs, roots, c);
    var relevant := Relevant(cs, roots);
    assert c in multiset(Sort(relevant, roots)) <==> c in multiset(relevant);
  }

  /** The place of `c` in a ranked list: behind everything that ranks at least as high, as a stable sort has it. */
  function Insert(cs: seq<Chain>, c: Chain, roots: set<Id>): (r: seq<Chain>)
    ensures multiset(r) == multiset(cs) + multiset{c}
  {
    if cs == [] then [c]
    else if RanksBefore(cs[0], c, roots) then
      assert cs == [cs[0]] + cs[1..];
      [cs[0]] + Insert(cs[1..], c, roots)
    else [c] + cs
  }

  function Sort(cs: seq<Chain>, roots: set<Id>): (r: seq<Chain>)
    ensures multiset(r) == multiset(cs)
  {
    if cs == [] then []
    else
      assert cs == cs[..|cs| - 1] + [cs[|cs| - 1]];
      Insert(Sort(cs[..|cs| - 1], roots), cs[|cs| - 1], roots)
  }

  lemma {:induction false} InsertRanks(cs: seq<Chain>, c: Chain, roots: set<Id>)
    requires Ranked(cs, roots)
    ensures Ranked(Insert(cs, c, roots), roots)
  {
    hide RootCount;
    if cs != [] && RanksBefore(cs[0], c, roots) {
      var rest := Insert(cs[1..], c, roots);
      InsertRanks(cs[1..], c, roots);
      forall j | 0 <= j < |rest|
        ensures RanksBefore(cs[0], rest[j], roots)
      {
        assert rest[j] in multiset(rest);
        assert rest[j] == c || rest[j] in cs[1..];
      }
    } else if cs != [] {
      forall j | 0 <= j < |cs|
        ensures RanksBefore(c, cs[j], roots)
      {
        assert j == 0 || RanksBefore(cs[0], cs[j], roots);
      }
    }
  }

  lemma {:induction false} SortRanks(cs: seq<Chain>, roots: set<Id>)
    ensures Ranked(Sort(cs, roots), roots)
  {
    if cs != [] {
      SortRanks(cs[..|cs| - 1], roots);
      InsertRanks(Sort(cs[..|cs| - 1], roots), cs[|cs| - 1], roots);
    }
  }

  predicate Covered(kept: seq<Chain>, c: Chain) {
    exists k | k in kept :: Includes(Join(k), Join(c))
  }

  ghost predicate AllCovered(kept: seq<Chain>, cs: seq<Chain>) {
    forall c | c in cs :: Covered(kept, c)
  }

  lemma CoverMore(kept: seq<Chain>, cs: seq<Chain>, c: Chain)
    requires AllCovered(kept, cs) && |c| >= 1
    ensures AllCovered(kept + [c], cs + [c])
  {
    forall d | d in cs + [c]
      ensures Covered(kept + [c], d)
    {
      if d == c {
        assert c in kept + [c];
        SubPathIncluded(c, c, 0);
      } else {
        assert Covered(kept, d);
        var k :| k in kept && Includes(Join(k), Join(d));
        assert k in kept + [c];
      }
    }
  }

  lemma CoverNothing()
    ensures AllCovered([], []) && Apart([])
  {
  }

  ghost predicate Apart(kept: seq<Chain>) {
    forall i, j | 0 <= i < j < |kept| :: !Includes(Join(kept[i]), Join(kept[j]))
  }

  lemma CoverSame(kept: seq<Chain>, cs: seq<Chain>, c: Chain)
    requires AllCovered(kept, cs) && Covered(kept, c)
    ensures AllCovered(kept, cs + [c])
  {
  }

  lemma ApartMore(kept: seq<Chain>, c: Chain)
    requires Apart(kept) && !Covered(kept, c)
    ensures Apart(kept + [c])
  {
  }

  lemma RankedMore(kept: seq<Chain>, ranked: seq<Chain>, n: nat, roots: set<Id>)
    requires n < |ranked| && Ranked(kept, roots) && Ranked(ranked, roots)
    requires forall i, j | 0 <= i < |kept| && n <= j < |ranked| :: RanksBefore(kept[i], ranked[j], roots)
    ensures var more := kept + [ranked[n]];
            && Ranked(more, roots)
            && forall i, j | 0 <= i < |more| && n < j < |ranked| :: RanksBefore(more[i], ranked[j], roots)
  {
  }

  /** A chain left out is covered by a kept one, or three are kept and it ranks behind the last of them. */
  ghost predicate Accounted(kept: seq<Chain>, c: Chain, roots: set<Id>) {
    Covered(kept, c) || (|kept| == 3 && RanksBefore(kept[2], c, roots))
  }

  lemma RestRanksBehind(kept: seq<Chain>, ranked: seq<Chain>, n: nat, roots: set<Id>)
    requires n < |ranked| && Ranked(ranked, roots) && AllCovered(kept, ranked[..n + 1])
    requires |kept| == MAX_KEPT && kept[MAX_KEPT - 1] == ranked[n]
    ensures forall c | c in ranked :: Accounted(kept, c, roots)
  {
    hide Covered, RanksBefore;
    forall c | c in ranked
      ensures Accounted(kept, c, roots)
    {
      var i :| 0 <= i < |ranked| && ranked[i] == c;
      if i <= n {
        assert ranked[..n + 1][i] == c;
      }
    }
  }

  lemma CoveredIsAccounted(kept: seq<Chain>, cs: seq<Chain>, roots: set<Id>)
    requires AllCovered(kept, cs)
    ensures forall c | c in cs :: Accounted(kept, c, roots)
  {
  }

  /** The shown chains, given the ranked ones. */
  method Keep(ranked: seq<Chain>, roots: set<Id>) returns (kept: seq<Chain>)
    requires Ranked(ranked, roots) && forall c | c in ranked :: |c| >= 1
    ensures |kept| <= 3
    ensures forall k | k in kept :: k in ranked
    ensures Ranked(kept, roots)
    ensures Apart(kept)
    ensures |kept| < MAX_KEPT ==> AllCovered(kept, ranked)
    ensures forall c | c in ranked :: Accounted(kept, c, roots)
  {
    hide Includes, Join, RanksBefore, Covered, AllCovered, Apart;
    CoverNothing();
    kept := [];
    for n := 0 to |ranked|
      invariant |kept| < MAX_KEPT
      invariant forall k | k in kept :: k in ranked[..n]
      invariant Ranked(kept, roots)
      invariant Apart(kept)
      invariant AllCovered(kept, ranked[..n])
      invariant forall i, j | 0 <= i < |kept| && n <= j < |ranked| :: RanksBefore(kept[i], ranked[j], roots)
    {
      var c := ranked[n];
      assert ranked[..n + 1] == ranked[..n] + [c];
      if Covered(kept, c) {
        CoverSame(kept, ranked[..n], c);
        continue;
      }
      CoverMore(kept, ranked[..n], c);
      ApartMore(kept, c);
      RankedMore(kept, ranked, n, roots);
      kept := kept + [c];
      if |kept| >= MAX_KEPT {
        RestRanksBehind(kept, ranked, n, roots);
        return;
      }
    }
    assert ranked[..|ranked|] == ranked;
    CoveredIsAccounted(kept, ranked, roots);
  }

  lemma RootCountSplit(a: Chain, b: Chain, roots: set<Id>)
    ensures RootCount(a + b, roots) == RootCount(a, roots) + RootCount(b, roots)
  {
    if a == [] {
      assert a + b == b;
    } else {
      assert (a + b)[1..] == a[1..] + b;
      RootCountSplit(a[1..], b, roots);
    }
  }

  /** A proper sub-path has no more roots and is shorter, so ranking puts the longer chain first. */
  lemma SubPathRanksAfter(k: Chain, c: Chain, roots: set<Id>)
    requires SubPath(k, c)
    ensures RanksBefore(k, c, roots)
    ensures RanksBefore(c, k, roots) ==> c == k
  {
    var i: nat :| SubPathAt(k, c, i);
    var pre, post := k[..i], k[i + |c|..];
    assert k == pre + (c + post);
    RootCountSplit(pre, c + post, roots);
    RootCountSplit(c, post, roots);
    if |c| == |k| {
      assert c == k;
    }
  }

  /** An earlier kept chain does not contain a later one's key, and a later one, ranked behind, is no longer path. */
  lemma KeptApart(kept: seq<Chain>, roots: set<Id>, i: nat, j: nat)
    requires i < |kept| && j < |kept| && i != j && |kept[j]| >= 1
    requires Apart(kept) && Ranked(kept, roots)
    ensures !SubPath(kept[i], kept[j])
  {
    hide Includes, Join, RootCount;
    if SubPath(kept[i], kept[j]) {
      var at: nat :| SubPathAt(kept[i], kept[j], at);
      SubPathIncluded(kept[i], kept[j], at);
      SubPathRanksAfter(kept[i], kept[j], roots);
    }
  }

  /** The shown chains: relevant ones, three at most, none of them a contiguous sub-path of another. Every relevant
      chain not shown has its key inside a shown chain's key, or three are shown and it ranks behind the last. */
  method Select(chains: seq<Chain>, roots: set<Id>) returns (kept: seq<Chain>)
    requires forall c | c in chains :: |c| >= 1
    ensures |kept| <= 3
    ensures forall k | k in kept :: k in chains && RootCount(k, roots) >= 2
    ensures Ranked(kept, roots)
    ensures forall i, j | 0 <= i < |kept| && 0 <= j < |kept| && i != j :: !SubPath(kept[i], kept[j])
    ensures forall c | c in chains && RootCount(c, roots) >= 2 :: Accounted(kept, c, roots)
  {
    hide Includes, Join, RanksBefore, Covered, Apart, SubPath, RootCount, Relevant, Sort, Ranked;
    var ranked := Sort(Relevant(chains, roots), roots);
    SortRanks(Relevant(chains, roots), roots);
    forall c | c in ranked ensures |c| >= 1 {
      CandidateHolds(chains, roots, c);
    }
    kept := Keep(ranked, roots);
    forall k | k in kept ensures k in chains && RootCount(k, roots) >= MIN_ROOTS {
      CandidateHolds(chains, roots, k);
    }
    forall i, j | 0 <= i < |kept| && 0 <= j < |kept| && i != j
      ensures !SubPath(kept[i], kept[j])
    {
      KeptApart(kept, roots, i, j);
    }
    forall c | c in chains && RootCount(c, roots) >= MIN_ROOTS
      ensures Accounted(kept, c, roots)
    {
      CandidateHolds(chains, roots, c);
    }
  }
}
