/** The whole call-path section: adjacency, search, ranking and filter, from the subgraph to the chains shown. */
module CallPathsSection {
  import CallPaths
  import opened ChainKeys
  import ChainRanking

  ghost predicate TwoRoots(roots: seq<Id>, c: Chain) {
    exists i, j :: 0 <= i < j < |c| && c[i] in roots && c[j] in roots
  }

  /** A chain worth showing: three to six different nodes of the subgraph along `calls` edges, from one of the first
      five starts to where nothing new is called or the chain is full, past two roots at least. */
  ghost predicate WorthShowing(edges: seq<CallPaths.Edge>, nodes: set<Id>, roots: seq<Id>, c: Chain) {
    && 3 <= |c| <= 6
    && CallPaths.NoRepeats(c)
    && CallPaths.IsStart(edges, nodes, roots, c[0])
    && (forall i | 0 <= i < |c| - 1 :: CallPaths.IsCall(edges, nodes, c[i], c[i + 1]))
    && (|c| == 6 || forall t | CallPaths.IsCall(edges, nodes, c[|c| - 1], t) :: t in c)
    && TwoRoots(roots, c)
  }

  lemma FlowIsWorthShowing(edges: seq<CallPaths.Edge>, nodes: set<Id>, roots: seq<Id>, adj: CallPaths.Adjacency, c: Chain)
    requires CallPaths.Describes(adj, edges, nodes)
    ensures WorthShowing(edges, nodes, roots, c) <==>
            CallPaths.Flow(adj, c) && CallPaths.IsStart(edges, nodes, roots, c[0]) && TwoRoots(roots, c)
  {
    hide CallPaths.IsStart, CallPaths.IsCall, CallPaths.InCallOrder, CallPaths.Calls;
    if CallPaths.Flow(adj, c) {
      forall i | 0 <= i < |c| - 1
        ensures CallPaths.IsCall(edges, nodes, c[i], c[i + 1])
      {
        assert CallPaths.Follows(adj, c, i);
      }
      forall t | CallPaths.IsCall(edges, nodes, c[|c| - 1], t)
        ensures |c| == 6 || t in c
      {
        assert t in adj.Targets(c[|c| - 1]);
      }
    }
    if WorthShowing(edges, nodes, roots, c) {
      forall i | 0 <= i < |c| - 1
        ensures CallPaths.Follows(adj, c, i)
      {
        assert CallPaths.IsCall(edges, nodes, c[i], c[i + 1]);
      }
      assert CallPaths.SimplePath(adj, c);
      forall t | t in adj.Targets(c[|c| - 1])
        ensures |c| >= 6 || t in c
      {
        assert CallPaths.IsCall(edges, nodes, c[|c| - 1], t);
      }
      assert CallPaths.Complete(adj, c);
    }
  }

  lemma {:induction false} HasRoot(roots: seq<Id>, c: Chain)
    ensures ChainRanking.RootCount(c, set r | r in roots) >= 1 <==> exists i :: 0 <= i < |c| && c[i] in roots
  {
    if c != [] {
      HasRoot(roots, c[1..]);
      assert forall i | 1 <= i < |c| :: c[i] == c[1..][i - 1];
      if i :| 0 <= i < |c[1..]| && c[1..][i] in roots {
        assert c[i + 1] in roots;
      }
    }
  }

  lemma {:induction false} CountsTwoRoots(roots: seq<Id>, c: Chain)
    ensures ChainRanking.RootCount(c, set r | r in roots) >= 2 <==> TwoRoots(roots, c)
  {
    if c != [] {
      var rest := c[1..];
      CountsTwoRoots(roots, rest);
      HasRoot(roots, rest);
      assert forall i | 1 <= i < |c| :: c[i] == rest[i - 1];
      if i, j :| 0 <= i < j < |rest| && rest[i] in roots && rest[j] in roots {
        assert c[i + 1] in roots && c[j + 1] in roots;
      }
      if c[0] in roots && exists j :: 0 <= j < |rest| && rest[j] in roots {
        var j :| 0 <= j < |rest| && rest[j] in roots;
        assert c[j + 1] in roots;
      }
    }
  }

  /** At most three chains, each worth showing, none of them a stretch of another. Unless the search ran out of budget,
      every chain worth showing is shown, has its key inside the key of one that is, or ranks behind the third one
      shown. */
  method KeptChains(edges: seq<CallPaths.Edge>, nodes: set<Id>, roots: seq<Id>) returns (kept: seq<Chain>, budgetLeft: int)
    ensures |kept| <= 3
    ensures forall c | c in kept :: WorthShowing(edges, nodes, roots, c)
    ensures ChainRanking.Ranked(kept, set r | r in roots)
    ensures forall i, j | 0 <= i < |kept| && 0 <= j < |kept| && i != j :: !SubPath(kept[i], kept[j])
    ensures budgetLeft >= 0 ==>
              forall c | WorthShowing(edges, nodes, roots, c) :: ChainRanking.Accounted(kept, c, set r | r in roots)
  {
    hide CallPaths.IsStart, CallPaths.SimplePath, CallPaths.Complete, CallPaths.InCallOrder, WorthShowing, TwoRoots;
    var adj := CallPaths.BuildAdjacency(edges, nodes);
    assert CallPaths.Describes(adj, edges, nodes);
    var chains, left, _ := CallPaths.FindChains(adj, roots, edges, nodes);
    budgetLeft := left;
    kept := ChainRanking.Select(chains, set r | r in roots);
    forall c
      ensures WorthShowing(edges, nodes, roots, c) <==>
              CallPaths.Flow(adj, c) && CallPaths.IsStart(edges, nodes, roots, c[0])
              && ChainRanking.RootCount(c, set r | r in roots) >= 2
    {
      FlowIsWorthShowing(edges, nodes, roots, adj, c);
      CountsTwoRoots(roots, c);
    }
  }
}
