/** What several components share. */
module Common {

  datatype Option<+T> = None | Some(value: T)

  /** A number that is not taken always exists: a directory name, a row id. */
  lemma FreshKey(taken: set<nat>)
    ensures exists k: nat :: k !in taken
  {
    var k := AboveAll(taken);
    assert k !in taken;
  }

  lemma {:induction false} AboveAll(s: set<nat>) returns (k: nat)
    ensures forall n | n in s :: n < k
  {
    if s == {} {
      k := 0;
    } else {
      var x :| x in s;
      var rest := AboveAll(s - {x});
      k := if rest <= x then x + 1 else rest;
      forall n | n in s
        ensures n < k
      {
        assert n == x || n in s - {x};
      }
    }
  }
}
