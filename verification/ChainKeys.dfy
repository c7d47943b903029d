/** The textual keys by which call chains are compared: node ids joined with '>' and tested with a substring search. */
module ChainKeys {

  type Id = string
  type Chain = seq<Id>

  const SEP := '>'

  function Join(c: Chain): string {
    if |c| == 0 then ""
    else if |c| == 1 then c[0]
    else c[0] + [SEP] + Join(c[1..])
  }

  predicate OccursAt(text: string, part: string, at: nat) {
    at + |part| <= |text| && text[at..at + |part|] == part
  }

  /** `text.includes(part)` */
  predicate Includes(text: string, part: string) {
    exists at | 0 <= at <= |text| :: OccursAt(text, part, at)
  }

  ghost predicate SubPathAt(k: Chain, c: Chain, i: nat) {
    i + |c| <= |k| && k[i..i + |c|] == c
  }

  /** `c` is a contiguous sub-path of `k`. */
  ghost predicate SubPath(k: Chain, c: Chain) {
    exists i: nat :: SubPathAt(k, c, i)
  }

  predicate EndsWith(text: string, part: string) {
    |part| <= |text| && text[|text| - |part|..] == part
  }

  /** `c` matches `k` from position `i` on, node by node, except that its first id need only be a suffix and
      its last id only a prefix of the id it is laid against. */
  ghost predicate LooseAt(k: Chain, c: Chain, i: nat)
    requires |c| >= 2
  {
    && i + |c| <= |k|
    && EndsWith(k[i], c[0])
    && k[i + 1..i + |c| - 1] == c[1..|c| - 1]
    && c[|c| - 1] <= k[i + |c| - 1]
  }

  ghost predicate LooseSubPath(k: Chain, c: Chain)
    requires |c| >= 2
  {
    exists i: nat :: LooseAt(k, c, i)
  }

  ghost predicate SepFree(c: Chain) {
    forall id | id in c :: SEP !in id
  }

  lemma OccursIncludes(text: string, part: string, at: nat)
    requires OccursAt(text, part, at)
    ensures Includes(text, part)
  {
  }

  /** Two strings cut at their first separator agree as a whole exactly when both pieces agree. */
  lemma FirstSep(a: string, s: string, b: string, t: string)
    requires SEP !in a && SEP !in b
    requires b + [SEP] + t <= a + [SEP] + s
    ensures a == b && t <= s
  {
    var x, y := a + [SEP] + s, b + [SEP] + t;
    assert y[|b|] == SEP && x[|a|] == SEP;
    assert forall i | 0 <= i < |a| :: x[i] == a[i];
    assert forall i | 0 <= i < |b| :: x[i] == b[i];
    assert |a| == |b|;
    assert a == x[..|a|] && b == y[..|b|];
    assert s == x[|a| + 1..] && t == y[|b| + 1..];
  }

  lemma JoinCons(c: Chain)
    requires |c| >= 2
    ensures Join(c) == c[0] + [SEP] + Join(c[1..])
  {
  }

  /** The ids with `>` between them. */
  lemma {:induction false} JoinMore(c: Chain, id: Id)
    requires |c| >= 1
    ensures Join(c + [id]) == Join(c) + ">" + id
  {
    JoinConcat(c, [id]);
  }

  lemma NoPrefix(a: string, b: string, x: char)
    ensures x in a && x !in b ==> !(a <= b)
  {
    if a <= b {
      assert forall i | 0 <= i < |a| :: a[i] == b[i];
    }
  }

  ghost predicate PrefixUpToLast(k: Chain, c: Chain)
    requires |c| >= 1
  {
    |c| <= |k| && c[..|c| - 1] == k[..|c| - 1] && c[|c| - 1] <= k[|c| - 1]
  }

  lemma {:induction false} SepFreePrefix(k: Chain, c: Chain)
    requires |k| >= 1 && |c| >= 1 && SepFree(k) && SepFree(c)
    ensures Join(c) <= Join(k) <==> PrefixUpToLast(k, c)
  {
    if |c| == 1 {
      PrefixOfFirst(k, c[0]);
    } else if |k| == 1 {
      JoinCons(c);
      assert Join(c)[|c[0]|] == SEP;
      NoPrefix(Join(c), k[0], SEP);
    } else {
      var k', c' := k[1..], c[1..];
      assert SepFree(k') && SepFree(c');
      SepFreePrefix(k', c');
      JoinCons(c);
      JoinCons(k);
      if Join(c) <= Join(k) {
        FirstSep(k[0], Join(k'), c[0], Join(c'));
        assert c[..|c| - 1] == [c[0]] + c'[..|c'| - 1];
        assert k[..|c| - 1] == [k[0]] + k'[..|c'| - 1];
      }
      if |c| <= |k| && c[..|c| - 1] == k[..|c| - 1] && c[|c| - 1] <= k[|c| - 1] {
        assert c[0] == c[..|c| - 1][0] && k[0] == k[..|c| - 1][0];
        assert c'[..|c'| - 1] == c[..|c| - 1][1..] && k'[..|c'| - 1] == k[..|c| - 1][1..];
      }
    }
  }

  lemma PrefixOfFirst(k: Chain, id: Id)
    requires |k| >= 1 && SepFree(k) && SEP !in id
    ensures id <= Join(k) <==> id <= k[0]
  {
    if |k| >= 2 {
      JoinCons(k);
      assert Join(k)[|k[0]|] == SEP;
    }
  }

  lemma OccursIsPrefix(text: string, part: string, at: nat)
    requires at <= |text|
    ensures OccursAt(text, part, at) <==> part <= text[at..]
  {
    if part <= text[at..] {
      assert text[at..at + |part|] == text[at..][..|part|];
    }
  }

  /** A key that starts inside the first id of `k`. */
  lemma OccursInFirst(k: Chain, c: Chain, at: nat)
    requires |k| >= 1 && |c| >= 2 && SepFree(k) && SepFree(c) && at <= |k[0]|
    ensures at <= |Join(k)|
    ensures OccursAt(Join(k), Join(c), at) <==> k[0][at..] == c[0] && LooseAt(k, c, 0)
  {
    var tail := [k[0][at..]] + k[1..];
    assert SepFree(tail) by {
      assert k[0] in k;
      assert forall id | id in k[1..] :: id in k;
    }
    assert tail[1..] == k[1..];
    assert Join(k)[at..] == Join(tail) by {
      if |k| >= 2 {
        JoinCons(k);
        JoinCons(tail);
      }
    }
    OccursIsPrefix(Join(k), Join(c), at);
    SepFreePrefix(tail, c);
    if |c| <= |k| {
      assert c[..|c| - 1] == [c[0]] + c[1..|c| - 1];
      assert tail[..|c| - 1] == [tail[0]] + k[1..|c| - 1];
    }
  }

  /** A key that starts after the first id of `k` and its separator. */
  lemma OccursInRest(k: Chain, c: Chain, at: nat)
    requires |k| >= 2 && at > |k[0]|
    ensures OccursAt(Join(k), Join(c), at) <==> OccursAt(Join(k[1..]), Join(c), at - |k[0]| - 1)
  {
    JoinCons(k);
    var rest := Join(k[1..]);
    var o := at - |k[0]| - 1;
    assert |Join(k)| == |k[0]| + 1 + |rest|;
    if o + |Join(c)| <= |rest| {
      assert Join(k)[at..at + |Join(c)|] == rest[o..o + |Join(c)|];
    }
  }

  lemma LooseShift(k: Chain, c: Chain, i: nat)
    requires |k| >= 1 && |c| >= 2
    ensures LooseAt(k[1..], c, i) <==> LooseAt(k, c, i + 1)
  {
    if i + 1 + |c| <= |k| {
      assert k[1..][i + 1..i + |c| - 1] == k[i + 2..i + |c|];
    }
  }

  lemma {:induction false} IncludedIsLoose(k: Chain, c: Chain, at: nat)
    requires |c| >= 2 && SepFree(k) && SepFree(c) && OccursAt(Join(k), Join(c), at)
    ensures LooseSubPath(k, c)
    decreases |k|
  {
    JoinCons(c);
    if |k| >= 1 && at <= |k[0]| {
      OccursInFirst(k, c, at);
    } else if |k| >= 2 {
      OccursInRest(k, c, at);
      assert SepFree(k[1..]);
      IncludedIsLoose(k[1..], c, at - |k[0]| - 1);
      var i: nat :| LooseAt(k[1..], c, i);
      LooseShift(k, c, i);
    }
  }

  lemma {:induction false} LooseIsIncluded(k: Chain, c: Chain, i: nat)
    requires |c| >= 2 && SepFree(k) && SepFree(c) && LooseAt(k, c, i)
    ensures Includes(Join(k), Join(c))
    decreases |k|
  {
    if i == 0 {
      OccursInFirst(k, c, |k[0]| - |c[0]|);
      OccursIncludes(Join(k), Join(c), |k[0]| - |c[0]|);
    } else {
      LooseShift(k, c, i - 1);
      assert SepFree(k[1..]);
      LooseIsIncluded(k[1..], c, i - 1);
      IncludedInRest(k, c);
    }
  }

  lemma IncludedInRest(k: Chain, c: Chain)
    requires |k| >= 2 && Includes(Join(k[1..]), Join(c))
    ensures Includes(Join(k), Join(c))
  {
    var at: nat :| at <= |Join(k[1..])| && OccursAt(Join(k[1..]), Join(c), at);
    OccursInRest(k, c, at + |k[0]| + 1);
    OccursIncludes(Join(k), Join(c), at + |k[0]| + 1);
  }

  lemma SepFreeIncludes(k: Chain, c: Chain)
    requires |c| >= 2 && SepFree(k) && SepFree(c)
    ensures Includes(Join(k), Join(c)) <==> LooseSubPath(k, c)
  {
    if Includes(Join(k), Join(c)) {
      var at: nat :| at <= |Join(k)| && OccursAt(Join(k), Join(c), at);
      IncludedIsLoose(k, c, at);
    }
    if LooseSubPath(k, c) {
      var i: nat :| LooseAt(k, c, i);
      LooseIsIncluded(k, c, i);
    }
  }

  // ----- Ids that contain the separator -----

  /** An id cut at each separator in it. */
  function Pieces(id: Id): (r: Chain)
    ensures |r| >= 1
  {
    if id == "" then [""]
    else
      var rest := Pieces(id[1..]);
      if id[0] == SEP then [""] + rest else [[id[0]] + rest[0]] + rest[1..]
  }

  /** The pieces of a chain's ids, one after another. */
  function Parts(c: Chain): (r: Chain)
    ensures |r| >= |c|
  {
    if c == [] then [] else Pieces(c[0]) + Parts(c[1..])
  }

  lemma {:induction false} PiecesJoin(id: Id)
    ensures SepFree(Pieces(id)) && Join(Pieces(id)) == id
  {
    if id != "" {
      var rest := Pieces(id[1..]);
      PiecesJoin(id[1..]);
      assert rest[0] in rest;
      assert [id[0]] + id[1..] == id;
      if id[0] == SEP {
        assert ([""] + rest)[1..] == rest;
      } else {
        assert SepFree(rest[1..]);
        assert |rest| >= 2 ==> [id[0]] + (rest[0] + [SEP] + Join(rest[1..])) == [id[0]] + rest[0] + [SEP] + Join(rest[1..]);
      }
    }
  }

  lemma {:induction false} JoinConcat(a: Chain, b: Chain)
    requires |a| >= 1 && |b| >= 1
    ensures Join(a + b) == Join(a) + [SEP] + Join(b)
  {
    JoinCons(a + b);
    if |a| == 1 {
      assert (a + b)[1..] == b;
    } else {
      assert (a + b)[1..] == a[1..] + b;
      JoinCons(a);
      JoinConcat(a[1..], b);
    }
  }

  /** Cutting the ids leaves the key as it is. */
  lemma {:induction false} PartsJoin(c: Chain)
    ensures SepFree(Parts(c)) && Join(Parts(c)) == Join(c)
  {
    if c != [] {
      PiecesJoin(c[0]);
      PartsJoin(c[1..]);
      if |c| == 1 {
        assert Parts(c) == Pieces(c[0]);
      } else {
        JoinConcat(Pieces(c[0]), Parts(c[1..]));
      }
    }
  }

  lemma {:induction false} OnePiece(id: Id)
    requires SEP !in id
    ensures Pieces(id) == [id]
  {
    if id != "" {
      OnePiece(id[1..]);
      assert [id[0]] + id[1..] == id;
    }
  }

  lemma {:induction false} PartsOfSepFree(c: Chain)
    requires SepFree(c)
    ensures Parts(c) == c
  {
    if c != [] {
      OnePiece(c[0]);
      PartsOfSepFree(c[1..]);
      assert [c[0]] + c[1..] == c;
    }
  }

  /** The joined key of `c` is a prefix of that of `k` exactly when the ids, cut at the separators in them, agree one by
      one, the last up to a prefix. */
  lemma {:induction false} PrefixKey(k: Chain, c: Chain)
    requires |k| >= 1 && |c| >= 1
    ensures Join(c) <= Join(k) <==> PrefixUpToLast(Parts(k), Parts(c))
  {
    PartsJoin(k);
    PartsJoin(c);
    SepFreePrefix(Parts(k), Parts(c));
  }

  /** Exactly what the substring test on joined keys decides, for any ids: with the ids cut at the separators in them,
      the shorter chain matches the longer one up to a suffix of its first and a prefix of its last piece. */
  lemma {:induction false} IncludesIsLooseSubPath(k: Chain, c: Chain)
    requires |c| >= 2
    ensures Includes(Join(k), Join(c)) <==> LooseSubPath(Parts(k), Parts(c))
  {
    PartsJoin(k);
    PartsJoin(c);
    SepFreeIncludes(Parts(k), Parts(c));
  }

  /** A sub-path's key is a substring, whatever the ids are. */
  lemma {:induction false} SubPathIncluded(k: Chain, c: Chain, i: nat)
    requires |c| >= 1 && SubPathAt(k, c, i)
    ensures Includes(Join(k), Join(c))
    decreases |k|
  {
    if i == 0 {
      KeyOfPrefix(k, c);
      OccursIsPrefix(Join(k), Join(c), 0);
      OccursIncludes(Join(k), Join(c), 0);
    } else {
      assert k[1..][i - 1..i - 1 + |c|] == c;
      SubPathIncluded(k[1..], c, i - 1);
      IncludedInRest(k, c);
    }
  }

  lemma {:induction false} KeyOfPrefix(k: Chain, c: Chain)
    requires |c| >= 1 && c <= k
    ensures Join(c) <= Join(k)
  {
    if |c| >= 2 {
      assert c[1..] <= k[1..];
      KeyOfPrefix(k[1..], c[1..]);
    } else if |k| >= 2 {
      JoinCons(k);
    }
  }

  /** No id of one chain is a proper suffix or prefix of an id of the other. */
  ghost predicate Unaffixed(k: Chain, c: Chain) {
    forall i, j | 0 <= i < |k| && 0 <= j < |c| && (EndsWith(k[i], c[j]) || c[j] <= k[i]) :: k[i] == c[j]
  }

  lemma LooseIsSubPath(k: Chain, c: Chain, i: nat)
    requires |c| >= 2 && LooseAt(k, c, i) && Unaffixed(k, c)
    ensures SubPathAt(k, c, i)
  {
    assert k[i] == c[0] && k[i + |c| - 1] == c[|c| - 1];
    var inner := k[i + 1..i + |c| - 1];
    assert inner == c[1..|c| - 1];
    forall j | 0 <= j < |c|
      ensures k[i..i + |c|][j] == c[j]
    {
      if 0 < j < |c| - 1 {
        assert inner[j - 1] == c[1..|c| - 1][j - 1];
      }
    }
  }

  /** Where no piece is a proper suffix or prefix of another, the substring test is the sub-path test on the pieces. */
  lemma {:induction false} IncludesIsSubPath(k: Chain, c: Chain)
    requires |c| >= 2 && Unaffixed(Parts(k), Parts(c))
    ensures Includes(Join(k), Join(c)) <==> SubPath(Parts(k), Parts(c))
  {
    var p, q := Parts(k), Parts(c);
    IncludesIsLooseSubPath(k, c);
    if LooseSubPath(p, q) {
      var i: nat :| LooseAt(p, q, i);
      LooseIsSubPath(p, q, i);
    }
    if SubPath(p, q) {
      var i: nat :| SubPathAt(p, q, i);
      PartsJoin(k);
      PartsJoin(c);
      SubPathIncluded(p, q, i);
    }
  }

  // ----- The ids that occur -----

  const NODE_KINDS: seq<string> := [
    "file", "module", "class", "struct", "interface", "trait", "protocol", "function", "method", "property", "field",
    "variable", "constant", "enum", "enum_member", "type_alias", "namespace", "parameter", "import", "export", "route",
    "component"]

  const HASH_LENGTH := 32

  ghost predicate IsHex(c: char) {
    c in "0123456789abcdef"
  }

  /** An id as `generateNodeId` builds it from a kind and a hash. */
  ghost predicate HashedId(id: Id) {
    exists kind, hash :: IsHashed(id, kind, hash)
  }

  ghost predicate IsHashed(id: Id, kind: string, hash: string) {
    && kind in NODE_KINDS
    && |hash| == HASH_LENGTH && (forall i | 0 <= i < |hash| :: IsHex(hash[i]))
    && id == kind + ":" + hash
  }

  ghost predicate HashedIds(c: Chain) {
    forall i | 0 <= i < |c| :: HashedId(c[i])
  }

  lemma KindsArePlain()
    ensures forall i, j | 0 <= i < |NODE_KINDS| && 0 <= j < |NODE_KINDS[i]| ::
              NODE_KINDS[i][j] != ':' && NODE_KINDS[i][j] != SEP
  {
  }

  lemma KindIsPlain(kind: string)
    requires kind in NODE_KINDS
    ensures ':' !in kind && SEP !in kind
  {
    KindsArePlain();
  }

  ghost function Ending(kind: string): (char, char)
    requires |kind| >= 4
  {
    (kind[|kind| - 4], kind[|kind| - 3])
  }

  lemma KindsAreLong()
    ensures forall i | 0 <= i < |NODE_KINDS| :: |NODE_KINDS[i]| >= 4
  {
  }

  /** Two letters tell all kinds apart but `import` and `export`, which have one length. */
  lemma EarlyEnding(i: nat, j: nat)
    requires i < |NODE_KINDS| && j < 11 && |NODE_KINDS[i]| >= 4 && |NODE_KINDS[j]| >= 4
    requires Ending(NODE_KINDS[i]) == Ending(NODE_KINDS[j])
    ensures |NODE_KINDS[i]| == |NODE_KINDS[j]|
  {
  }

  lemma LateEnding(i: nat, j: nat)
    requires i < |NODE_KINDS| && 11 <= j < |NODE_KINDS| && |NODE_KINDS[i]| >= 4 && |NODE_KINDS[j]| >= 4
    requires Ending(NODE_KINDS[i]) == Ending(NODE_KINDS[j])
    ensures |NODE_KINDS[i]| == |NODE_KINDS[j]|
  {
  }

  lemma EndsInEnding(a: string, b: string)
    requires EndsWith(a, b) && |b| >= 4
    ensures Ending(a) == Ending(b)
  {
    var t := a[|a| - |b|..];
    assert t[|b| - 4] == a[|a| - 4] && t[|b| - 3] == a[|a| - 3];
  }

  /** No kind of node ends another. */
  lemma KindsAreUnrelated(a: string, b: string)
    requires a in NODE_KINDS && b in NODE_KINDS && EndsWith(a, b)
    ensures a == b
  {
    hide NODE_KINDS;
    KindsAreLong();
    EndsInEnding(a, b);
    var i: nat :| i < |NODE_KINDS| && NODE_KINDS[i] == a;
    var j: nat :| j < |NODE_KINDS| && NODE_KINDS[j] == b;
    if j < 11 {
      EarlyEnding(i, j);
    } else {
      LateEnding(i, j);
    }
  }

  lemma NotASuffix(x: Id, y: Id)
    requires HashedId(x) && HashedId(y) && EndsWith(x, y)
    ensures x == y
  {
    hide NODE_KINDS;
    var a, g :| IsHashed(x, a, g);
    var b, h :| IsHashed(y, b, h);
    assert g == x[|x| - HASH_LENGTH..] && h == y[|y| - HASH_LENGTH..];
    assert x[|x| - |y|..][|y| - HASH_LENGTH..] == x[|x| - HASH_LENGTH..];
    assert a == x[..|a|] && b == y[..|b|];
    assert a[|a| - |b|..] == x[|x| - |y|..][..|b|];
    KindsAreUnrelated(a, b);
  }

  lemma NotAPrefix(x: Id, y: Id)
    requires HashedId(x) && HashedId(y) && y <= x
    ensures x == y
  {
    hide NODE_KINDS;
    var a, g :| IsHashed(x, a, g);
    var b, h :| IsHashed(y, b, h);
    KindIsPlain(a);
    KindIsPlain(b);
    assert y[|b|] == ':' && x[|a|] == ':';
    assert forall i | 0 <= i < |a| :: a[i] == x[i];
    assert forall i | 0 <= i < |b| :: b[i] == x[i];
    assert |a| == |b|;
  }

  /** Hashed ids are never proper suffixes or prefixes of one another. */
  lemma HashedIdsAreUnaffixed(k: Chain, c: Chain)
    requires HashedIds(k) && HashedIds(c)
    ensures Unaffixed(k, c)
  {
    hide HashedId;
    forall i, j | 0 <= i < |k| && 0 <= j < |c| && (EndsWith(k[i], c[j]) || c[j] <= k[i])
      ensures k[i] == c[j]
    {
      if c[j] <= k[i] {
        NotAPrefix(k[i], c[j]);
      } else {
        NotASuffix(k[i], c[j]);
      }
    }
  }

  lemma HashedIsSepFree(c: Chain)
    requires HashedIds(c)
    ensures SepFree(c)
  {
    hide NODE_KINDS;
    forall id | id in c
      ensures SEP !in id
    {
      var kind, hash :| IsHashed(id, kind, hash);
      KindIsPlain(kind);
    }
  }

  /** For hashed ids the substring test is the sub-path test. */
  lemma HashedIncludesIsSubPath(k: Chain, c: Chain)
    requires |c| >= 2 && HashedIds(k) && HashedIds(c)
    ensures Includes(Join(k), Join(c)) <==> SubPath(k, c)
  {
    hide HashedIds;
    HashedIsSepFree(k);
    HashedIsSepFree(c);
    PartsOfSepFree(k);
    PartsOfSepFree(c);
    HashedIdsAreUnaffixed(k, c);
    IncludesIsSubPath(k, c);
  }

  /** The id of a method exported to JavaScript, with its file and its module as the place. */
  ghost function ExportId(place: string, name: string): Id {
    "rn-export:" + place + "." + name
  }

  /** Ids that carry a name are another matter. Where one exported name begins another, a chain that ends at the one is
      dropped behind the same chain to the other, although it is no sub-path of it. */
  lemma ExportTakenForLongerName(front: Chain, place: string, name: string, more: string)
    requires |front| >= 1 && more != ""
    ensures var long, short := front + [ExportId(place, name + more)], front + [ExportId(place, name)];
            Includes(Join(long), Join(short)) && !SubPath(long, short)
  {
    var long, short := front + [ExportId(place, name + more)], front + [ExportId(place, name)];
    var a, b := ExportId(place, name + more), ExportId(place, name);
    assert a == b + more;
    assert Join([a]) == a && Join([b]) == b;
    hide Join, ExportId;
    JoinConcat(front, [a]);
    JoinConcat(front, [b]);
    assert Join(long) == Join(short) + more;
    assert OccursAt(Join(long), Join(short), 0);
    assert |long[|front|]| != |short[|front|]|;
    forall i: nat
      ensures !SubPathAt(long, short, i)
    {
      assert i == 0 ==> long[..|short|] == long;
    }
  }
}
