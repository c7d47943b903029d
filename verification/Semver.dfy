/** Version comparison for the addon install gate, against the precedence rules of section 11 of Semantic Versioning 2.0.0. */
module Semver {
  import opened Common
  import opened Text

  // ----- Recognising a version -----

  predicate IsDigit(c: char) {
    '0' <= c <= '9'
  }

  predicate IsIdentifierChar(c: char) {
    IsDigit(c) || 'A' <= c <= 'Z' || 'a' <= c <= 'z' || c == '-'
  }

  predicate AllDigits(s: string) {
    forall i | 0 <= i < |s| :: IsDigit(s[i])
  }

  /** The length of the longest digit prefix. */
  function DigitRun(s: string): (n: nat)
    ensures n <= |s|
  {
    if s != "" && IsDigit(s[0]) then 1 + DigitRun(s[1..]) else 0
  }

  /** The length of the longest prefix of identifier characters. */
  function IdentifierRun(s: string): (n: nat)
    ensures n <= |s|
  {
    if s != "" && IsIdentifierChar(s[0]) then 1 + IdentifierRun(s[1..]) else 0
  }

  /** A number and the text behind it. */
  function TakeNumber(s: string): Option<(string, string)> {
    var n := DigitRun(s);
    if n == 0 then None else Some((s[..n], s[n..]))
  }

  function TakeDot(s: string): Option<string> {
    if s != "" && s[0] == '.' then Some(s[1..]) else None
  }

  /** Dot-separated non-empty identifiers and the text behind them. */
  function TakeIdentifiers(s: string): Option<(seq<string>, string)> {
    var n := IdentifierRun(s);
    if n == 0 then None
    else if n < |s| && s[n] == '.' then
      match TakeIdentifiers(s[n + 1..])
      case None => None
      case Some((more, rest)) => Some(([s[..n]] + more, rest))
    else Some(([s[..n]], s[n..]))
  }

  /** The parts the comparison looks at, as text; `pre` is the prerelease split at its dots. */
  datatype Version = Version(major: string, minor: string, patch: string, pre: Option<seq<string>>)

  /** What may follow the patch number: a prerelease, build metadata, both or nothing. */
  function ParseTail(s: string): Option<Option<seq<string>>> {
    if s == "" then Some(None)
    else if s[0] == '+' then
      (if ValidBuild(s[1..]) then Some(None) else None)
    else if s[0] == '-' then
      match TakeIdentifiers(s[1..])
      case None => None
      case Some((ids, rest)) =>
        if rest == "" || (rest[0] == '+' && ValidBuild(rest[1..])) then Some(Some(ids)) else None
    else None
  }

  predicate ValidBuild(s: string) {
    var t := TakeIdentifiers(s);
    t.Some? && t.value.1 == ""
  }

  function ParseCore(s: string): Option<Version> {
    match TakeNumber(s)
    case None => None
    case Some((major, s1)) =>
      match TakeDot(s1)
      case None => None
      case Some(s2) =>
        match TakeNumber(s2)
        case None => None
        case Some((minor, s3)) =>
          match TakeDot(s3)
          case None => None
          case Some(s4) =>
            match TakeNumber(s4)
            case None => None
            case Some((patch, s5)) =>
              match ParseTail(s5)
              case None => None
              case Some(pre) => Some(Version(major, minor, patch, pre))
  }

  function Parse(text: string): Option<Version> {
    var s := Trim(text);
    ParseCore(if s != "" && s[0] == 'v' then s[1..] else s)
  }

  // ----- Comparing -----

  function DigitValue(c: char): nat
    requires IsDigit(c)
  {
    c as int - '0' as int
  }

  /** `parseInt(s, 10)` of a digit string, as a natural number. */
  function Number(s: string): nat
    requires AllDigits(s)
  {
    if s == "" then 0 else 10 * Number(s[..|s| - 1]) + DigitValue(s[|s| - 1])
  }

  function Sign(a: int, b: int): int {
    if a == b then 0 else if a < b then -1 else 1
  }

  /** `x < y` on strings: by the first differing code unit, a proper prefix first. */
  predicate Less(x: string, y: string) {
    if y == "" then false
    else if x == "" then true
    else x[0] < y[0] || (x[0] == y[0] && Less(x[1..], y[1..]))
  }

  function CompareIdentifiers(x: string, y: string): int {
    var xn, yn := x != "" && AllDigits(x), y != "" && AllDigits(y);
    if xn && yn then Sign(Number(x), Number(y))
    else if xn != yn then (if xn then -1 else 1)
    else if x != y then (if Less(x, y) then -1 else 1)
    else 0
  }

  function CompareLists(a: seq<string>, b: seq<string>): int {
    if a == [] && b == [] then 0
    else if a == [] then -1
    else if b == [] then 1
    else
      var c := CompareIdentifiers(a[0], b[0]);
      if c != 0 then c else CompareLists(a[1..], b[1..])
  }

  function ComparePrerelease(a: Option<seq<string>>, b: Option<seq<string>>): int {
    if a.None? && b.None? then 0
    else if a.None? then 1
    else if b.None? then -1
    else CompareLists(a.value, b.value)
  }

  ghost predicate WellFormed(v: Version) {
    && AllDigits(v.major) && AllDigits(v.minor) && AllDigits(v.patch)
    && (v.pre.Some? ==> forall i | 0 <= i < |v.pre.value| :: v.pre.value[i] != "")
  }

  function CompareVersions(a: Version, b: Version): int
    requires AllDigits(a.major) && AllDigits(a.minor) && AllDigits(a.patch)
    requires AllDigits(b.major) && AllDigits(b.minor) && AllDigits(b.patch)
  {
    var x, y, z := Sign(Number(a.major), Number(b.major)), Sign(Number(a.minor), Number(b.minor)),
                   Sign(Number(a.patch), Number(b.patch));
    if x != 0 then x else if y != 0 then y else if z != 0 then z
    else ComparePrerelease(a.pre, b.pre)
  }

  /** Negative, zero or positive; 0 when either text is not a version. */
  function CompareSemver(a: string, b: string): int {
    var va, vb := Parse(a), Parse(b);
    ParseIsWellFormed(a);
    ParseIsWellFormed(b);
    if va.None? || vb.None? then 0 else CompareVersions(va.value, vb.value)
  }

  lemma {:induction false} DigitRunIsDigits(s: string)
    ensures AllDigits(s[..DigitRun(s)])
    ensures DigitRun(s) < |s| ==> !IsDigit(s[DigitRun(s)])
  {
    if s != "" && IsDigit(s[0]) {
      DigitRunIsDigits(s[1..]);
      assert forall i | 1 <= i < |s| :: s[i] == s[1..][i - 1];
    }
  }

  lemma {:induction false} TakeIdentifiersNonEmpty(s: string)
    ensures var t := TakeIdentifiers(s);
            t.Some? ==> |t.value.0| > 0 && forall i | 0 <= i < |t.value.0| :: t.value.0[i] != ""
    decreases |s|
  {
    var n := IdentifierRun(s);
    if n > 0 && n < |s| && s[n] == '.' {
      TakeIdentifiersNonEmpty(s[n + 1..]);
    }
  }

  lemma ParseIsWellFormed(text: string)
    ensures Parse(text).Some? ==> WellFormed(Parse(text).value)
  {
    var s := Trim(text);
    var core := if s != "" && s[0] == 'v' then s[1..] else s;
    if ParseCore(core).Some? {
      var s2 := TakeDot(TakeNumber(core).value.1).value;
      var s4 := TakeDot(TakeNumber(s2).value.1).value;
      var s5 := TakeNumber(s4).value.1;
      DigitRunIsDigits(core);
      DigitRunIsDigits(s2);
      DigitRunIsDigits(s4);
      if s5 != "" && s5[0] == '-' {
        TakeIdentifiersNonEmpty(s5[1..]);
      }
    }
  }

  // ----- Precedence as section 11 states it -----

  datatype Identifier = Numeric(n: nat) | Alphanumeric(s: string)

  /** A version up to build metadata, a leading `v` and leading zeros. */
  datatype Precedence = Precedence(core: (nat, nat, nat), pre: Option<seq<Identifier>>)

  function Identify(x: string): Identifier {
    if x != "" && AllDigits(x) then Numeric(Number(x)) else Alphanumeric(x)
  }

  function IdentifyAll(xs: seq<string>): seq<Identifier> {
    if xs == [] then [] else [Identify(xs[0])] + IdentifyAll(xs[1..])
  }

  function Canonical(v: Version): Precedence
    requires AllDigits(v.major) && AllDigits(v.minor) && AllDigits(v.patch)
  {
    Precedence((Number(v.major), Number(v.minor), Number(v.patch)),
               if v.pre.None? then None else Some(IdentifyAll(v.pre.value)))
  }

  /** ASCII order: the first difference decides, a proper prefix is lower. */
  ghost predicate AsciiLower(x: string, y: string) {
    exists k :: 0 <= k <= |x| && DiffersAt(x, y, k) && (k == |x| || (k < |y| && x[k] < y[k]))
  }

  /** `x` and `y` agree up to `k` and `y` goes on there. */
  ghost predicate DiffersAt<T>(x: seq<T>, y: seq<T>, k: nat) {
    k <= |x| && k < |y| && x[..k] == y[..k]
  }

  /** Rules 11.4.1 to 11.4.3. */
  ghost predicate IdentifierLower(x: Identifier, y: Identifier) {
    match (x, y)
    case (Numeric(m), Numeric(n)) => m < n
    case (Numeric(_), Alphanumeric(_)) => true
    case (Alphanumeric(_), Numeric(_)) => false
    case (Alphanumeric(s), Alphanumeric(t)) => AsciiLower(s, t)
  }

  /** Rule 11.4.4 and the left-to-right comparison of rule 11.4. */
  ghost predicate ListLower(p: seq<Identifier>, q: seq<Identifier>) {
    exists k :: 0 <= k <= |p| && DiffersAt(p, q, k) && (k == |p| || IdentifierLower(p[k], q[k]))
  }

  /** Rules 11.2 and 11.3. */
  ghost predicate Lower(a: Precedence, b: Precedence) {
    || a.core.0 < b.core.0
    || (a.core.0 == b.core.0 && a.core.1 < b.core.1)
    || (a.core.0 == b.core.0 && a.core.1 == b.core.1 && a.core.2 < b.core.2)
    || (a.core == b.core && (
          || (a.pre.Some? && b.pre.None?)
          || (a.pre.Some? && b.pre.Some? && ListLower(a.pre.value, b.pre.value))))
  }

  lemma {:induction false} LessIsAsciiLower(x: string, y: string)
    ensures Less(x, y) <==> AsciiLower(x, y)
  {
    if y == "" {
    } else if x == "" {
      assert DiffersAt(x, y, 0);
    } else {
      LessIsAsciiLower(x[1..], y[1..]);
      if Less(x, y) {
        if x[0] < y[0] {
          assert DiffersAt(x, y, 0);
        } else {
          var k :| 0 <= k <= |x| - 1 && DiffersAt(x[1..], y[1..], k) && (k == |x| - 1 || (k < |y| - 1 && x[1..][k] < y[1..][k]));
          assert x[..k + 1] == [x[0]] + x[1..][..k] && y[..k + 1] == [y[0]] + y[1..][..k];
          assert DiffersAt(x, y, k + 1);
        }
      }
      if AsciiLower(x, y) {
        var k :| 0 <= k <= |x| && DiffersAt(x, y, k) && (k == |x| || (k < |y| && x[k] < y[k]));
        if k > 0 {
          assert x[0] == x[..k][0] && y[0] == y[..k][0];
          assert x[1..][..k - 1] == x[..k][1..] && y[1..][..k - 1] == y[..k][1..];
          assert DiffersAt(x[1..], y[1..], k - 1);
        }
      }
    }
  }

  /** Strings are totally ordered. */
  lemma {:induction false} LessIsTotal(x: string, y: string)
    ensures x == y || Less(x, y) || Less(y, x)
    ensures !(Less(x, y) && Less(y, x)) && !Less(x, x)
  {
    if x != "" {
      LessIsTotal(x[1..], x[1..]);
      if y != "" {
        LessIsTotal(x[1..], y[1..]);
        if x[0] == y[0] && x[1..] == y[1..] {
          assert x == [x[0]] + x[1..] && y == [y[0]] + y[1..];
        }
      }
    }
  }

  lemma IdentifiersAgree(x: string, y: string)
    requires x != "" && y != ""
    ensures CompareIdentifiers(x, y) == 0 <==> Identify(x) == Identify(y)
    ensures CompareIdentifiers(x, y) < 0 <==> IdentifierLower(Identify(x), Identify(y))
    ensures CompareIdentifiers(y, x) == -CompareIdentifiers(x, y)
  {
    LessIsAsciiLower(x, y);
    LessIsTotal(x, y);
  }

  lemma {:induction false} ListsAgree(a: seq<string>, b: seq<string>)
    requires forall i | 0 <= i < |a| :: a[i] != ""
    requires forall i | 0 <= i < |b| :: b[i] != ""
    ensures CompareLists(a, b) == 0 <==> IdentifyAll(a) == IdentifyAll(b)
    ensures CompareLists(a, b) < 0 <==> ListLower(IdentifyAll(a), IdentifyAll(b))
    ensures CompareLists(b, a) == -CompareLists(a, b)
  {
    var p, q := IdentifyAll(a), IdentifyAll(b);
    if a == [] || b == [] {
      if b != [] {
        assert DiffersAt(p, q, 0);
      }
    } else {
      IdentifiersAgree(a[0], b[0]);
      ListsAgree(a[1..], b[1..]);
      ListLowerCons(p, q);
    }
  }

  /** The declarative order unfolds from the left. */
  lemma ListLowerCons(p: seq<Identifier>, q: seq<Identifier>)
    requires p != [] && q != []
    ensures ListLower(p, q) <==> IdentifierLower(p[0], q[0]) || (p[0] == q[0] && ListLower(p[1..], q[1..]))
  {
    if ListLower(p, q) {
      var k :| 0 <= k <= |p| && DiffersAt(p, q, k) && (k == |p| || IdentifierLower(p[k], q[k]));
      if k > 0 {
        assert p[0] == p[..k][0] && q[0] == q[..k][0];
        assert p[1..][..k - 1] == p[..k][1..] && q[1..][..k - 1] == q[..k][1..];
        assert DiffersAt(p[1..], q[1..], k - 1);
      }
    }
    if IdentifierLower(p[0], q[0]) {
      assert DiffersAt(p, q, 0);
    }
    if p[0] == q[0] && ListLower(p[1..], q[1..]) {
      var k :| 0 <= k <= |p| - 1 && DiffersAt(p[1..], q[1..], k) && (k == |p| - 1 || IdentifierLower(p[1..][k], q[1..][k]));
      assert p[..k + 1] == [p[0]] + p[1..][..k] && q[..k + 1] == [q[0]] + q[1..][..k];
      assert DiffersAt(p, q, k + 1);
    }
  }

  lemma VersionsArePrecedence(v: Version, w: Version)
    requires WellFormed(v) && WellFormed(w)
    ensures CompareVersions(v, w) < 0 <==> Lower(Canonical(v), Canonical(w))
    ensures CompareVersions(v, w) == 0 <==> Canonical(v) == Canonical(w)
    ensures CompareVersions(w, v) == -CompareVersions(v, w)
  {
    if v.pre.Some? && w.pre.Some? {
      ListsAgree(v.pre.value, w.pre.value);
    }
  }

  /** On version texts the comparison is section 11's precedence: negative exactly when lower, zero exactly when equal
      up to build metadata, a leading `v` and leading zeros, and antisymmetric. */
  lemma CompareIsPrecedence(a: string, b: string)
    requires Parse(a).Some? && Parse(b).Some?
    ensures WellFormed(Parse(a).value) && WellFormed(Parse(b).value)
    ensures CompareSemver(a, b) < 0 <==> Lower(Canonical(Parse(a).value), Canonical(Parse(b).value))
    ensures CompareSemver(a, b) == 0 <==> Canonical(Parse(a).value) == Canonical(Parse(b).value)
    ensures CompareSemver(b, a) == -CompareSemver(a, b)
  {
    hide Parse, CompareVersions, Lower, Canonical;
    ParseIsWellFormed(a);
    ParseIsWellFormed(b);
    VersionsArePrecedence(Parse(a).value, Parse(b).value);
  }

  lemma {:induction false} AsciiTransitive(x: string, y: string, z: string)
    requires Less(x, y) && Less(y, z)
    ensures Less(x, z)
  {
    if x != "" && x[0] == y[0] && y[0] == z[0] {
      AsciiTransitive(x[1..], y[1..], z[1..]);
    }
  }

  lemma IdentifierTransitive(x: Identifier, y: Identifier, z: Identifier)
    requires IdentifierLower(x, y) && IdentifierLower(y, z)
    ensures IdentifierLower(x, z)
  {
    if x.Alphanumeric? {
      LessIsAsciiLower(x.s, y.s);
      LessIsAsciiLower(y.s, z.s);
      LessIsAsciiLower(x.s, z.s);
      AsciiTransitive(x.s, y.s, z.s);
    }
  }

  lemma {:induction false} ListTransitive(p: seq<Identifier>, q: seq<Identifier>, r: seq<Identifier>)
    requires ListLower(p, q) && ListLower(q, r)
    ensures ListLower(p, r)
  {
    assert q != [] && r != [];
    if p == [] {
      assert DiffersAt(p, r, 0);
    } else {
      ListLowerCons(p, q);
      ListLowerCons(q, r);
      ListLowerCons(p, r);
      if IdentifierLower(p[0], q[0]) && IdentifierLower(q[0], r[0]) {
        IdentifierTransitive(p[0], q[0], r[0]);
      } else if p[0] == q[0] && q[0] == r[0] && ListLower(p[1..], q[1..]) && ListLower(q[1..], r[1..]) {
        ListTransitive(p[1..], q[1..], r[1..]);
      }
    }
  }

  /** Precedence is transitive, through equals as well. */
  lemma LowerIsTransitive(x: Precedence, y: Precedence, z: Precedence)
    requires (Lower(x, y) || x == y) && (Lower(y, z) || y == z)
    ensures Lower(x, z) || (x == y && y == z)
  {
    if x.pre.Some? && y.pre.Some? && z.pre.Some? {
      if ListLower(x.pre.value, y.pre.value) && ListLower(y.pre.value, z.pre.value) {
        ListTransitive(x.pre.value, y.pre.value, z.pre.value);
      }
    }
  }

  /** A total preorder on version texts. */
  lemma CompareIsTransitive(a: string, b: string, c: string)
    requires Parse(a).Some? && Parse(b).Some? && Parse(c).Some?
    requires CompareSemver(a, b) <= 0 && CompareSemver(b, c) <= 0
    ensures CompareSemver(a, c) <= 0
    ensures CompareSemver(a, b) < 0 || CompareSemver(b, c) < 0 ==> CompareSemver(a, c) < 0
  {
    hide Parse, CompareSemver, Canonical, Lower;
    CompareIsPrecedence(a, b);
    CompareIsPrecedence(b, c);
    CompareIsPrecedence(a, c);
    LowerIsTransitive(Canonical(Parse(a).value), Canonical(Parse(b).value), Canonical(Parse(c).value));
  }

  // ----- The texts that are versions -----

  ghost predicate DigitText(s: string) {
    s != "" && forall i | 0 <= i < |s| :: s[i] in DIGITS
  }

  ghost predicate IdentifierLetter(c: char) {
    c in DIGITS || c in UPPER || c in LOWER || c == '-'
  }

  ghost predicate IdentifierText(s: string) {
    s != "" && forall i | 0 <= i < |s| :: IdentifierLetter(s[i])
  }

  ghost predicate IdentifierTexts(ids: seq<string>) {
    ids != [] && forall i | 0 <= i < |ids| :: IdentifierText(ids[i])
  }

  /** Parts as they may stand in a version text. */
  ghost predicate Writable(v: Version, build: Option<seq<string>>) {
    && DigitText(v.major) && DigitText(v.minor) && DigitText(v.patch)
    && (v.pre.Some? ==> IdentifierTexts(v.pre.value))
    && (build.Some? ==> IdentifierTexts(build.value))
  }

  function Dotted(ids: seq<string>): string {
    if ids == [] then "" else if |ids| == 1 then ids[0] else ids[0] + ("." + Dotted(ids[1..]))
  }

  function BuildText(build: Option<seq<string>>): string {
    if build.None? then "" else "+" + Dotted(build.value)
  }

  function TailText(pre: Option<seq<string>>, build: Option<seq<string>>): string {
    (if pre.None? then "" else "-" + Dotted(pre.value)) + BuildText(build)
  }

  /** `major.minor.patch-pre+build` */
  function VersionText(v: Version, build: Option<seq<string>>): string {
    v.major + ("." + (v.minor + ("." + (v.patch + TailText(v.pre, build)))))
  }

  lemma CharClasses(c: char)
    ensures IsDigit(c) <==> c in DIGITS
    ensures IsIdentifierChar(c) <==> IdentifierLetter(c)
  {
    hide DIGITS, UPPER, LOWER;
    DigitIs(c);
    UpperIs(c);
    LowerIs(c);
  }

  lemma {:induction false} DigitRunOf(s: string, rest: string)
    requires forall i | 0 <= i < |s| :: IsDigit(s[i])
    requires rest == "" || !IsDigit(rest[0])
    ensures DigitRun(s + rest) == |s|
  {
    if s == "" {
      assert s + rest == rest;
    } else {
      assert (s + rest)[1..] == s[1..] + rest;
      DigitRunOf(s[1..], rest);
    }
  }

  lemma NumberOf(s: string, rest: string)
    requires DigitText(s) && (rest == "" || !IsDigit(rest[0]))
    ensures TakeNumber(s + rest) == Some((s, rest))
  {
    forall i | 0 <= i < |s| ensures IsDigit(s[i]) {
      CharClasses(s[i]);
    }
    DigitRunOf(s, rest);
  }

  lemma {:induction false} IdentifierRunOf(s: string, rest: string)
    requires forall i | 0 <= i < |s| :: IsIdentifierChar(s[i])
    requires rest == "" || !IsIdentifierChar(rest[0])
    ensures IdentifierRun(s + rest) == |s|
  {
    if s == "" {
      assert s + rest == rest;
    } else {
      assert (s + rest)[1..] == s[1..] + rest;
      IdentifierRunOf(s[1..], rest);
    }
  }

  lemma OneIdentifierOf(id: string, rest: string)
    requires IdentifierText(id) && (rest == "" || !IsIdentifierChar(rest[0]))
    ensures IdentifierRun(id + rest) == |id| > 0 && (id + rest)[..|id|] == id && (id + rest)[|id|..] == rest
  {
    forall i | 0 <= i < |id| ensures IsIdentifierChar(id[i]) {
      CharClasses(id[i]);
    }
    IdentifierRunOf(id, rest);
  }

  lemma TakeStep(s: string, n: nat)
    requires n == IdentifierRun(s) > 0 && n < |s| && s[n] == '.' && TakeIdentifiers(s[n + 1..]).Some?
    ensures TakeIdentifiers(s)
         == Some(([s[..n]] + TakeIdentifiers(s[n + 1..]).value.0, TakeIdentifiers(s[n + 1..]).value.1))
  {
  }

  /** One identifier, and more of them behind a dot. */
  lemma TakesMore(id: string, more: string)
    requires IdentifierText(id) && TakeIdentifiers(more).Some?
    ensures TakeIdentifiers(id + ("." + more)) == Some(([id] + TakeIdentifiers(more).value.0, TakeIdentifiers(more).value.1))
  {
    hide IdentifierText, IdentifierRun, IsIdentifierChar, TakeIdentifiers;
    var s := id + ("." + more);
    DotIsNoIdentifier();
    OneIdentifierOf(id, "." + more);
    assert s[|id| + 1..] == more && s[|id|] == '.';
    TakeStep(s, |id|);
  }

  lemma {:induction false} IdentifiersOf(ids: seq<string>, rest: string)
    requires IdentifierTexts(ids) && (rest == "" || (!IsIdentifierChar(rest[0]) && rest[0] != '.'))
    ensures TakeIdentifiers(Dotted(ids) + rest) == Some((ids, rest))
    decreases |ids|
  {
    hide IdentifierText, IdentifierRun, IsIdentifierChar;
    var id := ids[0];
    if |ids| == 1 {
      OneIdentifierOf(id, rest);
      assert ids == [id];
    } else {
      hide TakeIdentifiers;
      IdentifiersOf(ids[1..], rest);
      TakesMore(id, Dotted(ids[1..]) + rest);
      assert Dotted(ids) + rest == id + ("." + (Dotted(ids[1..]) + rest));
      assert [id] + ids[1..] == ids;
    }
  }

  lemma DotIsNoIdentifier()
    ensures !IsIdentifierChar('.') && !IsIdentifierChar('+')
  {
  }

  ghost predicate BuildOrNothing(b: string) {
    b == "" || (b[0] == '+' && ValidBuild(b[1..]))
  }

  lemma BuildOf(build: Option<seq<string>>)
    requires build.Some? ==> IdentifierTexts(build.value)
    ensures BuildOrNothing(BuildText(build))
  {
    if build.Some? {
      IdentifiersOf(build.value, "");
      assert Dotted(build.value) + "" == Dotted(build.value);
      assert BuildText(build)[1..] == Dotted(build.value);
    }
  }

  lemma BuildTail(b: string)
    requires BuildOrNothing(b)
    ensures ParseTail(b) == Some(None)
  {
    hide TakeIdentifiers, ValidBuild;
  }

  lemma PreTail(ids: seq<string>, t: string, b: string)
    requires BuildOrNothing(b) && TakeIdentifiers(t) == Some((ids, b))
    ensures ParseTail("-" + t) == Some(Some(ids))
  {
    hide TakeIdentifiers, ValidBuild;
    assert ("-" + t)[1..] == t;
  }

  lemma TailOf(pre: Option<seq<string>>, build: Option<seq<string>>)
    requires pre.Some? ==> IdentifierTexts(pre.value)
    requires build.Some? ==> IdentifierTexts(build.value)
    ensures ParseTail(TailText(pre, build)) == Some(pre)
  {
    hide ParseTail, IdentifierTexts, TakeIdentifiers, Dotted, ValidBuild, BuildText;
    var b := BuildText(build);
    BuildOf(build);
    DotIsNoIdentifier();
    if pre.Some? {
      IdentifiersOf(pre.value, b);
      PreTail(pre.value, Dotted(pre.value) + b, b);
      assert TailText(pre, build) == "-" + (Dotted(pre.value) + b);
    } else {
      BuildTail(b);
      assert TailText(pre, build) == b;
    }
  }

  lemma DotOf(s: string)
    ensures TakeDot("." + s) == Some(s)
  {
    assert ("." + s)[1..] == s;
  }

  /** A version text is read as its parts. */
  lemma TextIsRead(v: Version, build: Option<seq<string>>)
    requires Writable(v, build)
    ensures ParseCore(VersionText(v, build)) == Some(v)
  {
    var s5 := TailText(v.pre, build);
    var s4 := v.patch + s5;
    var s2 := v.minor + ("." + s4);
    TailOf(v.pre, build);
    NumberOf(v.major, "." + s2);
    NumberOf(v.minor, "." + s4);
    NumberOf(v.patch, s5);
    hide DigitText, IdentifierTexts, TakeNumber, TakeDot, ParseTail;
    DotOf(s2);
    DotOf(s4);
  }

  lemma NumberIs(s: string)
    requires TakeNumber(s).Some?
    ensures var (n, rest) := TakeNumber(s).value; DigitText(n) && s == n + rest
  {
    DigitRunIsDigits(s);
    var n := TakeNumber(s).value.0;
    forall i | 0 <= i < |n| ensures n[i] in DIGITS {
      CharClasses(n[i]);
    }
  }

  lemma DotIs(s: string)
    requires TakeDot(s).Some?
    ensures s == "." + TakeDot(s).value
  {
  }

  lemma {:induction false} IdentifierRunIs(s: string)
    ensures forall i | 0 <= i < IdentifierRun(s) :: IsIdentifierChar(s[i])
  {
    if s != "" && IsIdentifierChar(s[0]) {
      IdentifierRunIs(s[1..]);
      assert forall i | 1 <= i < |s| :: s[i] == s[1..][i - 1];
    }
  }

  lemma FirstIdentifier(s: string)
    requires IdentifierRun(s) > 0
    ensures IdentifierText(s[..IdentifierRun(s)])
  {
    IdentifierRunIs(s);
    hide IdentifierRun, IdentifierLetter;
    forall i | 0 <= i < IdentifierRun(s)
      ensures IdentifierLetter(s[i])
    {
      CharClasses(s[i]);
    }
  }

  lemma ConsIdentifiers(id: string, more: seq<string>, rest: string)
    requires IdentifierText(id) && IdentifierTexts(more)
    ensures IdentifierTexts([id] + more) && Dotted([id] + more) + rest == id + ("." + (Dotted(more) + rest))
  {
    hide IdentifierText;
    assert ([id] + more)[1..] == more;
  }

  lemma {:induction false} IdentifiersAre(s: string)
    requires TakeIdentifiers(s).Some?
    ensures var (ids, rest) := TakeIdentifiers(s).value; IdentifierTexts(ids) && s == Dotted(ids) + rest
    decreases |s|
  {
    var n := IdentifierRun(s);
    assert n > 0;
    FirstIdentifier(s);
    CutAtDot(s, n);
    hide IdentifierRun, IdentifierText;
    if n < |s| && s[n] == '.' {
      var (more, rest) := TakeIdentifiers(s[n + 1..]).value;
      assert TakeIdentifiers(s).value == ([s[..n]] + more, rest);
      hide TakeIdentifiers, IdentifierTexts, Dotted;
      IdentifiersAre(s[n + 1..]);
      ConsIdentifiers(s[..n], more, rest);
    }
  }

  lemma CutAtDot(s: string, n: nat)
    requires n <= |s|
    ensures s == s[..n] + s[n..]
    ensures n < |s| && s[n] == '.' ==> s == s[..n] + ("." + s[n + 1..])
  {
  }

  lemma BuildIs(s: string) returns (build: Option<seq<string>>)
    requires s == "" || (s[0] == '+' && ValidBuild(s[1..]))
    ensures s == BuildText(build) && (build.Some? ==> IdentifierTexts(build.value))
  {
    if s == "" {
      build := None;
    } else {
      IdentifiersAre(s[1..]);
      hide IdentifierTexts, TakeIdentifiers;
      build := Some(TakeIdentifiers(s[1..]).value.0);
      assert Dotted(build.value) + "" == Dotted(build.value);
      assert s == "+" + s[1..];
    }
  }

  lemma TailIs(s: string) returns (build: Option<seq<string>>)
    requires ParseTail(s).Some?
    ensures var pre := ParseTail(s).value;
            && s == TailText(pre, build)
            && (pre.Some? ==> IdentifierTexts(pre.value)) && (build.Some? ==> IdentifierTexts(build.value))
  {
    hide IdentifierTexts, TakeIdentifiers, ValidBuild, Dotted, BuildText;
    if s != "" && s[0] == '-' {
      IdentifiersAre(s[1..]);
      var (ids, rest) := TakeIdentifiers(s[1..]).value;
      build := BuildIs(rest);
      assert s == "-" + (Dotted(ids) + rest);
    } else {
      build := BuildIs(s);
      assert "" + BuildText(build) == BuildText(build);
    }
  }

  /** Nothing else is read. */
  lemma ReadIsText(s: string) returns (build: Option<seq<string>>)
    requires ParseCore(s).Some?
    ensures Writable(ParseCore(s).value, build) && s == VersionText(ParseCore(s).value, build)
  {
    hide DigitText, IdentifierTexts, ParseTail, TakeNumber, TakeDot;
    var (major, s1) := TakeNumber(s).value;
    var (minor, s3) := TakeNumber(TakeDot(s1).value).value;
    var (patch, s5) := TakeNumber(TakeDot(s3).value).value;
    NumberIs(s);
    DotIs(s1);
    NumberIs(TakeDot(s1).value);
    DotIs(s3);
    NumberIs(TakeDot(s3).value);
    build := TailIs(s5);
  }

  ghost predicate IsTextOf(s: string, v: Version) {
    exists build :: Writable(v, build) && (s == VersionText(v, build) || s == "v" + VersionText(v, build))
  }

  /** Exactly what is read as a version: between white space, `major.minor.patch` with an optional prerelease, optional
      build metadata and an optional leading `v`; the parts are read as they stand there. */
  lemma ParsesExactly(text: string, v: Version)
    ensures Parse(text) == Some(v) <==> IsTextOf(Trim(text), v)
  {
    hide ParseCore, VersionText, Writable;
    var s := Trim(text);
    var core := if s != "" && s[0] == 'v' then s[1..] else s;
    if Parse(text) == Some(v) {
      var build := ReadIsText(core);
      assert s == core || s == "v" + core;
    }
    if IsTextOf(s, v) {
      var build :| Writable(v, build) && (s == VersionText(v, build) || s == "v" + VersionText(v, build));
      TextIsRead(v, build);
      StartsWithDigit(v, build);
      assert core == VersionText(v, build);
    }
  }

  lemma StartsWithDigit(v: Version, build: Option<seq<string>>)
    requires Writable(v, build)
    ensures VersionText(v, build) != "" && VersionText(v, build)[0] != 'v'
  {
    assert VersionText(v, build)[0] == v.major[0];
  }

  /** The comparison, on the texts themselves: between two versions it is section 11's precedence of their parts, and a
      text that is no version compares equal to everything. */
  lemma ComparesTexts(a: string, v: Version, b: string, w: Version)
    requires IsTextOf(Trim(a), v) && IsTextOf(Trim(b), w)
    ensures WellFormed(v) && WellFormed(w)
    ensures CompareSemver(a, b) < 0 <==> Lower(Canonical(v), Canonical(w))
    ensures CompareSemver(a, b) == 0 <==> Canonical(v) == Canonical(w)
  {
    hide Parse, CompareSemver, Lower, Canonical, IsTextOf;
    ParsesExactly(a, v);
    ParsesExactly(b, w);
    CompareIsPrecedence(a, b);
  }

  lemma JunkComparesEqual(a: string, b: string)
    requires forall v :: !IsTextOf(Trim(a), v)
    ensures CompareSemver(a, b) == 0 && CompareSemver(b, a) == 0
  {
    hide IsTextOf, CompareVersions;
    if Parse(a).Some? {
      ParsesExactly(a, Parse(a).value);
    }
  }

  // ----- Leading zeros, a leading v, build metadata -----

  function StripZeros(s: string): string {
    if s != "" && s[0] == '0' then StripZeros(s[1..]) else s
  }

  lemma {:induction false} StripZerosLast(s: string)
    requires s != ""
    ensures StripZeros(s) == (if StripZeros(s[..|s| - 1]) == "" && s[|s| - 1] == '0' then ""
                              else StripZeros(s[..|s| - 1]) + [s[|s| - 1]])
  {
    if |s| > 1 && s[0] == '0' {
      assert s[1..][..|s| - 2] == s[..|s| - 1][1..];
      StripZerosLast(s[1..]);
    } else if |s| > 1 {
      assert s == s[..|s| - 1] + [s[|s| - 1]];
    }
  }

  lemma {:induction false} ZeroIsStripped(s: string)
    requires AllDigits(s)
    ensures Number(s) == 0 <==> StripZeros(s) == ""
  {
    if s != "" {
      StripZerosLast(s);
      ZeroIsStripped(s[..|s| - 1]);
    }
  }

  /** Two digit strings denote the same number exactly when they agree without their leading zeros. */
  lemma {:induction false} SameNumber(s: string, t: string)
    requires AllDigits(s) && AllDigits(t)
    ensures Number(s) == Number(t) <==> StripZeros(s) == StripZeros(t)
    decreases |s|
  {
    ZeroIsStripped(s);
    ZeroIsStripped(t);
    if s != "" && t != "" {
      var s', t' := s[..|s| - 1], t[..|t| - 1];
      StripZerosLast(s);
      StripZerosLast(t);
      SameNumber(s', t');
      ZeroIsStripped(s');
      ZeroIsStripped(t');
      var c, d := s[|s| - 1], t[|t| - 1];
      assert DigitValue(c) < 10 && DigitValue(d) < 10;
      assert Number(s) == Number(t) <==> Number(s') == Number(t') && c == d;
      var a, b := StripZeros(s'), StripZeros(t');
      assert (a + [c])[..|a|] == a && (b + [d])[..|b|] == b;
      assert a + [c] == b + [d] ==> |a| == |b| && (a + [c])[|a|] == (b + [d])[|b|];
    }
  }

  /** A leading `v` makes no difference. */
  lemma LeadingV(s: string)
    requires Trimmed(s) && s != "" && s[0] != 'v'
    ensures Parse(['v'] + s) == Parse(s)
  {
    TrimmedIsFixed(s);
    assert Trimmed(['v'] + s);
    TrimmedIsFixed(['v'] + s);
    assert (['v'] + s)[1..] == s;
  }

  ghost predicate StartsWithPlus(x: string) {
    x != "" && x[0] == '+'
  }

  lemma {:induction false} RunsStopAtPlus(s: string, x: string)
    requires StartsWithPlus(x)
    ensures DigitRun(s + x) == DigitRun(s) && IdentifierRun(s + x) == IdentifierRun(s)
  {
    if s == "" {
      assert s + x == x;
    } else {
      assert (s + x)[1..] == s[1..] + x;
      RunsStopAtPlus(s[1..], x);
    }
  }

  lemma {:induction false} IdentifiersStopAtPlus(s: string, x: string)
    requires StartsWithPlus(x)
    ensures var t, u := TakeIdentifiers(s), TakeIdentifiers(s + x);
            u == if t.None? then None else Some((t.value.0, t.value.1 + x))
    decreases |s|
  {
    RunsStopAtPlus(s, x);
    var n := IdentifierRun(s);
    assert (s + x)[..n] == s[..n] && (s + x)[n..] == s[n..] + x;
    if n < |s| && s[n] == '.' {
      assert (s + x)[n + 1..] == s[n + 1..] + x;
      IdentifiersStopAtPlus(s[n + 1..], x);
    }
  }

  lemma {:induction false} IdentifiersRest(s: string)
    ensures TakeIdentifiers(s).Some? ==> forall i | 0 <= i < |TakeIdentifiers(s).value.1| :: TakeIdentifiers(s).value.1[i] in s
    decreases |s|
  {
    var n := IdentifierRun(s);
    if n > 0 && n < |s| && s[n] == '.' {
      IdentifiersRest(s[n + 1..]);
    }
  }

  lemma TailIgnoresBuild(s: string, b: string)
    requires '+' !in s && ValidBuild(b)
    ensures ParseTail(s + (['+'] + b)) == ParseTail(s)
  {
    var x := ['+'] + b;
    assert x[1..] == b;
    if s == "" {
      assert s + x == x;
    } else if s[0] == '-' {
      assert (s + x)[1..] == s[1..] + x;
      IdentifiersStopAtPlus(s[1..], x);
      IdentifiersRest(s[1..]);
      var t := TakeIdentifiers(s[1..]);
      if t.Some? {
        var rest := t.value.1;
        if rest == "" {
          assert rest + x == x;
        } else {
          assert rest[0] in s[1..] && (rest + x)[0] == rest[0];
        }
      }
    }
  }

  lemma NumberStopsAtPlus(s: string, x: string)
    requires StartsWithPlus(x)
    ensures TakeNumber(s + x) == if TakeNumber(s).None? then None else Some((TakeNumber(s).value.0, TakeNumber(s).value.1 + x))
    ensures TakeDot(s + x) == if TakeDot(s).None? then None else Some(TakeDot(s).value + x)
  {
    RunsStopAtPlus(s, x);
    var n := DigitRun(s);
    assert (s + x)[..n] == s[..n] && (s + x)[n..] == s[n..] + x;
    if s != "" {
      assert (s + x)[1..] == s[1..] + x;
    }
  }

  /** Build metadata makes no difference, also to whether the text is a version at all. */
  lemma BuildMetadata(s: string, b: string)
    requires '+' !in s && ValidBuild(b)
    ensures ParseCore(s + (['+'] + b)) == ParseCore(s)
  {
    var x := ['+'] + b;
    NumberStopsAtPlus(s, x);
    if TakeNumber(s).Some? {
      var s1 := TakeNumber(s).value.1;
      NumberStopsAtPlus(s1, x);
      if TakeDot(s1).Some? {
        var s2 := TakeDot(s1).value;
        NumberStopsAtPlus(s2, x);
        if TakeNumber(s2).Some? {
          var s3 := TakeNumber(s2).value.1;
          NumberStopsAtPlus(s3, x);
          if TakeDot(s3).Some? {
            var s4 := TakeDot(s3).value;
            NumberStopsAtPlus(s4, x);
            if TakeNumber(s4).Some? {
              TailIgnoresBuild(TakeNumber(s4).value.1, b);
            }
          }
        }
      }
    }
  }
}
