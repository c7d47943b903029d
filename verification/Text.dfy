/** The string operations the CLI and the extractors build on: white space, trimming, splitting into lines and joining. */
module Text {

  /** White space as JavaScript's `trim` and `\s` have it. */
  predicate IsSpace(c: char) {
    var u := c as int;
    || (9 <= u <= 13) || u == 0x20 || u == 0xA0 || u == 0x1680 || (0x2000 <= u <= 0x200A)
    || u == 0x2028 || u == 0x2029 || u == 0x202F || u == 0x205F || u == 0x3000 || u == 0xFEFF
  }

  function TrimStart(s: string): string {
    if s != "" && IsSpace(s[0]) then TrimStart(s[1..]) else s
  }

  function TrimEnd(s: string): string {
    if s != "" && IsSpace(s[|s| - 1]) then TrimEnd(s[..|s| - 1]) else s
  }

  function Trim(s: string): string {
    TrimEnd(TrimStart(s))
  }

  ghost predicate AllSpace(s: string) {
    forall i | 0 <= i < |s| :: IsSpace(s[i])
  }

  /** No white space at either end. */
  predicate Trimmed(s: string) {
    s == "" || (!IsSpace(s[0]) && !IsSpace(s[|s| - 1]))
  }

  lemma {:induction false} TrimStartSplits(s: string)
    ensures exists k: nat :: StartSplit(s, k)
  {
    if s != "" && IsSpace(s[0]) {
      TrimStartSplits(s[1..]);
      var k: nat :| StartSplit(s[1..], k);
      assert s[..k + 1] == [s[0]] + s[1..][..k];
      assert s[k + 1..] == s[1..][k..];
      assert StartSplit(s, k + 1);
    } else {
      assert s[..0] == "" && s[0..] == s;
      assert StartSplit(s, 0);
    }
  }

  ghost predicate EndSplit(s: string, k: nat) {
    k <= |s| && AllSpace(s[k..]) && TrimEnd(s) == s[..k] && (k > 0 ==> !IsSpace(s[k - 1]))
  }

  ghost predicate StartSplit(s: string, k: nat) {
    k <= |s| && AllSpace(s[..k]) && TrimStart(s) == s[k..] && (k < |s| ==> !IsSpace(s[k]))
  }

  lemma {:induction false} TrimEndSplits(s: string)
    ensures exists k: nat :: EndSplit(s, k)
  {
    if s != "" && IsSpace(s[|s| - 1]) {
      var t := s[..|s| - 1];
      TrimEndSplits(t);
      var k: nat :| EndSplit(t, k);
      assert s[k..] == t[k..] + [s[|s| - 1]];
      assert s[..k] == t[..k];
      assert EndSplit(s, k);
    } else {
      assert s[|s|..] == "" && s[..|s|] == s;
      assert EndSplit(s, |s|);
    }
  }

  lemma {:induction false} TrimEndAppend(s: string, space: string)
    requires AllSpace(space)
    ensures TrimEnd(s + space) == TrimEnd(s)
  {
    if space == "" {
      assert s + space == s;
    } else {
      var t := s + space;
      assert t[..|t| - 1] == s + space[..|space| - 1];
      TrimEndAppend(s, space[..|space| - 1]);
    }
  }

  lemma {:induction false} TrimStartPrepend(space: string, s: string)
    requires AllSpace(space)
    ensures TrimStart(space + s) == TrimStart(s)
  {
    if space == "" {
      assert space + s == s;
    } else {
      assert (space + s)[1..] == space[1..] + s;
      TrimStartPrepend(space[1..], s);
    }
  }

  lemma TrimmedIsFixed(s: string)
    requires Trimmed(s)
    ensures TrimStart(s) == s && TrimEnd(s) == s && Trim(s) == s
  {
  }

  lemma TrimIsTrimmed(s: string)
    ensures Trimmed(Trim(s))
  {
    TrimStartSplits(s);
    var t := TrimStart(s);
    TrimEndSplits(t);
    var i: nat, k: nat :| StartSplit(s, i) && EndSplit(t, k);
  }

  /** The only core without white space at its ends. */
  ghost predicate CutAs(s: string, before: string, core: string, after: string) {
    AllSpace(before) && AllSpace(after) && Trimmed(core) && s == before + (core + after)
  }

  lemma CoreIsTrim(s: string, before: string, core: string, after: string)
    requires CutAs(s, before, core, after)
    ensures Trim(s) == core
  {
    TrimStartPrepend(before, core + after);
    if core == "" {
      TrimStartPrepend(after, "");
      assert core + after == after + "";
    } else {
      assert (core + after)[0] == core[0];
      TrimEndAppend(core, after);
      TrimmedIsFixed(core);
    }
  }

  lemma CutAt(s: string, i: nat, k: nat)
    requires StartSplit(s, i) && EndSplit(TrimStart(s), k) && Trimmed(Trim(s))
    ensures CutAs(s, s[..i], Trim(s), TrimStart(s)[k..])
  {
    var t := TrimStart(s);
    hide TrimStart, TrimEnd, Trimmed, AllSpace;
    assert s == s[..i] + t && t == t[..k] + t[k..];
  }

  lemma TrimCuts(s: string) returns (before: string, after: string)
    ensures CutAs(s, before, Trim(s), after)
  {
    hide Trimmed, StartSplit, EndSplit;
    TrimIsTrimmed(s);
    TrimStartSplits(s);
    TrimEndSplits(TrimStart(s));
    var i: nat :| StartSplit(s, i);
    var k: nat :| EndSplit(TrimStart(s), k);
    CutAt(s, i, k);
    SplitBounds(s, i, k);
    before, after := s[..i], TrimStart(s)[k..];
  }

  lemma SplitBounds(s: string, i: nat, k: nat)
    requires StartSplit(s, i) && EndSplit(TrimStart(s), k)
    ensures i <= |s| && k <= |TrimStart(s)|
  {
  }

  /** The white space itself: tab to carriage return, the space, and the Unicode spaces with the two separators and the
      byte order mark. */
  lemma SpaceCodes(c: char)
    ensures IsSpace(c) <==> c as int in {9, 10, 11, 12, 13, 32, 160, 5760, 8192, 8193, 8194, 8195, 8196, 8197, 8198, 8199,
                                         8200, 8201, 8202, 8232, 8233, 8239, 8287, 12288, 65279}
  {
  }

  // ----- Letters and digits -----

  const DIGITS := "0123456789"
  const UPPER := "ABCDEFGHIJKLMNOPQRSTUVWXYZ"
  const LOWER := "abcdefghijklmnopqrstuvwxyz"

  lemma DigitIs(c: char)
    ensures '0' <= c <= '9' <==> c in DIGITS
  {
  }

  lemma UpperIs(c: char)
    ensures 'A' <= c <= 'Z' <==> c in UPPER
  {
    if 'A' <= c <= 'Z' {
      assert UPPER[c as int - 'A' as int] == c;
    }
  }

  lemma LowerIs(c: char)
    ensures 'a' <= c <= 'z' <==> c in LOWER
  {
    if 'a' <= c <= 'z' {
      assert LOWER[c as int - 'a' as int] == c;
    }
  }

  // ----- Lines -----

  /** `s.split('\n')` */
  function Lines(s: string): (r: seq<string>)
    ensures |r| > 0
  {
    if s == "" then [""]
    else
      var rest := Lines(s[1..]);
      if s[0] == '\n' then [""] + rest else [[s[0]] + rest[0]] + rest[1..]
  }

  /** `lines.join('\n')` */
  function Unlines(lines: seq<string>): string {
    if |lines| == 0 then ""
    else if |lines| == 1 then lines[0]
    else lines[0] + "\n" + Unlines(lines[1..])
  }

  ghost predicate LineFree(line: string) {
    '\n' !in line
  }

  lemma {:induction false} UnlinesLines(s: string)
    ensures Unlines(Lines(s)) == s
  {
    if s != "" {
      var rest := Lines(s[1..]);
      UnlinesLines(s[1..]);
      if s[0] == '\n' {
        assert Lines(s)[1..] == rest;
      } else {
        assert Lines(s)[1..] == rest[1..];
      }
      assert s == [s[0]] + s[1..];
    }
  }

  lemma {:induction false} LinesAreLineFree(s: string)
    ensures forall i | 0 <= i < |Lines(s)| :: LineFree(Lines(s)[i])
  {
    if s != "" {
      LinesAreLineFree(s[1..]);
      var rest := Lines(s[1..]);
      assert LineFree(rest[0]);
      assert forall i | 1 <= i < |rest| :: rest[1..][i - 1] == rest[i];
    }
  }

  lemma {:induction false} OneLine(line: string)
    requires LineFree(line)
    ensures Lines(line) == [line]
  {
    if line != "" {
      assert LineFree(line[1..]) && line[0] in line;
      OneLine(line[1..]);
      assert [line[0]] + line[1..] == line;
    }
  }

  /** Splitting distributes over a newline. */
  lemma {:induction false} LinesConcat(a: string, b: string)
    ensures Lines(a + "\n" + b) == Lines(a) + Lines(b)
  {
    if a == "" {
      assert a + "\n" + b == "\n" + b;
      assert ("\n" + b)[1..] == b;
    } else {
      assert (a + "\n" + b)[1..] == a[1..] + "\n" + b;
      LinesConcat(a[1..], b);
    }
  }

  lemma {:induction false} LinesUnlines(lines: seq<string>)
    requires |lines| > 0 && forall i | 0 <= i < |lines| :: LineFree(lines[i])
    ensures Lines(Unlines(lines)) == lines
  {
    OneLine(lines[0]);
    if |lines| > 1 {
      LinesUnlines(lines[1..]);
      LinesConcat(lines[0], Unlines(lines[1..]));
    }
  }

  lemma {:induction false} UnlinesConcat(a: seq<string>, b: seq<string>)
    requires |a| > 0 && |b| > 0
    ensures Unlines(a + b) == Unlines(a) + "\n" + Unlines(b)
  {
    if |a| > 1 {
      assert (a + b)[1..] == a[1..] + b;
      UnlinesConcat(a[1..], b);
    } else {
      assert (a + b)[1..] == b;
    }
  }

  function LengthenLast(lines: seq<string>, c: char): seq<string>
    requires |lines| > 0
  {
    lines[..|lines| - 1] + [lines[|lines| - 1] + [c]]
  }

  lemma LengthenAfterFirst(first: string, rest: seq<string>, c: char)
    requires |rest| > 0
    ensures LengthenLast([first] + rest, c) == [first] + LengthenLast(rest, c)
  {
  }

  lemma LengthenGrown(c0: char, rest: seq<string>, c: char)
    requires |rest| > 0
    ensures var more := LengthenLast(rest, c);
            LengthenLast([[c0] + rest[0]] + rest[1..], c) == [[c0] + more[0]] + more[1..]
  {
    if |rest| == 1 {
      assert [c0] + (rest[0] + [c]) == ([c0] + rest[0]) + [c];
    }
  }

  /** Appending a character that is no newline lengthens the last line only. */
  lemma {:induction false} LinesAppend(s: string, c: char)
    requires c != '\n'
    ensures Lines(s + [c]) == LengthenLast(Lines(s), c)
  {
    if s == "" {
      OneLine([c]);
      assert s + [c] == [c];
    } else {
      assert (s + [c])[1..] == s[1..] + [c];
      LinesAppend(s[1..], c);
      LengthenAfterFirst("", Lines(s[1..]), c);
      LengthenGrown(s[0], Lines(s[1..]), c);
    }
  }
}
