/** Installing and uninstalling the spec-evolve block in a `post-commit` hook. */
module GitHook {
  import opened Common
  import opened Text

  const MARKER_BEGIN: string := "# >>> homegraph spec evolve hook >>>"
  const MARKER_END: string := "# <<< homegraph spec evolve hook <<<"
  const SHEBANG: string := "#!/bin/sh"

  predicate IsBegin(line: string) {
    Trim(line) == MARKER_BEGIN
  }

  predicate IsEnd(line: string) {
    Trim(line) == MARKER_END
  }

  /** Whether the scan is inside a block after a line. */
  function Next(inBlock: bool, line: string): bool {
    if IsBegin(line) then true else if IsEnd(line) then false else inBlock
  }

  predicate IsMarker(line: string) {
    IsBegin(line) || IsEnd(line)
  }

  /** The lines outside every block, marker lines excluded; an unclosed block reaches to the end. */
  function Outside(lines: seq<string>, inBlock: bool): seq<string> {
    if lines == [] then []
    else if IsMarker(lines[0]) || inBlock then Outside(lines[1..], Next(inBlock, lines[0]))
    else [lines[0]] + Outside(lines[1..], false)
  }

  function EndState(lines: seq<string>, inBlock: bool): bool {
    if lines == [] then inBlock else EndState(lines[1..], Next(inBlock, lines[0]))
  }

  /** The marker lines of a text in order: true for begin, false for end. */
  function Markers(lines: seq<string>): seq<bool> {
    if lines == [] then []
    else if IsMarker(lines[0]) then [IsBegin(lines[0])] + Markers(lines[1..])
    else Markers(lines[1..])
  }

  ghost predicate MarkerFree(lines: seq<string>) {
    forall i | 0 <= i < |lines| :: !IsMarker(lines[i])
  }

  /** The generated script between the markers: single lines, none of them a marker. */
  ghost predicate ValidBody(body: seq<string>) {
    MarkerFree(body) && forall i | 0 <= i < |body| :: LineFree(body[i])
  }

  function Block(body: seq<string>): seq<string> {
    [MARKER_BEGIN] + body + [MARKER_END]
  }

  // ----- The hook file, line by line -----

  ghost predicate OpensBlock(line: string) {
    Trim(line) == "# >>> homegraph spec evolve hook >>>"
  }

  ghost predicate ClosesBlock(line: string) {
    Trim(line) == "# <<< homegraph spec evolve hook <<<"
  }

  /** Some block has been opened before line `i` and not closed since. */
  ghost predicate InBlockAt(lines: seq<string>, i: nat)
    requires i <= |lines|
  {
    exists b :: 0 <= b < i && OpensBlock(lines[b]) && forall e | b < e < i :: !ClosesBlock(lines[e])
  }

  /** The user's lines from line `k` on: neither markers nor inside a block. */
  ghost function UserLines(lines: seq<string>, k: nat): seq<string>
    requires k <= |lines|
    decreases |lines| - k
  {
    if k == |lines| then []
    else (if OpensBlock(lines[k]) || ClosesBlock(lines[k]) || InBlockAt(lines, k) then [] else [lines[k]])
         + UserLines(lines, k + 1)
  }

  ghost predicate HasBlock(lines: seq<string>) {
    exists i :: 0 <= i < |lines| && OpensBlock(lines[i])
  }

  lemma BlockIsFound(lines: seq<string>)
    ensures HasBlock(lines) <==> exists i :: 0 <= i < |lines| && IsBegin(lines[i])
  {
    forall i | 0 <= i < |lines| ensures IsBegin(lines[i]) <==> OpensBlock(lines[i]) {
      MarkersAre(lines[i]);
    }
    hide IsBegin, OpensBlock;
  }

  lemma InBlockNext(lines: seq<string>, k: nat)
    requires k < |lines|
    ensures InBlockAt(lines, k + 1) <==> OpensBlock(lines[k]) || (!ClosesBlock(lines[k]) && InBlockAt(lines, k))
  {
    hide OpensBlock, ClosesBlock;
    if b :| 0 <= b < k && OpensBlock(lines[b]) && forall e | b < e < k :: !ClosesBlock(lines[e]) {
      assert !ClosesBlock(lines[k]) ==> forall e | b < e < k + 1 :: !ClosesBlock(lines[e]);
    }
  }

  lemma MarkersAre(line: string)
    ensures IsBegin(line) <==> OpensBlock(line)
    ensures IsEnd(line) <==> ClosesBlock(line)
    ensures !(OpensBlock(line) && ClosesBlock(line))
  {
    assert "# >>> homegraph spec evolve hook >>>"[2] != "# <<< homegraph spec evolve hook <<<"[2];
  }

  lemma {:induction false} OutsideFrom(lines: seq<string>, k: nat)
    requires k <= |lines|
    ensures Outside(lines[k..], InBlockAt(lines, k)) == UserLines(lines, k)
    decreases |lines| - k
  {
    if k < |lines| {
      assert lines[k..][0] == lines[k] && lines[k..][1..] == lines[k + 1..];
      MarkersAre(lines[k]);
      InBlockNext(lines, k);
      hide IsBegin, IsEnd, OpensBlock, ClosesBlock, InBlockAt;
      OutsideFrom(lines, k + 1);
    }
  }

  /** The strip loop keeps exactly the user's lines, however the markers are arranged. */
  lemma OutsideExactly(lines: seq<string>)
    ensures Outside(lines, false) == UserLines(lines, 0)
  {
    assert lines[0..] == lines && !InBlockAt(lines, 0);
    OutsideFrom(lines, 0);
  }

  /** The text an install keeps of a hook. */
  ghost function KeptText(hook: Option<string>): string {
    if hook.None? then "" else TrimEnd(Unlines(UserLines(Lines(hook.value), 0)))
  }

  /** The lines of an installed hook: what is kept and a blank line, or a shebang; the generated lines between the two
      markers; and the end of the last line. */
  lemma InstalledLines(hook: Option<string>, body: seq<string>)
    requires ValidBody(body)
    ensures Lines(Installed(hook, body))
         == (if KeptText(hook) != "" then Lines(KeptText(hook)) + [""] else ["#!/bin/sh"])
            + (["# >>> homegraph spec evolve hook >>>"] + body + ["# <<< homegraph spec evolve hook <<<"] + [""])
  {
    var base := if hook.Some? then Base(hook.value) else "";
    if hook.Some? {
      OutsideExactly(Lines(hook.value));
    }
    assert base == KeptText(hook);
    ComposedLines(base, body);
    if base != "" {
      LinesConcat(base, "");
      assert base + "\n" + "" == base + "\n";
    } else {
      OtherLines();
      OneLine(SHEBANG);
    }
  }

  /** The strip loop both commands share. */
  method Strip(lines: seq<string>) returns (kept: seq<string>, removedBlock: bool)
    ensures kept == Outside(lines, false)
    ensures kept == UserLines(lines, 0)
    ensures removedBlock <==> HasBlock(lines)
  {
    hide IsBegin, IsEnd, HasBlock, UserLines;
    OutsideExactly(lines);
    BlockIsFound(lines);
    kept, removedBlock := [], false;
    var inBlock := false;
    for k := 0 to |lines|
      invariant kept + Outside(lines[k..], inBlock) == Outside(lines, false)
      invariant removedBlock <==> exists i :: 0 <= i < k && IsBegin(lines[i])
    {
      var line := lines[k];
      assert lines[k..][0] == line && lines[k..][1..] == lines[k + 1..];
      if IsBegin(line) {
        inBlock, removedBlock := true, true;
        continue;
      }
      if IsEnd(line) {
        inBlock := false;
        continue;
      }
      if !inBlock {
        kept := kept + [line];
      }
    }
  }

  /** What an existing hook contributes to the new one. */
  function Base(existing: string): string {
    TrimEnd(Unlines(Outside(Lines(existing), false)))
  }

  function Compose(base: string, body: seq<string>): string {
    if base != "" then base + "\n\n" + Unlines(Block(body)) + "\n"
    else SHEBANG + "\n" + Unlines(Block(body)) + "\n"
  }

  /** The text an install writes, given the hook file if there is one. */
  function Installed(hook: Option<string>, body: seq<string>): string {
    Compose(if hook.Some? then Base(hook.value) else "", body)
  }

  method Install(hook: Option<string>, body: seq<string>) returns (content: string)
    ensures content == Installed(hook, body)
  {
    var hookBlock := Unlines(Block(body));
    if hook.None? {
      return SHEBANG + "\n" + hookBlock + "\n";
    }
    var kept, _ := Strip(Lines(hook.value));
    var base := TrimEnd(Unlines(kept));
    content := if |base| > 0 then base + "\n\n" + hookBlock + "\n" else SHEBANG + "\n" + hookBlock + "\n";
  }

  datatype Uninstalled = NoHook | NoBlock | Deleted | Rewritten(text: string)

  method Uninstall(hook: Option<string>) returns (r: Uninstalled)
    ensures hook.None? ==> r == NoHook
    ensures hook.Some? && !HasBlock(Lines(hook.value)) ==> r == NoBlock
    ensures hook.Some? && HasBlock(Lines(hook.value)) ==>
              var remaining := Trim(Unlines(UserLines(Lines(hook.value), 0)));
              r == if remaining == "" || remaining == "#!/bin/sh" then Deleted else Rewritten(remaining + "\n")
  {
    if hook.None? {
      return NoHook;
    }
    var kept, removedBlock := Strip(Lines(hook.value));
    OutsideExactly(Lines(hook.value));
    if !removedBlock {
      return NoBlock;
    }
    var remaining := Trim(Unlines(kept));
    if |remaining| == 0 || IsShebangOnly(remaining) {
      TrimIsTrimmed(Unlines(kept));
      return Deleted;
    }
    return Rewritten(remaining + "\n");
  }

  /** `/^#!\/bin\/sh\s*$/` */
  predicate IsShebangOnly(s: string) {
    SHEBANG <= s && forall i | |SHEBANG| <= i < |s| :: IsSpace(s[i])
  }

  // ----- Strip and markers -----

  lemma {:induction false} OutsideConcat(a: seq<string>, b: seq<string>, inBlock: bool)
    ensures Outside(a + b, inBlock) == Outside(a, inBlock) + Outside(b, EndState(a, inBlock))
    ensures EndState(a + b, inBlock) == EndState(b, EndState(a, inBlock))
  {
    if a == [] {
      assert a + b == b;
    } else {
      assert (a + b)[1..] == a[1..] + b;
      OutsideConcat(a[1..], b, Next(inBlock, a[0]));
    }
  }

  lemma {:induction false} MarkersConcat(a: seq<string>, b: seq<string>)
    ensures Markers(a + b) == Markers(a) + Markers(b)
  {
    if a == [] {
      assert a + b == b;
    } else {
      assert (a + b)[1..] == a[1..] + b;
      MarkersConcat(a[1..], b);
    }
  }

  lemma {:induction false} OutsideIsMarkerFree(lines: seq<string>, inBlock: bool)
    ensures MarkerFree(Outside(lines, inBlock))
  {
    if lines != [] {
      OutsideIsMarkerFree(lines[1..], Next(inBlock, lines[0]));
    }
  }

  lemma {:induction false} MarkerFreeIsKept(lines: seq<string>, inBlock: bool)
    requires MarkerFree(lines)
    ensures Outside(lines, inBlock) == if inBlock then [] else lines
    ensures EndState(lines, inBlock) == inBlock && Markers(lines) == []
  {
    if lines != [] {
      MarkerFreeIsKept(lines[1..], inBlock);
    }
  }

  lemma BeginLine()
    ensures LineFree(MARKER_BEGIN) && Trim(MARKER_BEGIN) == MARKER_BEGIN
  {
    TrimmedIsFixed(MARKER_BEGIN);
  }

  lemma EndLine()
    ensures LineFree(MARKER_END) && Trim(MARKER_END) == MARKER_END
  {
    TrimmedIsFixed(MARKER_END);
  }

  lemma OtherLines()
    ensures LineFree(SHEBANG) && Trim(SHEBANG) == SHEBANG && Trim("") == ""
    ensures !IsMarker(SHEBANG) && !IsMarker("")
  {
    TrimmedIsFixed(SHEBANG);
    TrimmedIsFixed("");
    assert SHEBANG[1] == '!' && MARKER_BEGIN[1] == ' ' && MARKER_END[1] == ' ';
  }

  lemma BlockIsOneBlock(body: seq<string>)
    requires ValidBody(body)
    ensures Outside(Block(body), false) == [] && !EndState(Block(body), false)
    ensures forall i | 0 <= i < |Block(body)| :: LineFree(Block(body)[i])
  {
    BeginLine();
    EndLine();
    assert MARKER_BEGIN[2] == '>' && MARKER_END[2] == '<';
    MarkerFreeIsKept(body, true);
    OutsideConcat([MARKER_BEGIN] + body, [MARKER_END], false);
    OutsideConcat([MARKER_BEGIN], body, false);
    assert Outside([MARKER_BEGIN], false) == [] && EndState([MARKER_BEGIN], false);
    assert Outside([MARKER_END], true) == [] && !EndState([MARKER_END], true);
  }

  lemma BlockMarkers(body: seq<string>)
    requires ValidBody(body)
    ensures Markers(Block(body)) == [true, false]
  {
    BeginLine();
    EndLine();
    assert MARKER_BEGIN[2] == '>' && MARKER_END[2] == '<';
    MarkerFreeIsKept(body, true);
    MarkersConcat([MARKER_BEGIN] + body, [MARKER_END]);
    MarkersConcat([MARKER_BEGIN], body);
    assert Markers([MARKER_BEGIN]) == [true] && Markers([MARKER_END]) == [false];
  }

  // ----- What trimming does to marker lines -----

  lemma {:induction false} TrimAppendSpace(line: string, c: char)
    requires IsSpace(c)
    ensures Trim(line + [c]) == Trim(line)
  {
    if line == "" {
      assert line + [c] == [c];
      assert TrimStart([c]) == TrimStart("");
    } else if IsSpace(line[0]) {
      assert (line + [c])[1..] == line[1..] + [c];
      TrimAppendSpace(line[1..], c);
    } else {
      TrimEndAppend(line, [c]);
    }
  }

  lemma DropSpaceKeepsMarkerFree(s: string, c: char)
    requires IsSpace(c) && MarkerFree(Lines(s + [c]))
    ensures MarkerFree(Lines(s))
  {
    var r := Lines(s);
    if c == '\n' {
      LinesConcat(s, "");
      assert s + "\n" + "" == s + [c];
      assert forall i | 0 <= i < |r| :: Lines(s + [c])[i] == r[i];
    } else {
      LinesAppend(s, c);
      TrimAppendSpace(r[|r| - 1], c);
      forall i | 0 <= i < |r|
        ensures !IsMarker(r[i])
      {
        assert !IsMarker(Lines(s + [c])[i]);
      }
    }
  }

  lemma {:induction false} TrimEndKeepsMarkerFree(s: string)
    requires MarkerFree(Lines(s))
    ensures MarkerFree(Lines(TrimEnd(s)))
  {
    if s != "" && IsSpace(s[|s| - 1]) {
      assert s == s[..|s| - 1] + [s[|s| - 1]];
      DropSpaceKeepsMarkerFree(s[..|s| - 1], s[|s| - 1]);
      TrimEndKeepsMarkerFree(s[..|s| - 1]);
    }
  }

  lemma {:induction false} TrimEndTwice(s: string)
    ensures TrimEnd(TrimEnd(s)) == TrimEnd(s)
  {
    if s != "" && IsSpace(s[|s| - 1]) {
      TrimEndTwice(s[..|s| - 1]);
    }
  }

  lemma {:induction false} OutsideIsLineFree(lines: seq<string>, inBlock: bool)
    requires forall i | 0 <= i < |lines| :: LineFree(lines[i])
    ensures forall i | 0 <= i < |Outside(lines, inBlock)| :: LineFree(Outside(lines, inBlock)[i])
  {
    if lines != [] {
      OutsideIsLineFree(lines[1..], Next(inBlock, lines[0]));
    }
  }

  /** What is kept of any hook text, however its markers are arranged, holds no marker and no trailing white space. */
  lemma BaseIsClean(existing: string)
    ensures MarkerFree(Lines(Base(existing))) && TrimEnd(Base(existing)) == Base(existing)
  {
    var kept := Outside(Lines(existing), false);
    OutsideIsMarkerFree(Lines(existing), false);
    LinesAreLineFree(existing);
    OutsideIsLineFree(Lines(existing), false);
    if kept == [] {
      OtherLines();
    } else {
      LinesUnlines(kept);
    }
    TrimEndKeepsMarkerFree(Unlines(kept));
    TrimEndTwice(Unlines(kept));
  }

  // ----- Reading back what an install wrote -----

  /** What an install puts in front of its block, up to the newline before it. */
  function Front(base: string): string {
    if base != "" then base + "\n" else SHEBANG
  }

  lemma ComposedText(base: string, body: seq<string>)
    ensures Compose(base, body) == Front(base) + "\n" + (Unlines(Block(body)) + "\n")
  {
    var block := Unlines(Block(body));
    if base != "" {
      assert base + "\n\n" + block + "\n" == (base + "\n") + "\n" + (block + "\n");
    } else {
      assert SHEBANG + "\n" + block + "\n" == SHEBANG + "\n" + (block + "\n");
    }
  }

  lemma {:induction false} FrontLines(base: string)
    requires MarkerFree(Lines(base))
    ensures MarkerFree(Lines(Front(base)))
  {
    OtherLines();
    if base != "" {
      LinesConcat(base, "");
      assert base + "\n" + "" == base + "\n";
    } else {
      OneLine(SHEBANG);
    }
  }

  /** The lines of an installed hook. */
  lemma ComposedLines(base: string, body: seq<string>)
    requires ValidBody(body)
    ensures Lines(Compose(base, body)) == Lines(Front(base)) + (Block(body) + [""])
  {
    var block := Unlines(Block(body));
    ComposedText(base, body);
    BlockIsOneBlock(body);
    LinesUnlines(Block(body));
    LinesConcat(block, "");
    assert block + "\n" + "" == block + "\n";
    LinesConcat(Front(base), block + "\n");
  }

  lemma BlockAndBlank(body: seq<string>)
    requires ValidBody(body)
    ensures Outside(Block(body) + [""], false) == [""] && Markers(Block(body) + [""]) == [true, false]
  {
    OtherLines();
    BlockIsOneBlock(body);
    BlockMarkers(body);
    MarkerFreeIsKept([""], false);
    OutsideConcat(Block(body), [""], false);
    MarkersConcat(Block(body), [""]);
  }

  /** Stripping an installed hook leaves the text in front of the block and its newline. */
  lemma ComposedOutside(base: string, body: seq<string>)
    requires ValidBody(body) && MarkerFree(Lines(base))
    ensures Unlines(Outside(Lines(Compose(base, body)), false)) == Front(base) + "\n"
    ensures Markers(Lines(Compose(base, body))) == [true, false]
  {
    var front := Lines(Front(base));
    ComposedLines(base, body);
    BlockAndBlank(body);
    FrontLines(base);
    MarkerFreeIsKept(front, false);
    OutsideConcat(front, Block(body) + [""], false);
    MarkersConcat(front, Block(body) + [""]);
    UnlinesConcat(front, [""]);
    UnlinesLines(Front(base));
  }

  /** The newlines an install has added are trimmed off again. */
  lemma FrontTrims(base: string)
    requires TrimEnd(base) == base
    ensures TrimEnd(Front(base) + "\n") == if base != "" then base else SHEBANG
    ensures Trim(Front(base) + "\n") == if base != "" then Trim(base) else SHEBANG
  {
    assert AllSpace("\n") && AllSpace("\n\n");
    if base != "" {
      assert base + "\n" + "\n" == base + "\n\n";
      TrimEndAppend(base, "\n\n");
      TrimAppend(base, "\n\n");
    } else {
      TrimEndAppend(SHEBANG, "\n");
      TrimAppend(SHEBANG, "\n");
      TrimmedIsFixed(SHEBANG);
    }
  }

  /** After any install over any hook text, well bracketed or not, there is exactly one block: one begin marker line,
      and then one end marker line. */
  lemma ExactlyOneBlock(hook: Option<string>, body: seq<string>)
    requires ValidBody(body)
    ensures Markers(Lines(Installed(hook, body))) == [true, false]
  {
    OtherLines();
    if hook.Some? {
      BaseIsClean(hook.value);
      ComposedOutside(Base(hook.value), body);
    } else {
      ComposedOutside("", body);
    }
  }

  /** The user's part of an installed hook. */
  function UserPart(hook: Option<string>): string {
    if hook.Some? && Base(hook.value) != "" then Base(hook.value) else SHEBANG
  }

  /** What the hook already holds, or nothing. */
  function OldBase(hook: Option<string>): string {
    if hook.Some? then Base(hook.value) else ""
  }

  lemma OldBaseIsClean(hook: Option<string>)
    ensures MarkerFree(Lines(OldBase(hook))) && TrimEnd(OldBase(hook)) == OldBase(hook)
  {
    if hook.Some? {
      BaseIsClean(hook.value);
    } else {
      OtherLines();
    }
  }

  lemma InstalledBase(hook: Option<string>, body: seq<string>)
    requires ValidBody(body)
    ensures Base(Installed(hook, body)) == UserPart(hook) && UserPart(hook) != ""
  {
    OldBaseIsClean(hook);
    ComposedOutside(OldBase(hook), body);
    FrontTrims(OldBase(hook));
  }

  /** Installing over an install replaces the block and keeps the user's part. */
  lemma Reinstall(hook: Option<string>, body: seq<string>, newBody: seq<string>)
    requires ValidBody(body) && ValidBody(newBody)
    ensures Installed(Some(Installed(hook, body)), newBody) == Compose(UserPart(hook), newBody)
  {
    InstalledBase(hook, body);
  }

  /** A second install changes the text exactly when the first one found nothing to keep (it then gains a blank line
      after the shebang); a third never does. */
  lemma InstallSettles(hook: Option<string>, body: seq<string>)
    requires ValidBody(body)
    ensures var once := Installed(hook, body);
            var twice := Installed(Some(once), body);
            && (twice == once <==> hook.Some? && Base(hook.value) != "")
            && Installed(Some(twice), body) == twice
  {
    var once := Installed(hook, body);
    var twice := Installed(Some(once), body);
    Reinstall(hook, body, body);
    Reinstall(Some(once), body, body);
    InstalledBase(hook, body);
    if hook.None? || Base(hook.value) == "" {
      assert |once| < |twice|;
    }
  }

  // ----- Uninstalling -----

  lemma {:induction false} TrimStartOfTrimEnd(s: string)
    ensures TrimEnd(TrimStart(TrimEnd(s))) == Trim(s)
  {
    if s != "" && IsSpace(s[|s| - 1]) {
      assert s == s[..|s| - 1] + [s[|s| - 1]];
      TrimStartOfTrimEnd(s[..|s| - 1]);
      TrimAppendSpace(s[..|s| - 1], s[|s| - 1]);
    }
  }

  lemma TrimAppend(s: string, space: string)
    requires AllSpace(space)
    ensures Trim(s + space) == Trim(s)
    decreases |space|
  {
    if space == "" {
      assert s + space == s;
    } else {
      var front := space[..|space| - 1];
      assert s + space == (s + front) + [space[|space| - 1]];
      TrimAppendSpace(s + front, space[|space| - 1]);
      TrimAppend(s, front);
    }
  }

  lemma {:induction false} MarkersFindBegin(lines: seq<string>)
    ensures true in Markers(lines) ==> HasBlock(lines)
  {
    if lines != [] && true in Markers(lines) && !IsBegin(lines[0]) {
      MarkersFindBegin(lines[1..]);
      var i :| 0 <= i < |lines| - 1 && OpensBlock(lines[1..][i]);
      assert OpensBlock(lines[i + 1]);
    } else if lines != [] {
      MarkersAre(lines[0]);
    }
  }

  /** The round trip: uninstalling after an install over text without marker lines gives back the trimmed text and a
      newline, or deletes the hook when there was nothing beyond white space or the shebang. */
  method InstallThenUninstall(text: string, body: seq<string>) returns (r: Uninstalled)
    requires ValidBody(body) && MarkerFree(Lines(text))
    ensures r == if Trim(text) == "" || Trim(text) == "#!/bin/sh" then Deleted else Rewritten(Trim(text) + "\n")
  {
    var content := Install(Some(text), body);
    r := Uninstall(Some(content));
    var base := Base(text);
    OutsideExactly(Lines(content));
    hide UserLines;
    MarkerFreeIsKept(Lines(text), false);
    UnlinesLines(text);
    BaseIsClean(text);
    ComposedOutside(base, body);
    ExactlyOneBlock(Some(text), body);
    MarkersFindBegin(Lines(content));
    TrimStartOfTrimEnd(text);
    FrontTrims(base);
  }

  /** What the scan cannot do: behind a begin marker that is never closed everything is dropped, the user's lines
      included. */
  lemma {:induction false} UnclosedBlockSwallows(front: seq<string>, begin: string, rest: seq<string>)
    requires MarkerFree(front) && IsBegin(begin) && forall i | 0 <= i < |rest| :: !IsEnd(rest[i])
    ensures Outside(front + [begin] + rest, false) == front
  {
    OutsideConcat(front + [begin], rest, false);
    OutsideConcat(front, [begin], false);
    MarkerFreeIsKept(front, false);
    assert Outside([begin], false) == [] && EndState([begin], false);
    InsideDropsAll(rest);
  }

  lemma {:induction false} InsideDropsAll(lines: seq<string>)
    requires forall i | 0 <= i < |lines| :: !IsEnd(lines[i])
    ensures Outside(lines, true) == []
  {
    if lines != [] {
      InsideDropsAll(lines[1..]);
    }
  }
}
