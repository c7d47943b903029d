/** Exactly which lines of a form file are which: the patterns of the extractor, said as the shapes they describe. */
module DfmLines {
  import opened Common
  import opened Text
  import opened DfmForm

  // ----- Words -----

  ghost predicate WordLetter(c: char) {
    c in DIGITS || c in UPPER || c in LOWER || c == '_'
  }

  ghost predicate Word(w: string) {
    w != "" && forall i | 0 <= i < |w| :: WordLetter(w[i])
  }

  lemma WordLetters(c: char)
    ensures IsWordChar(c) <==> WordLetter(c)
  {
    hide DIGITS, UPPER, LOWER;
    DigitIs(c);
    UpperIs(c);
    LowerIs(c);
  }

  lemma WordIs(w: string)
    ensures Word(w) <==> w != "" && forall i | 0 <= i < |w| :: IsWordChar(w[i])
  {
    hide WordLetter, IsWordChar;
    if w != "" && forall i | 0 <= i < |w| :: IsWordChar(w[i]) {
      forall i | 0 <= i < |w| ensures WordLetter(w[i]) {
        WordLetters(w[i]);
      }
    }
    if Word(w) {
      forall i | 0 <= i < |w| ensures IsWordChar(w[i]) {
        WordLetters(w[i]);
      }
    }
  }

  /** The text goes on with something that is no part of a word. */
  ghost predicate WordEnds(rest: string) {
    rest == "" || !WordLetter(rest[0])
  }

  lemma {:induction false} WordRunOf(w: string, rest: string)
    requires forall i | 0 <= i < |w| :: IsWordChar(w[i])
    requires rest == "" || !IsWordChar(rest[0])
    ensures WordRun(w + rest) == |w|
  {
    if w == "" {
      assert w + rest == rest;
    } else {
      assert (w + rest)[1..] == w[1..] + rest;
      WordRunOf(w[1..], rest);
    }
  }

  lemma {:induction false} WordRunIs(s: string)
    ensures forall i | 0 <= i < WordRun(s) :: IsWordChar(s[i])
    ensures WordRun(s) < |s| ==> !IsWordChar(s[WordRun(s)])
  {
    if s != "" && IsWordChar(s[0]) {
      WordRunIs(s[1..]);
      assert forall i | 1 <= i < |s| :: s[i] == s[1..][i - 1];
    }
  }

  /** A word and what follows it. */
  lemma TakesWord(w: string, rest: string)
    requires Word(w) && WordEnds(rest)
    ensures WordRun(w + rest) == |w| > 0 && (w + rest)[..|w|] == w && (w + rest)[|w|..] == rest
  {
    hide WordLetter, IsWordChar;
    WordIs(w);
    if rest != "" {
      WordLetters(rest[0]);
    }
    WordRunOf(w, rest);
  }

  lemma WordTaken(s: string)
    requires WordRun(s) > 0
    ensures Word(s[..WordRun(s)]) && WordEnds(s[WordRun(s)..]) && s == s[..WordRun(s)] + s[WordRun(s)..]
  {
    hide WordLetter, IsWordChar;
    var n := WordRun(s);
    WordRunIs(s);
    WordIs(s[..n]);
    if n < |s| {
      WordLetters(s[n]);
    }
  }

  // ----- White space -----

  /** Dropping the white space before a text that has none at its start. */
  lemma DropsSpace(space: string, s: string)
    requires AllSpace(space) && s != "" && !IsSpace(s[0])
    ensures TrimStart(space + s) == s
  {
    TrimStartPrepend(space, s);
  }

  lemma SpaceDropped(s: string) returns (space: string)
    ensures AllSpace(space) && s == space + TrimStart(s)
    ensures TrimStart(s) != "" ==> !IsSpace(TrimStart(s)[0])
    ensures s != "" && IsSpace(s[0]) ==> space != ""
  {
    TrimStartSplits(s);
    var k: nat :| StartSplit(s, k);
    space := s[..k];
  }

  lemma SpaceCut(s: string) returns (space: string)
    ensures AllSpace(space) && s == TrimEnd(s) + space
  {
    TrimEndSplits(s);
    var k: nat :| EndSplit(s, k);
    space := s[k..];
  }

  lemma NoSpaces(c: char)
    ensures c in "=:()<>_" || c in DIGITS || c in UPPER || c in LOWER ==> !IsSpace(c)
  {
    hide DIGITS, UPPER, LOWER;
    DigitIs(c);
    UpperIs(c);
    LowerIs(c);
  }

  lemma WordIsNoSpace(w: string)
    requires Word(w)
    ensures !IsSpace(w[0])
  {
    NoSpaces(w[0]);
  }

  lemma SpaceEndsWord(space: string, c: char, rest: string)
    requires AllSpace(space) && c in "=:"
    ensures WordEnds(space + ([c] + rest))
  {
    var s := space + ([c] + rest);
    NoSpaces(s[0]);
    NotLetters();
  }

  lemma NotLetters()
    ensures !WordLetter('=') && !WordLetter(':')
  {
    hide WordLetter;
    WordLetters('=');
    WordLetters(':');
  }

  // ----- Declarations -----

  /** White space, `:`, white space, a type, and anything that does not go on with it. */
  ghost predicate TypePart(s: string, typeName: string) {
    exists before, after, rest :: TypeParts(s, before, after, typeName, rest)
  }

  ghost predicate TypeParts(s: string, before: string, after: string, typeName: string, rest: string) {
    AllSpace(before) && AllSpace(after) && Word(typeName) && WordEnds(rest)
    && s == before + (":" + (after + (typeName + rest)))
  }

  ghost predicate Keyword(s: string) {
    s == "object" || s == "inherited" || s == "inline"
  }

  /** A component's line: `object`, `inherited` or `inline`, a name, a colon and a type. */
  ghost predicate ObjectShape(line: string, name: string, typeName: string) {
    exists pad, keyword, gap, rest :: ObjectParts(line, pad, keyword, gap, name, rest) && TypePart(rest, typeName)
  }

  ghost predicate ObjectParts(line: string, pad: string, keyword: string, gap: string, name: string, rest: string) {
    && AllSpace(pad) && Keyword(keyword)
    && gap != "" && AllSpace(gap) && Word(name)
    && line == pad + (keyword + (gap + (name + rest)))
  }

  /** The type behind a name, as the pattern takes it. */
  function TypeOf(s: string): Option<string> {
    var t := TrimStart(s);
    if t == "" || t[0] != ':' then None
    else
      var u := TrimStart(t[1..]);
      var m := WordRun(u);
      if m == 0 then None else Some(u[..m])
  }

  lemma TypeTaken(s: string, typeName: string)
    requires TypeOf(s) == Some(typeName)
    ensures TypePart(s, typeName)
  {
    hide WordRun, Word, IsSpace, WordEnds;
    var t := TrimStart(s);
    var u := TrimStart(t[1..]);
    var before := SpaceDropped(s);
    var after := SpaceDropped(t[1..]);
    WordTaken(u);
    assert t == ":" + t[1..];
    assert TypeParts(s, before, after, typeName, u[WordRun(u)..]);
  }

  lemma TakesType(s: string, before: string, after: string, typeName: string, rest: string)
    requires TypeParts(s, before, after, typeName, rest)
    ensures TypeOf(s) == Some(typeName)
  {
    var u := typeName + rest;
    var t := ":" + (after + u);
    NoSpaces(':');
    DropsSpace(before, t);
    assert t[1..] == after + u;
    WordIsNoSpace(typeName);
    DropsSpace(after, u);
    TakesWord(typeName, rest);
  }

  lemma TypeOfExactly(s: string, typeName: string)
    ensures TypeOf(s) == Some(typeName) <==> TypePart(s, typeName)
  {
    hide TypeOf, TypeParts;
    if TypeOf(s) == Some(typeName) {
      TypeTaken(s, typeName);
    }
    if TypePart(s, typeName) {
      var before, after, rest :| TypeParts(s, before, after, typeName, rest);
      TakesType(s, before, after, typeName, rest);
    }
  }

  lemma TypePartEndsWord(s: string, typeName: string)
    requires TypePart(s, typeName)
    ensures WordEnds(s)
  {
    var before, after, rest :| TypeParts(s, before, after, typeName, rest);
    SpaceEndsWord(before, ':', after + (typeName + rest));
  }

  lemma DeclarationIs(rest: string)
    ensures Declaration(rest) ==
            if rest == "" || !IsSpace(rest[0]) then None
            else
              var s := TrimStart(rest);
              var n := WordRun(s);
              if n == 0 || TypeOf(s[n..]).None? then None else Some((s[..n], TypeOf(s[n..]).value))
  {
  }

  ghost predicate DeclarationParts(s: string, gap: string, name: string, rest: string) {
    gap != "" && AllSpace(gap) && Word(name) && s == gap + (name + rest)
  }

  lemma DeclarationTaken(s: string, name: string, typeName: string) returns (gap: string, rest: string)
    requires Declaration(s) == Some((name, typeName))
    ensures DeclarationParts(s, gap, name, rest) && TypePart(rest, typeName)
  {
    DeclarationIs(s);
    hide Declaration, TypeOf, TypePart;
    var t := TrimStart(s);
    gap := SpaceDropped(s);
    WordTaken(t);
    rest := t[WordRun(t)..];
    TypeOfExactly(rest, typeName);
  }

  lemma TakesDeclaration(s: string, gap: string, name: string, rest: string, typeName: string)
    requires DeclarationParts(s, gap, name, rest) && TypePart(rest, typeName)
    ensures Declaration(s) == Some((name, typeName))
  {
    DeclarationIs(s);
    TypeOfExactly(rest, typeName);
    TypePartEndsWord(rest, typeName);
    hide Declaration, TypeOf, TypePart;
    WordIsNoSpace(name);
    assert s[0] == gap[0];
    DropsSpace(gap, name + rest);
    TakesWord(name, rest);
  }

  lemma KeywordsAre(keyword: string, rest: string)
    requires Keyword(keyword)
    ensures ObjectLine(keyword + rest) == Declaration(rest) && !IsSpace(keyword[0])
  {
    var s := keyword + rest;
    hide Declaration;
    assert s[|keyword|..] == rest && s[..|keyword|] == keyword;
    assert s[0] == keyword[0] && s[2] == keyword[2];
    assert TrimStart(s) == s;
  }

  lemma PadMakesNoDifference(pad: string, s: string)
    requires AllSpace(pad)
    ensures ObjectLine(pad + s) == ObjectLine(s) && EventLine(pad + s) == EventLine(s)
  {
    TrimStartPrepend(pad, s);
  }

  lemma KeywordTaken(s: string) returns (keyword: string, rest: string)
    requires ObjectLine(s).Some? && TrimStart(s) == s
    ensures Keyword(keyword)
    ensures s == keyword + rest && ObjectLine(s) == Declaration(rest)
  {
    hide Declaration;
    keyword := if KEYWORDS[0] <= s then KEYWORDS[0] else if KEYWORDS[1] <= s then KEYWORDS[1] else KEYWORDS[2];
    rest := s[|keyword|..];
  }

  /** Exactly the component lines, and what is read from them. */
  lemma ObjectLineExactly(line: string, name: string, typeName: string)
    ensures ObjectLine(line) == Some((name, typeName)) <==> ObjectShape(line, name, typeName)
  {
    hide ObjectLine, Declaration, TypePart;
    if ObjectLine(line) == Some((name, typeName)) {
      var pad := SpaceDropped(line);
      var s := TrimStart(line);
      PadMakesNoDifference(pad, s);
      TrimStartTwice(line);
      var keyword, rest := KeywordTaken(s);
      var gap, tail := DeclarationTaken(rest, name, typeName);
      assert ObjectParts(line, pad, keyword, gap, name, tail);
    }
    if ObjectShape(line, name, typeName) {
      var pad, keyword, gap, rest :| ObjectParts(line, pad, keyword, gap, name, rest) && TypePart(rest, typeName);
      PadMakesNoDifference(pad, keyword + (gap + (name + rest)));
      KeywordsAre(keyword, gap + (name + rest));
      TakesDeclaration(gap + (name + rest), gap, name, rest, typeName);
    }
  }

  lemma {:induction false} TrimStartTwice(s: string)
    ensures TrimStart(TrimStart(s)) == TrimStart(s)
  {
    if s != "" && IsSpace(s[0]) {
      TrimStartTwice(s[1..]);
    }
  }

  // ----- Events -----

  /** An event's line: a word that goes on after `On`, an equals sign and the handler. */
  ghost predicate EventShape(line: string, handler: string) {
    exists pad, event, before, after, tail :: EventParts(line, pad, event, before, after, handler, tail)
  }

  ghost predicate EventParts(line: string, pad: string, event: string, before: string, after: string, handler: string, tail: string) {
    && AllSpace(pad) && Word(event) && |event| >= 3 && event[..2] == "On"
    && AllSpace(before) && AllSpace(after) && Word(handler) && AllSpace(tail)
    && line == pad + (event + (before + ("=" + (after + (handler + tail)))))
  }

  lemma {:induction false} AllSpaceIs(s: string)
    ensures TrimStart(s) == "" <==> AllSpace(s)
  {
    if s != "" {
      AllSpaceIs(s[1..]);
      assert forall i | 1 <= i < |s| :: s[i] == s[1..][i - 1];
      if TrimStart(s) == "" {
        assert IsSpace(s[0]);
      }
    }
  }

  lemma SpaceIsNoLetter(tail: string)
    requires AllSpace(tail)
    ensures WordEnds(tail)
  {
    if tail != "" {
      NoSpaces(tail[0]);
    }
  }

  lemma HandlerTaken(s: string, handler: string) returns (before: string, after: string, tail: string)
    requires Handler(s) == Some(handler)
    ensures AllSpace(before) && AllSpace(after) && Word(handler) && AllSpace(tail)
    ensures s == before + ("=" + (after + (handler + tail)))
  {
    var t := TrimStart(s);
    var u := TrimStart(t[1..]);
    before := SpaceDropped(s);
    after := SpaceDropped(t[1..]);
    WordTaken(u);
    tail := u[WordRun(u)..];
    AllSpaceIs(tail);
    assert t == "=" + t[1..];
  }

  lemma TakesHandler(before: string, after: string, handler: string, tail: string)
    requires AllSpace(before) && AllSpace(after) && Word(handler) && AllSpace(tail)
    ensures Handler(before + ("=" + (after + (handler + tail)))) == Some(handler)
  {
    var u := handler + tail;
    var t := "=" + (after + u);
    NoSpaces('=');
    DropsSpace(before, t);
    assert t[1..] == after + u;
    WordIsNoSpace(handler);
    DropsSpace(after, u);
    SpaceIsNoLetter(tail);
    TakesWord(handler, tail);
    AllSpaceIs(tail);
  }

  /** Exactly the event lines. */
  lemma EventLineExactly(line: string, handler: string)
    ensures EventLine(line) == Some(handler) <==> EventShape(line, handler)
  {
    hide Handler, Word, IsSpace;
    if EventLine(line) == Some(handler) {
      var pad := SpaceDropped(line);
      var s := TrimStart(line);
      WordTaken(s);
      var event := s[..WordRun(s)];
      var before, after, tail := HandlerTaken(s[WordRun(s)..], handler);
      assert event[..2] == "On";
      assert EventParts(line, pad, event, before, after, handler, tail);
    }
    if EventShape(line, handler) {
      var pad, event, before, after, tail :| EventParts(line, pad, event, before, after, handler, tail);
      var rest := before + ("=" + (after + (handler + tail)));
      PadMakesNoDifference(pad, event + rest);
      EventTaken(event, rest, before, after, handler, tail);
    }
  }

  lemma EventTaken(event: string, rest: string, before: string, after: string, handler: string, tail: string)
    requires Word(event) && |event| >= 3 && event[..2] == "On" && rest == before + ("=" + (after + (handler + tail)))
    requires AllSpace(before) && AllSpace(after) && Word(handler) && AllSpace(tail)
    ensures EventLine(event + rest) == Some(handler)
  {
    hide Handler, AllSpace;
    WordIsNoSpace(event);
    SpaceEndsWord(before, '=', after + (handler + tail));
    TakesWord(event, rest);
    TakesHandler(before, after, handler, tail);
    hide Word, IsSpace;
    assert event[0] == event[..2][0] == 'O' && event[1] == event[..2][1] == 'n';
    assert (event + rest)[0] == event[0] && (event + rest)[1] == event[1];
    assert TrimStart(event + rest) == event + rest;
  }

  // ----- The other lines -----

  ghost predicate OpenerShape(line: string, open: char) {
    exists head, gap, tail :: OpenerParts(line, head, gap, open, tail)
  }

  ghost predicate OpenerParts(line: string, head: string, gap: string, open: char, tail: string) {
    AllSpace(gap) && AllSpace(tail) && line == head + "=" + gap + [open] + tail
  }

  lemma EndsIn(s: string, c: char, tail: string)
    requires AllSpace(tail) && !IsSpace(c)
    ensures TrimEnd(s + [c] + tail) == s + [c]
  {
    TrimEndAppend(s + [c], tail);
  }

  /** Exactly the lines that open a skipped property: an equals sign and the bracket at the end, white space aside. */
  lemma OpenerExactly(line: string, open: char)
    requires open == '(' || open == '<'
    ensures OpensMultiLine(line, open) <==> OpenerShape(line, open)
  {
    NoSpaces(open);
    NoSpaces('=');
    if OpensMultiLine(line, open) {
      var tail := SpaceCut(line);
      var t := TrimEnd(line);
      var gap := SpaceCut(t[..|t| - 1]);
      var u := TrimEnd(t[..|t| - 1]);
      assert t == t[..|t| - 1] + [open] && u == u[..|u| - 1] + "=";
      assert OpenerParts(line, u[..|u| - 1], gap, open, tail);
    }
    if OpenerShape(line, open) {
      var head, gap, tail :| OpenerParts(line, head, gap, open, tail);
      EndsIn(head + "=" + gap, open, tail);
      assert (head + "=" + gap + [open])[..|head + "=" + gap|] == head + "=" + gap;
      EndsIn(head, '=', gap);
    }
  }

  ghost predicate CloserShape(line: string, close: char) {
    exists head, tail :: AllSpace(tail) && line == head + [close] + tail
  }

  /** Exactly the lines that end one. */
  lemma CloserExactly(line: string, close: char)
    requires close == ')' || close == '>'
    ensures ClosesMultiLine(line, close) <==> CloserShape(line, close)
  {
    NoSpaces(close);
    if ClosesMultiLine(line, close) {
      var tail := SpaceCut(line);
      var t := TrimEnd(line);
      assert line == t[..|t| - 1] + [close] + tail;
    }
    if CloserShape(line, close) {
      var head, tail :| AllSpace(tail) && line == head + [close] + tail;
      EndsIn(head, close, tail);
    }
  }

  ghost predicate EndShape(line: string) {
    exists before, after :: AllSpace(before) && AllSpace(after) && line == before + ("end" + after)
  }

  /** Exactly the `end` lines. */
  lemma EndLineExactly(line: string)
    ensures EndLine(line) <==> EndShape(line)
  {
    assert Trimmed("end");
    if EndLine(line) {
      var before, after := TrimCuts(line);
      assert CutAs(line, before, "end", after);
    }
    if EndShape(line) {
      var before, after :| AllSpace(before) && AllSpace(after) && line == before + ("end" + after);
      CoreIsTrim(line, before, "end", after);
    }
  }
}
