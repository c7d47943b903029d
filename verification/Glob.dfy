/** The glob-to-regex translation of the CLI: five successive global replacements over the whole text. */
module Glob {

  const SPECIAL: string := ".+^${}()|[]\\"
  const GLOBSTAR: string := "{{GLOBSTAR}}"

  /** `.replace(/[.+^${}()|[\]\\]/g, '\\$&')` */
  function Escape(s: string): string {
    if s == "" then ""
    else (if s[0] in SPECIAL then ['\\', s[0]] else [s[0]]) + Escape(s[1..])
  }

  /** A global replacement of a literal text: leftmost occurrences first, never looking into what it has put in. */
  function ReplaceAll(s: string, what: string, put: string): string
    requires what != ""
    decreases |s|
  {
    if |s| < |what| then s
    else if what <= s then put + ReplaceAll(s[|what|..], what, put)
    else [s[0]] + ReplaceAll(s[1..], what, put)
  }

  function GlobToRegex(pattern: string): string {
    var s1 := Escape(pattern);
    var s2 := ReplaceAll(s1, "**", GLOBSTAR);
    var s3 := ReplaceAll(s2, "*", "[^/]*");
    var s4 := ReplaceAll(s3, "?", "[^/]");
    ReplaceAll(s4, GLOBSTAR, ".*")
  }

  // ----- The same translation as one left-to-right pass over tokens -----

  datatype Token = AnyPath | AnyName | AnyChar | Literal(c: char)

  function Tokens(pattern: string): seq<Token>
    decreases |pattern|
  {
    if pattern == "" then []
    else if "**" <= pattern then [AnyPath] + Tokens(pattern[2..])
    else if pattern[0] == '*' then [AnyName] + Tokens(pattern[1..])
    else if pattern[0] == '?' then [AnyChar] + Tokens(pattern[1..])
    else [Literal(pattern[0])] + Tokens(pattern[1..])
  }

  /** The text a token has become after stage `n` of the pipeline; stage 5 is the regex. */
  function Stage(t: Token, n: nat): string {
    match t
    case AnyPath => if n <= 1 then "**" else if n <= 4 then GLOBSTAR else ".*"
    case AnyName => if n <= 2 then "*" else "[^/]*"
    case AnyChar => if n <= 3 then "?" else "[^/]"
    case Literal(c) => if c in ".+^${}()|[]\\" then ['\\', c] else [c]
  }

  function Write(ts: seq<Token>, n: nat): string {
    if ts == [] then "" else Stage(ts[0], n) + Write(ts[1..], n)
  }

  /** What tokenising yields: literals are never `*` or `?`, and a single star is not followed by a star. */
  ghost predicate Clean(ts: seq<Token>) {
    && (forall i | 0 <= i < |ts| && ts[i].Literal? :: ts[i].c != '*' && ts[i].c != '?')
    && (forall i | 0 <= i < |ts| - 1 && ts[i].AnyName? :: !ts[i + 1].AnyName? && !ts[i + 1].AnyPath?)
  }

  lemma {:induction false} TokensAreClean(pattern: string)
    ensures Clean(Tokens(pattern))
    decreases |pattern|
  {
    if pattern == "" {
    } else if "**" <= pattern {
      TokensAreClean(pattern[2..]);
    } else {
      TokensAreClean(pattern[1..]);
      if pattern[0] == '*' && |pattern| > 1 {
        assert pattern[..2] == ['*', pattern[1]];
        assert pattern[1] != '*';
      }
    }
  }

  lemma EscapeStars(pattern: string)
    requires "**" <= pattern
    ensures Escape(pattern) == "**" + Escape(pattern[2..])
  {
    assert pattern[0] == '*' && pattern[1] == '*';
    assert pattern[1..][0] == '*' && pattern[1..][1..] == pattern[2..];
  }

  /** Stage 1: escaping the pattern is writing its tokens with escaped literals. */
  lemma {:induction false} EscapeWrites(pattern: string)
    ensures Escape(pattern) == Write(Tokens(pattern), 1)
    decreases |pattern|
  {
    if pattern == "" {
    } else if "**" <= pattern {
      EscapeWrites(pattern[2..]);
      EscapeStars(pattern);
    } else {
      EscapeWrites(pattern[1..]);
      assert Tokens(pattern)[1..] == Tokens(pattern[1..]);
    }
  }

  lemma NoMatchAt(s: string, what: string, i: nat)
    requires i < |what| && (i >= |s| || s[i] != what[i])
    ensures !(what <= s)
  {
  }

  /** Where the searched text does not start, the first character is passed over. */
  lemma PassOver(s: string, what: string, put: string)
    requires what != "" && s != "" && !(what <= s)
    ensures ReplaceAll(s, what, put) == [s[0]] + ReplaceAll(s[1..], what, put)
  {
    assert s == [s[0]] + s[1..];
  }

  /** A text none of whose characters can start the searched text is passed over as a whole. */
  lemma {:induction false} PassOverAll(text: string, rest: string, what: string, put: string)
    requires what != "" && forall i | 0 <= i < |text| :: text[i] != what[0]
    ensures ReplaceAll(text + rest, what, put) == text + ReplaceAll(rest, what, put)
  {
    hide ReplaceAll;
    if text == "" {
      assert text + rest == rest;
    } else {
      NoMatchAt(text + rest, what, 0);
      PassOver(text + rest, what, put);
      assert (text + rest)[1..] == text[1..] + rest;
      PassOverAll(text[1..], rest, what, put);
    }
  }

  lemma ReplaceHere(rest: string, what: string, put: string)
    requires what != ""
    ensures ReplaceAll(what + rest, what, put) == put + ReplaceAll(rest, what, put)
  {
    assert (what + rest)[|what|..] == rest;
  }

  lemma CleanTail(ts: seq<Token>)
    requires Clean(ts) && ts != []
    ensures Clean(ts[1..])
  {
  }

  /** Stage 2 turns the double stars into placeholders and nothing else. */
  lemma {:induction false} StarStarStage(ts: seq<Token>)
    requires Clean(ts)
    ensures ReplaceAll(Write(ts, 1), "**", GLOBSTAR) == Write(ts, 2)
  {
    if ts != [] {
      hide ReplaceAll;
      CleanTail(ts);
      StarStarStage(ts[1..]);
      var rest := Write(ts[1..], 1);
      match ts[0] {
        case AnyPath => ReplaceHere(rest, "**", GLOBSTAR);
        case AnyName =>
          assert rest == "" || rest[0] != '*' by {
            if |ts| > 1 {
              assert !ts[1].AnyName? && !ts[1].AnyPath?;
            }
          }
          NoMatchAt("*" + rest, "**", 1);
          PassOver("*" + rest, "**", GLOBSTAR);
          assert ("*" + rest)[1..] == rest;
        case AnyChar => PassOverAll("?", rest, "**", GLOBSTAR);
        case Literal(c) => PassOverAll(Stage(ts[0], 1), rest, "**", GLOBSTAR);
      }
    }
  }

  lemma NoStarLeft(t: Token)
    requires !t.AnyName? && (t.Literal? ==> t.c != '*')
    ensures Stage(t, 2) == Stage(t, 3)
    ensures forall i | 0 <= i < |Stage(t, 2)| :: Stage(t, 2)[i] != '*'
  {
  }

  lemma NoQuestionLeft(t: Token)
    requires !t.AnyChar? && (t.Literal? ==> t.c != '?')
    ensures Stage(t, 3) == Stage(t, 4)
    ensures forall i | 0 <= i < |Stage(t, 3)| :: Stage(t, 3)[i] != '?'
  {
  }

  /** Stage 3 turns the single stars that are left into name wildcards. */
  lemma {:induction false} StarStage(ts: seq<Token>)
    requires Clean(ts)
    ensures ReplaceAll(Write(ts, 2), "*", "[^/]*") == Write(ts, 3)
  {
    if ts != [] {
      hide ReplaceAll;
      CleanTail(ts);
      StarStage(ts[1..]);
      var rest := Write(ts[1..], 2);
      match ts[0] {
        case AnyName => ReplaceHere(rest, "*", "[^/]*");
        case _ =>
          NoStarLeft(ts[0]);
          hide Stage, Clean;
          PassOverAll(Stage(ts[0], 2), rest, "*", "[^/]*");
      }
    }
  }

  /** Stage 4 turns the question marks into character wildcards; the name wildcards of stage 3 hold none. */
  lemma {:induction false} QuestionStage(ts: seq<Token>)
    requires Clean(ts)
    ensures ReplaceAll(Write(ts, 3), "?", "[^/]") == Write(ts, 4)
  {
    if ts != [] {
      hide ReplaceAll;
      CleanTail(ts);
      QuestionStage(ts[1..]);
      var rest := Write(ts[1..], 3);
      match ts[0] {
        case AnyChar => ReplaceHere(rest, "?", "[^/]");
        case _ =>
          NoQuestionLeft(ts[0]);
          hide Stage, Clean;
          PassOverAll(Stage(ts[0], 3), rest, "?", "[^/]");
      }
    }
  }

  /** A brace of the pattern, always escaped by now, never completes a placeholder: not with what follows it either,
      because a following placeholder brings two braces of its own. */
  lemma BraceIsNoPlaceholder(ts: seq<Token>)
    ensures !(GLOBSTAR <= "{" + Write(ts, 4))
  {
    var s := "{" + Write(ts, 4);
    if ts != [] && ts[0].AnyPath? {
      assert s[2] == '{' && GLOBSTAR[2] == 'G';
    } else if ts != [] {
      assert s[1] != '{' && GLOBSTAR[1] == '{';
    }
  }

  lemma PassOverBrace(ts: seq<Token>)
    ensures ReplaceAll("\\{" + Write(ts, 4), GLOBSTAR, ".*") == "\\{" + ReplaceAll(Write(ts, 4), GLOBSTAR, ".*")
  {
    hide ReplaceAll, Write;
    var rest := Write(ts, 4);
    assert "\\{" + rest == "\\" + ("{" + rest);
    PassOverAll("\\", "{" + rest, GLOBSTAR, ".*");
    BraceIsNoPlaceholder(ts);
    PassOver("{" + rest, GLOBSTAR, ".*");
    assert ("{" + rest)[1..] == rest;
  }

  /** Stage 5 turns exactly the placeholders of stage 2 into path wildcards. */
  lemma {:induction false} PlaceholderStage(ts: seq<Token>)
    requires Clean(ts)
    ensures ReplaceAll(Write(ts, 4), GLOBSTAR, ".*") == Write(ts, 5)
  {
    if ts != [] {
      hide ReplaceAll;
      CleanTail(ts);
      PlaceholderStage(ts[1..]);
      var rest := Write(ts[1..], 4);
      match ts[0] {
        case AnyPath => ReplaceHere(rest, GLOBSTAR, ".*");
        case AnyName => PassOverAll("[^/]*", rest, GLOBSTAR, ".*");
        case AnyChar => PassOverAll("[^/]", rest, GLOBSTAR, ".*");
        case Literal(c) =>
          if c == '{' {
            PassOverBrace(ts[1..]);
          } else {
            PassOverAll(Stage(ts[0], 4), rest, GLOBSTAR, ".*");
          }
      }
    }
  }

  /** The five replacements together are the single pass, for every pattern: also for one that contains braces, or the
      placeholder text itself. */
  lemma PipelineIsSinglePass(pattern: string)
    ensures GlobToRegex(pattern) == Write(Tokens(pattern), 5)
  {
    var ts := Tokens(pattern);
    TokensAreClean(pattern);
    EscapeWrites(pattern);
    StarStarStage(ts);
    StarStage(ts);
    QuestionStage(ts);
    PlaceholderStage(ts);
  }

  // ----- Nothing is lost -----

  /** Reads a regex produced by the translation back into tokens. */
  function Read(regex: string): seq<Token>
    decreases |regex|
  {
    if regex == "" then []
    else if ".*" <= regex then [AnyPath] + Read(regex[2..])
    else if "[^/]*" <= regex then [AnyName] + Read(regex[5..])
    else if "[^/]" <= regex then [AnyChar] + Read(regex[4..])
    else if regex[0] == '\\' && |regex| > 1 then [Literal(regex[1])] + Read(regex[2..])
    else [Literal(regex[0])] + Read(regex[1..])
  }

  /** One token's regex is read back as that token, whatever follows. */
  lemma ReadOne(t: Token, rest: string)
    requires t.Literal? ==> t.c != '*' && t.c != '?'
    requires t.AnyChar? && rest != "" ==> rest[0] != '*'
    ensures Read(Stage(t, 5) + rest) == [t] + Read(rest)
  {
    var text := Stage(t, 5);
    var all := text + rest;
    assert all[|text|..] == rest;
    match t {
      case AnyPath =>
      case AnyName => assert all[0] == '[';
      case AnyChar => assert all[0] == '[' && (|all| >= 5 ==> all[4] == rest[0]);
      case Literal(c) => assert all[0] == if c in SPECIAL then '\\' else c;
    }
  }

  lemma {:induction false} ReadWrite(ts: seq<Token>)
    requires Clean(ts)
    ensures Read(Write(ts, 5)) == ts
  {
    if ts != [] {
      hide Read;
      CleanTail(ts);
      ReadWrite(ts[1..]);
      var rest := Write(ts[1..], 5);
      assert rest != "" ==> rest[0] != '*' by {
        if |ts| > 1 {
          assert rest[0] == Stage(ts[1], 5)[0];
        }
      }
      ReadOne(ts[0], rest);
    }
  }

  /** The pattern a token sequence was read from. */
  function Source(ts: seq<Token>): string {
    if ts == [] then "" else
      (match ts[0]
       case AnyPath => "**"
       case AnyName => "*"
       case AnyChar => "?"
       case Literal(c) => [c]) + Source(ts[1..])
  }

  lemma {:induction false} TokensKeepPattern(pattern: string)
    ensures Source(Tokens(pattern)) == pattern
    decreases |pattern|
  {
    if pattern != "" {
      if "**" <= pattern {
        TokensKeepPattern(pattern[2..]);
        assert pattern == "**" + pattern[2..];
      } else {
        TokensKeepPattern(pattern[1..]);
        assert pattern == [pattern[0]] + pattern[1..];
      }
    }
  }

  /** Different patterns have different regexes: the pattern can be read back from the regex. */
  lemma TranslationIsReversible(pattern: string)
    ensures Source(Read(GlobToRegex(pattern))) == pattern
  {
    PipelineIsSinglePass(pattern);
    TokensAreClean(pattern);
    ReadWrite(Tokens(pattern));
    TokensKeepPattern(pattern);
  }
}
