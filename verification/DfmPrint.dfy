/** Forms as the designer prints them, and what the parser makes of the text. */
module DfmPrint {
  import opened Common
  import opened Text
  import opened DfmForm
  import opened DfmLines

  /** The properties of an item of a collection: other lines, and collections of its own. */
  datatype Body = NoMore | Text(line: string, next: Body) | Inner(property: string, items: Items, next: Body)

  /** The items of a collection: the last one's `end` carries the closing `>`. */
  datatype Items = Last(body: Body) | Item(body: Body, more: Items)

  /** A form as the designer writes it: a list of objects, event bindings and other properties, one after another. */
  datatype Form =
    | Done
    | Object(keyword: string, name: string, typeName: string, inner: Form, next: Form)
    | Event(event: string, handler: string, next: Form)
    | Plain(line: string, next: Form)
    | MultiLine(property: string, angled: bool, items: seq<string>, last: string, next: Form)
    | Collection(property: string, elements: Items, next: Form)

  /** A line the parser passes over. */
  predicate Inert(line: string) {
    && !OpensMultiLine(line, '(') && !OpensMultiLine(line, '<')
    && ObjectLine(line).None? && EventLine(line).None? && !EndLine(line)
  }

  function Opener(angled: bool): char {
    if angled then '<' else '('
  }

  function Closer(angled: bool): char {
    if angled then '>' else ')'
  }

  ghost predicate WellFormed(f: Form) {
    match f
    case Done => true
    case Object(keyword, name, typeName, inner, next) =>
      Keyword(keyword) && Word(name) && Word(typeName) && WellFormed(inner) && WellFormed(next)
    case Event(event, handler, next) =>
      Word(event) && |event| > 2 && event[..2] == "On" && Word(handler) && WellFormed(next)
    case Plain(line, next) => Inert(line) && WellFormed(next)
    case MultiLine(_, angled, items, _, next) =>
      (forall i | 0 <= i < |items| :: !ClosesMultiLine(items[i], Closer(angled))) && WellFormed(next)
    case Collection(_, elements, next) => ProperItems(elements) && WellFormed(next)
  }

  /** The lines of an item are neither form lines nor ends of a collection. */
  ghost predicate ProperBody(b: Body) {
    match b
    case NoMore => true
    case Text(line, next) => Inert(line) && !ClosesMultiLine(line, '>') && ProperBody(next)
    case Inner(_, items, next) => ProperItems(items) && ProperBody(next)
  }

  ghost predicate ProperItems(items: Items) {
    match items
    case Last(body) => ProperBody(body)
    case Item(body, more) => ProperBody(body) && ProperItems(more)
  }

  function ObjectText(pad: string, keyword: string, name: string, typeName: string): string {
    pad + (keyword + (" " + (name + (": " + typeName))))
  }

  function EventText(pad: string, event: string, handler: string): string {
    pad + (event + (" = " + handler))
  }

  function Print(f: Form, pad: string): seq<string> {
    match f
    case Done => []
    case Object(keyword, name, typeName, inner, next) =>
      [ObjectText(pad, keyword, name, typeName)] + (Print(inner, pad + "  ") + ([pad + "end"] + Print(next, pad)))
    case Event(event, handler, next) => [EventText(pad, event, handler)] + Print(next, pad)
    case Plain(line, next) => [line] + Print(next, pad)
    case MultiLine(property, angled, items, last, next) =>
      PrintProperty(pad + property, angled, items, last) + Print(next, pad)
    case Collection(property, elements, next) =>
      [OpenerText(pad, property)] + (PrintItems(elements, pad + "  ") + Print(next, pad))
  }

  function OpenerText(pad: string, property: string): string {
    pad + property + " = " + [Opener(true)]
  }

  function PrintItems(items: Items, pad: string): seq<string> {
    match items
    case Last(body) => [pad + "item"] + (PrintBody(body, pad + "  ") + [pad + "end>"])
    case Item(body, more) => [pad + "item"] + (PrintBody(body, pad + "  ") + ([pad + "end"] + PrintItems(more, pad)))
  }

  function PrintBody(b: Body, pad: string): seq<string> {
    match b
    case NoMore => []
    case Text(line, next) => [line] + PrintBody(next, pad)
    case Inner(property, items, next) => [OpenerText(pad, property)] + (PrintItems(items, pad + "  ") + PrintBody(next, pad))
  }

  function ItemsHeight(items: Items): nat {
    match items
    case Last(body) => 2 + BodyHeight(body)
    case Item(body, more) => 2 + BodyHeight(body) + ItemsHeight(more)
  }

  function BodyHeight(b: Body): nat {
    match b
    case NoMore => 0
    case Text(_, next) => 1 + BodyHeight(next)
    case Inner(_, items, next) => 1 + ItemsHeight(items) + BodyHeight(next)
  }

  function PrintProperty(head: string, angled: bool, items: seq<string>, last: string): seq<string> {
    [head + " = " + [Opener(angled)]] + (items + [last + [Closer(angled)]])
  }

  function Height(f: Form): nat {
    match f
    case Done => 0
    case Object(_, _, _, inner, next) => 2 + Height(inner) + Height(next)
    case Event(_, _, next) => 1 + Height(next)
    case Plain(_, next) => 1 + Height(next)
    case MultiLine(_, _, items, _, next) => 2 + |items| + Height(next)
    case Collection(_, elements, next) => 1 + ItemsHeight(elements) + Height(next)
  }

  /** The components in preorder, for a form printed from line `n`. */
  function Nodes(f: Form, n: nat): seq<Node> {
    match f
    case Done => []
    case Object(_, name, typeName, inner, next) =>
      [Node(Component(name, n), typeName)] + (Nodes(inner, n + 1) + Nodes(next, n + 2 + Height(inner)))
    case Event(_, _, next) => Nodes(next, n + 1)
    case Plain(_, next) => Nodes(next, n + 1)
    case MultiLine(_, _, items, _, next) => Nodes(next, n + 2 + |items|)
    case Collection(_, elements, next) => Nodes(next, n + 1 + ItemsHeight(elements))
  }

  /** The parent relation, in the same order. */
  function Edges(f: Form, parent: Id, n: nat): seq<Edge> {
    match f
    case Done => []
    case Object(_, name, _, inner, next) =>
      [Edge(parent, Component(name, n))]
      + (Edges(inner, Component(name, n), n + 1) + Edges(next, parent, n + 2 + Height(inner)))
    case Event(_, _, next) => Edges(next, parent, n + 1)
    case Plain(_, next) => Edges(next, parent, n + 1)
    case MultiLine(_, _, items, _, next) => Edges(next, parent, n + 2 + |items|)
    case Collection(_, elements, next) => Edges(next, parent, n + 1 + ItemsHeight(elements))
  }

  /** Each event's handler, on the innermost component around it. */
  function Refs(f: Form, parent: Id, n: nat): seq<Ref> {
    match f
    case Done => []
    case Object(_, name, _, inner, next) =>
      Refs(inner, Component(name, n), n + 1) + Refs(next, parent, n + 2 + Height(inner))
    case Event(_, handler, next) => [Ref(parent, handler, n)] + Refs(next, parent, n + 1)
    case Plain(_, next) => Refs(next, parent, n + 1)
    case MultiLine(_, _, items, _, next) => Refs(next, parent, n + 2 + |items|)
    case Collection(_, elements, next) => Refs(next, parent, n + 1 + ItemsHeight(elements))
  }

  lemma NoOpening(line: string, word: string)
    requires Word(word) && |word| <= |line| && line[|line| - |word|..] == word
    ensures !OpensMultiLine(line, '(') && !OpensMultiLine(line, '<')
  {
    var c := word[|word| - 1];
    assert line[|line| - 1] == c;
    hide WordLetter, IsSpace;
    WordLetters(c);
    LetterIsNoSpace(c);
  }

  lemma LetterIsNoSpace(c: char)
    requires WordLetter(c)
    ensures !IsSpace(c)
  {
    NoSpaces(c);
  }

  lemma ObjectLineOf(pad: string, keyword: string, name: string, typeName: string)
    requires AllSpace(pad) && Keyword(keyword) && Word(name) && Word(typeName)
    ensures ObjectLine(ObjectText(pad, keyword, name, typeName)) == Some((name, typeName))
  {
    hide Word, Keyword, IsSpace, ObjectLine;
    var rest, line := ": " + typeName, ObjectText(pad, keyword, name, typeName);
    assert IsSpace(' ') by {
      SpaceCodes(' ');
    }
    assert rest == "" + (":" + (" " + (typeName + "")));
    assert TypeParts(rest, "", " ", typeName, "");
    assert ObjectParts(line, pad, keyword, " ", name, rest);
    ObjectLineExactly(line, name, typeName);
  }

  lemma EventLineOf(pad: string, event: string, handler: string)
    requires AllSpace(pad) && Word(event) && |event| > 2 && event[..2] == "On" && Word(handler)
    ensures ObjectLine(EventText(pad, event, handler)).None?
    ensures EventLine(EventText(pad, event, handler)) == Some(handler)
  {
    hide Word, IsSpace, ObjectLine, EventLine;
    var line := EventText(pad, event, handler);
    assert IsSpace(' ') by {
      SpaceCodes(' ');
    }
    assert line == pad + (event + (" " + ("=" + (" " + (handler + "")))));
    assert EventParts(line, pad, event, " ", " ", handler, "");
    EventLineExactly(line, handler);
    PadMakesNoDifference(pad, event + (" = " + handler));
    EventIsNoObject(event, " = " + handler);
  }

  lemma EventIsNoObject(event: string, rest: string)
    requires Word(event) && |event| > 2 && event[..2] == "On"
    ensures ObjectLine(event + rest).None?
  {
    assert event[0] == event[..2][0];
    WordIsNoSpace(event);
    hide IsSpace, Word, Declaration;
    assert (event + rest)[0] == 'O' && TrimStart(event + rest) == event + rest;
  }

  lemma EndLineOf(pad: string)
    requires AllSpace(pad)
    ensures ObjectLine(pad + "end").None? && EventLine(pad + "end").None? && EndLine(pad + "end")
  {
    DropsSpace(pad, "end");
    assert "end"[0] == 'e';
  }

  lemma OpenerOf(head: string, angled: bool)
    ensures var line := head + " = " + [Opener(angled)];
            OpensMultiLine(line, Opener(angled)) && (angled ==> !OpensMultiLine(line, '('))
  {
    var c := Opener(angled);
    var line := head + " = " + [c];
    assert TrimEnd(line) == line;
    assert line[..|line| - 1] == (head + " =") + " ";
    TrimEndAppend(head + " =", " ");
  }

  /** While a property is being skipped, lines that do not end in its closing character change nothing. */
  lemma {:induction false} SkipItems(s: State, items: seq<string>, n: nat)
    requires s.stack != [] && s.skipTo.Some?
    requires forall i | 0 <= i < |items| :: !ClosesMultiLine(items[i], s.skipTo.value)
    ensures Run(s, items, n) == s
    decreases |items|
  {
    if items != [] {
      assert forall i | 0 <= i < |items[1..]| :: items[1..][i] == items[i + 1];
      SkipItems(s, items[1..], n + 1);
    }
  }

  lemma RunOne(s: State, line: string, n: nat)
    requires s.stack != []
    ensures Run(s, [line], n) == Step(s, line, n)
  {
    StepKeepsBottom(s, line, n);
    assert [line][1..] == [];
  }

  lemma RunCons(s: State, line: string, rest: seq<string>, n: nat)
    requires s.stack != []
    ensures Step(s, line, n).stack != []
    ensures Run(s, [line] + rest, n) == Run(Step(s, line, n), rest, n + 1)
  {
    StepKeepsBottom(s, line, n);
    assert ([line] + rest)[1..] == rest;
  }

  /** A skipped property ends with the first line that ends in its closing character, nested or not. */
  lemma SkipEndsAtFirstClose(s: State, opener: string, angled: bool, items: seq<string>, last: string, n: nat)
    requires s.stack != [] && s.skipTo.None?
    requires OpensMultiLine(opener, Opener(angled)) && (angled ==> !OpensMultiLine(opener, '('))
    requires forall i | 0 <= i < |items| :: !ClosesMultiLine(items[i], Closer(angled))
    requires ClosesMultiLine(last, Closer(angled))
    ensures Run(s, [opener] + (items + [last]), n) == s
  {
    RunCons(s, opener, items + [last], n);
    var inside := s.(skipTo := Some(Closer(angled)));
    assert Step(s, opener, n) == inside;
    RunConcat(inside, items, [last], n + 1);
    SkipItems(inside, items, n + 1);
    RunOne(inside, last, n + 1 + |items|);
  }

  lemma PropertyIsSkipped(s: State, head: string, angled: bool, items: seq<string>, last: string, n: nat)
    requires s.stack != [] && s.skipTo.None?
    requires forall i | 0 <= i < |items| :: !ClosesMultiLine(items[i], Closer(angled))
    ensures Run(s, PrintProperty(head, angled, items, last), n) == s
  {
    OpenerOf(head, angled);
    var closing := last + [Closer(angled)];
    assert TrimEnd(closing) == closing;
    SkipEndsAtFirstClose(s, head + " = " + [Opener(angled)], angled, items, closing, n);
  }

  /** When one of its lines ends in the closing character, a property is skipped no further than the first such line:
      everything after it, up to and including the property's own last line, is read as lines of the form. */
  lemma EarlyCloseExposesRest(s: State, head: string, angled: bool, items: seq<string>, last: string, k: nat, n: nat)
    requires s.stack != [] && s.skipTo.None? && k < |items|
    requires forall i | 0 <= i < k :: !ClosesMultiLine(items[i], Closer(angled))
    requires ClosesMultiLine(items[k], Closer(angled))
    ensures Run(s, PrintProperty(head, angled, items, last), n) == Run(s, items[k + 1..] + [last + [Closer(angled)]], n + k + 2)
  {
    var opener, closing := head + " = " + [Opener(angled)], last + [Closer(angled)];
    var skipped, rest := [opener] + (items[..k] + [items[k]]), items[k + 1..] + [closing];
    assert PrintProperty(head, angled, items, last) == skipped + rest;
    OpenerOf(head, angled);
    SkipEndsAtFirstClose(s, opener, angled, items[..k], items[k], n);
    RunConcat(s, skipped, rest, n);
  }

  // ----- Collections -----

  predicate HasInner(b: Body) {
    match b
    case NoMore => false
    case Text(_, next) => HasInner(next)
    case Inner(_, _, _) => true
  }

  /** How many `end` lines of the items are read as closing a component: those read after some inner collection has
      ended the skip. `exposed` says whether one has already. */
  function ItemsPops(items: Items, exposed: bool): nat {
    match items
    case Last(body) => BodyPops(body)
    case Item(body, more) =>
      var now := exposed || HasInner(body);
      BodyPops(body) + (if now then 1 else 0) + ItemsPops(more, now)
  }

  function BodyPops(b: Body): nat {
    match b
    case NoMore => 0
    case Text(_, next) => BodyPops(next)
    case Inner(_, items, next) => ItemsPops(items, false) + BodyPops(next)
  }

  /** Collections are nested in last items only, at every level. */
  predicate TameItems(items: Items) {
    match items
    case Last(body) => TameBody(body)
    case Item(body, more) => !HasInner(body) && TameItems(more)
  }

  predicate TameBody(b: Body) {
    match b
    case NoMore => true
    case Text(_, next) => TameBody(next)
    case Inner(_, items, next) => TameItems(items) && TameBody(next)
  }

  lemma {:induction false} NoPopsIsTame(items: Items)
    ensures ItemsPops(items, false) == 0 <==> TameItems(items)
  {
    match items
    case Last(body) => NoBodyPopsIsTame(body);
    case Item(body, more) =>
      NoPopsIsTame(more);
      if !HasInner(body) {
        PlainBodyPopsNothing(body);
      }
  }

  lemma {:induction false} NoBodyPopsIsTame(b: Body)
    ensures BodyPops(b) == 0 <==> TameBody(b)
  {
    match b
    case NoMore =>
    case Text(_, next) => NoBodyPopsIsTame(next);
    case Inner(_, items, next) => NoPopsIsTame(items); NoBodyPopsIsTame(next);
  }

  lemma {:induction false} PlainBodyPopsNothing(b: Body)
    requires !HasInner(b)
    ensures BodyPops(b) == 0
  {
    match b
    case NoMore =>
    case Text(_, next) => PlainBodyPopsNothing(next);
  }

  /** The stack after a number of `end` lines: the file is never popped. */
  function Drop(stack: seq<Id>, k: nat): seq<Id>
    requires stack != []
  {
    if k < |stack| then stack[..|stack| - k] else stack[..1]
  }

  /** `s` after lines that close `k` components; `exposed` says whether form lines are read again. */
  function Dropped(s: State, k: nat, exposed: bool): State
    requires s.stack != []
  {
    s.(stack := Drop(s.stack, k), skipTo := if exposed then None else Some('>'))
  }

  lemma DropTwice(s: State, j: nat, a: bool, k: nat, b: bool)
    requires s.stack != []
    ensures Dropped(s, j, a).stack != []
    ensures Dropped(Dropped(s, j, a), k, b) == Dropped(s, j + k, b)
  {
  }

  lemma WordLine(pad: string, word: string)
    requires AllSpace(pad) && word in ["item", "end", "end>"]
    ensures TrimEnd(pad + word) == pad + word && TrimStart(pad + word) == word
    ensures ObjectLine(pad + word).None? && EventLine(pad + word).None?
    ensures !OpensMultiLine(pad + word, '(') && !OpensMultiLine(pad + word, '<')
    ensures EndLine(pad + word) <==> word == "end"
    ensures ClosesMultiLine(pad + word, '>') <==> word == "end>"
  {
    DropsSpace(pad, word);
    assert word[0] != 'O';
    assert (pad + word)[|pad| + |word| - 1] == word[|word| - 1];
  }

  ghost predicate Reading(s: State, exposed: bool) {
    s.stack != [] && s.skipTo == if exposed then None else Some('>')
  }

  lemma ItemStep(s: State, exposed: bool, pad: string, n: nat)
    requires Reading(s, exposed) && AllSpace(pad)
    ensures Step(s, pad + "item", n) == s
  {
    WordLine(pad, "item");
  }

  lemma ItemEndStep(s: State, exposed: bool, pad: string, n: nat)
    requires Reading(s, exposed) && AllSpace(pad)
    ensures Step(s, pad + "end", n) == Dropped(s, if exposed then 1 else 0, exposed)
  {
    WordLine(pad, "end");
  }

  lemma CollectionEndStep(s: State, exposed: bool, pad: string, n: nat)
    requires Reading(s, exposed) && AllSpace(pad)
    ensures Step(s, pad + "end>", n) == Dropped(s, 0, true)
  {
    WordLine(pad, "end>");
  }

  lemma TextStep(s: State, exposed: bool, line: string, n: nat)
    requires Reading(s, exposed) && Inert(line) && !ClosesMultiLine(line, '>')
    ensures Step(s, line, n) == s
  {
  }

  lemma OpenStep(s: State, exposed: bool, pad: string, property: string, n: nat)
    requires Reading(s, exposed)
    ensures Step(s, OpenerText(pad, property), n) == Dropped(s, 0, false)
  {
    var line := OpenerText(pad, property);
    OpenerOf(pad + property, true);
    assert TrimEnd(line) == line && line[|line| - 1] == '<';
  }

  /** An item up to its own `end`, whatever it is followed by. */
  lemma ItemHead(s: State, exposed: bool, body: Body, rest: seq<string>, pad: string, n: nat)
    requires Reading(s, exposed) && AllSpace(pad)
    requires Run(s, PrintBody(body, pad + "  "), n + 1) == Dropped(s, BodyPops(body), exposed || HasInner(body))
    ensures Reading(Dropped(s, BodyPops(body), exposed || HasInner(body)), exposed || HasInner(body))
    ensures Run(s, [pad + "item"] + (PrintBody(body, pad + "  ") + rest), n)
         == Run(Dropped(s, BodyPops(body), exposed || HasInner(body)), rest, n + 1 + |PrintBody(body, pad + "  ")|)
  {
    hide Step, Run, Dropped;
    var lines := PrintBody(body, pad + "  ");
    DroppedReads(s, BodyPops(body), exposed || HasInner(body));
    ItemStep(s, exposed, pad, n);
    RunCons(s, pad + "item", lines + rest, n);
    RunConcat(s, lines, rest, n + 1);
  }

  /** What reading the items of a collection does, nested ones included: it closes `ItemsPops` components, and ends with
      form lines being read. */
  lemma {:induction false} RunItems(s: State, exposed: bool, items: Items, pad: string, n: nat)
    requires Reading(s, exposed) && AllSpace(pad) && ProperItems(items)
    ensures Run(s, PrintItems(items, pad), n) == Dropped(s, ItemsPops(items, exposed), true)
    decreases items, 0
  {
    hide Step, Run, Dropped, PrintBody;
    var body := items.body;
    var now := exposed || HasInner(body);
    var after, m := Dropped(s, BodyPops(body), now), n + 1 + |PrintBody(body, pad + "  ")|;
    RunBody(s, exposed, body, pad + "  ", n + 1);
    match items
    case Last(_) =>
      ItemHead(s, exposed, body, [pad + "end>"], pad, n);
      RunOne(after, pad + "end>", m);
      CollectionEndStep(after, now, pad, m);
      DropTwice(s, BodyPops(body), now, 0, true);
    case Item(_, more) =>
      var closed := if now then 1 else 0;
      ItemHead(s, exposed, body, [pad + "end"] + PrintItems(more, pad), pad, n);
      ItemEndStep(after, now, pad, m);
      DropTwice(s, BodyPops(body), now, closed, now);
      RunCons(after, pad + "end", PrintItems(more, pad), m);
      DroppedReads(s, BodyPops(body) + closed, now);
      RunItems(Dropped(s, BodyPops(body) + closed, now), now, more, pad, m + 1);
      DropTwice(s, BodyPops(body) + closed, now, ItemsPops(more, now), true);
  }

  lemma RunNothing(s: State, n: nat)
    requires s.stack != []
    ensures Run(s, [], n) == s
  {
  }

  lemma DroppedReads(s: State, k: nat, exposed: bool)
    requires s.stack != []
    ensures Reading(Dropped(s, k, exposed), exposed)
  {
  }

  lemma DropNone(s: State, exposed: bool)
    requires Reading(s, exposed)
    ensures Dropped(s, 0, exposed) == s
  {
  }

  lemma {:induction false} RunBody(s: State, exposed: bool, b: Body, pad: string, n: nat)
    requires Reading(s, exposed) && AllSpace(pad) && ProperBody(b)
    ensures Run(s, PrintBody(b, pad), n) == Dropped(s, BodyPops(b), exposed || HasInner(b))
    decreases b
  {
    hide Step, Dropped, Run;
    match b
    case NoMore => RunNothing(s, n); DropNone(s, exposed);
    case Text(line, next) =>
      TextStep(s, exposed, line, n);
      RunCons(s, line, PrintBody(next, pad), n);
      RunBody(s, exposed, next, pad, n + 1);
    case Inner(property, items, next) =>
      RunCollection(s, exposed, pad, property, items, PrintBody(next, pad), n);
      var after := Dropped(s, ItemsPops(items, false), true);
      DroppedReads(s, ItemsPops(items, false), true);
      RunBody(after, true, next, pad, n + 1 + ItemsHeight(items));
      DropTwice(s, ItemsPops(items, false), true, BodyPops(next), true);
  }

  /** A collection property, whatever is being skipped around it. */
  lemma {:induction false} RunCollection(s: State, exposed: bool, pad: string, property: string, items: Items, rest: seq<string>, n: nat)
    requires Reading(s, exposed) && AllSpace(pad) && ProperItems(items)
    ensures Dropped(s, ItemsPops(items, false), true).stack != []
    ensures Run(s, [OpenerText(pad, property)] + (PrintItems(items, pad + "  ") + rest), n)
         == Run(Dropped(s, ItemsPops(items, false), true), rest, n + 1 + ItemsHeight(items))
    decreases items, 1
  {
    hide Step, Dropped;
    var lines := PrintItems(items, pad + "  ");
    var inside := Dropped(s, 0, false);
    DroppedReads(s, 0, false);
    DroppedReads(s, ItemsPops(items, false), true);
    OpenStep(s, exposed, pad, property, n);
    RunCons(s, OpenerText(pad, property), lines + rest, n);
    RunItems(inside, false, items, pad + "  ", n + 1);
    DropTwice(s, 0, false, ItemsPops(items, false), true);
    ItemsPrintedHeight(items, pad + "  ");
    RunConcat(inside, lines, rest, n + 1);
  }

  /** A collection property is passed over without a trace, with the component it belongs to still open, exactly when
      collections are nested in last items only. */
  lemma CollectionIsSkipped(s: State, pad: string, property: string, items: Items, n: nat)
    requires |s.stack| > 1 && s.skipTo.None? && AllSpace(pad) && ProperItems(items)
    ensures Run(s, [OpenerText(pad, property)] + PrintItems(items, pad + "  "), n) == s <==> TameItems(items)
  {
    var lines := PrintItems(items, pad + "  ");
    assert lines + [] == lines;
    RunCollection(s, true, pad, property, items, [], n);
    NoPopsIsTame(items);
    var k := ItemsPops(items, false);
    assert Run(Dropped(s, k, true), [], n + 1 + ItemsHeight(items)) == Dropped(s, k, true);
    assert Dropped(s, k, true) == s <==> k == 0;
  }

  lemma {:induction false} PrintedHeight(f: Form, pad: string)
    ensures |Print(f, pad)| == Height(f)
  {
    match f
    case Done =>
    case Object(_, _, _, inner, next) => PrintedHeight(inner, pad + "  "); PrintedHeight(next, pad);
    case Event(_, _, next) => PrintedHeight(next, pad);
    case Plain(_, next) => PrintedHeight(next, pad);
    case MultiLine(_, _, _, _, next) => PrintedHeight(next, pad);
    case Collection(_, elements, next) => ItemsPrintedHeight(elements, pad + "  "); PrintedHeight(next, pad);
  }

  lemma {:induction false} ItemsPrintedHeight(items: Items, pad: string)
    ensures |PrintItems(items, pad)| == ItemsHeight(items)
  {
    match items
    case Last(body) => BodyPrintedHeight(body, pad + "  ");
    case Item(body, more) => BodyPrintedHeight(body, pad + "  "); ItemsPrintedHeight(more, pad);
  }

  lemma {:induction false} BodyPrintedHeight(b: Body, pad: string)
    ensures |PrintBody(b, pad)| == BodyHeight(b)
  {
    match b
    case NoMore =>
    case Text(_, next) => BodyPrintedHeight(next, pad);
    case Inner(_, items, next) => ItemsPrintedHeight(items, pad + "  "); BodyPrintedHeight(next, pad);
  }

  function Pushed(s: State, name: string, typeName: string, n: nat): State
    requires s.stack != []
  {
    var id := Component(name, n);
    s.(stack := s.stack + [id], nodes := s.nodes + [Node(id, typeName)], edges := s.edges + [Edge(s.Top(), id)])
  }

  lemma PushStep(s: State, pad: string, keyword: string, name: string, typeName: string, n: nat)
    requires s.stack != [] && s.skipTo.None?
    requires AllSpace(pad) && Keyword(keyword) && Word(name) && Word(typeName)
    ensures Step(s, ObjectText(pad, keyword, name, typeName), n) == Pushed(s, name, typeName, n)
  {
    var line := ObjectText(pad, keyword, name, typeName);
    hide Word;
    ObjectLineOf(pad, keyword, name, typeName);
    NoOpening(line, typeName);
  }

  lemma OpenObject(s: State, f: Form, pad: string, n: nat)
    requires s.stack != [] && s.skipTo.None? && AllSpace(pad) && WellFormed(f) && f.Object?
    ensures Run(s, Print(f, pad), n)
         == Run(Pushed(s, f.name, f.typeName, n), Print(f.inner, pad + "  ") + ([pad + "end"] + Print(f.next, pad)), n + 1)
  {
    RunCons(s, ObjectText(pad, f.keyword, f.name, f.typeName), Print(f.inner, pad + "  ") + ([pad + "end"] + Print(f.next, pad)), n);
    PushStep(s, pad, f.keyword, f.name, f.typeName, n);
  }

  function Bound(s: State, handler: string, n: nat): State
    requires s.stack != []
  {
    s.(refs := s.refs + [Ref(s.Top(), handler, n)])
  }

  lemma EventStep(s: State, pad: string, event: string, handler: string, n: nat)
    requires s.stack != [] && s.skipTo.None? && AllSpace(pad)
    requires Word(event) && |event| > 2 && event[..2] == "On" && Word(handler)
    ensures Step(s, EventText(pad, event, handler), n) == Bound(s, handler, n)
  {
    EventLineOf(pad, event, handler);
    NoOpening(EventText(pad, event, handler), handler);
  }

  lemma EventHead(s: State, f: Form, pad: string, n: nat)
    requires s.stack != [] && s.skipTo.None? && AllSpace(pad) && WellFormed(f) && f.Event?
    ensures Run(s, Print(f, pad), n) == Run(Bound(s, f.handler, n), Print(f.next, pad), n + 1)
  {
    EventStep(s, pad, f.event, f.handler, n);
    hide Step, Run, WellFormed;
    RunCons(s, EventText(pad, f.event, f.handler), Print(f.next, pad), n);
  }

  lemma PlainHead(s: State, f: Form, pad: string, n: nat)
    requires s.stack != [] && s.skipTo.None? && WellFormed(f) && f.Plain?
    ensures Run(s, Print(f, pad), n) == Run(s, Print(f.next, pad), n + 1)
  {
    PlainStep(s, f.line, n);
    hide Step, Run;
    RunCons(s, f.line, Print(f.next, pad), n);
  }

  lemma PlainStep(s: State, line: string, n: nat)
    requires s.stack != [] && s.skipTo.None? && Inert(line)
    ensures Step(s, line, n) == s
  {
  }

  lemma MultiLineHead(s: State, f: Form, pad: string, n: nat)
    requires s.stack != [] && s.skipTo.None? && WellFormed(f) && f.MultiLine?
    ensures Run(s, Print(f, pad), n) == Run(s, Print(f.next, pad), n + 2 + |f.items|)
  {
    hide Step, Run;
    var lines := PrintProperty(pad + f.property, f.angled, f.items, f.last);
    assert |lines| == 2 + |f.items|;
    PropertyIsSkipped(s, pad + f.property, f.angled, f.items, f.last, n);
    RunConcat(s, lines, Print(f.next, pad), n);
  }

  lemma CollectionHead(s: State, f: Form, pad: string, n: nat)
    requires s.stack != [] && s.skipTo.None? && AllSpace(pad) && WellFormed(f) && f.Collection?
    ensures var after := Dropped(s, ItemsPops(f.elements, false), true);
            && after.stack != []
            && Run(s, Print(f, pad), n) == Run(after, Print(f.next, pad), n + 1 + ItemsHeight(f.elements))
  {
    hide Step, Run;
    RunCollection(s, true, pad, f.property, f.elements, Print(f.next, pad), n);
  }

  // ----- Whole forms -----

  /** How many components too many the form's text closes. */
  function Pops(f: Form): nat {
    match f
    case Done => 0
    case Object(_, _, _, inner, next) => Pops(inner) + Pops(next)
    case Event(_, _, next) => Pops(next)
    case Plain(_, next) => Pops(next)
    case MultiLine(_, _, _, _, next) => Pops(next)
    case Collection(_, elements, next) => ItemsPops(elements, false) + Pops(next)
  }

  function TopOf(stack: seq<Id>): Id
    requires stack != []
  {
    stack[|stack| - 1]
  }

  /** The edges that reading the form's text adds, under the components on the stack. */
  function EdgesRead(f: Form, stack: seq<Id>, n: nat): seq<Edge>
    requires stack != []
  {
    match f
    case Done => []
    case Object(_, name, _, inner, next) =>
      var id := Component(name, n);
      [Edge(TopOf(stack), id)]
      + (EdgesRead(inner, stack + [id], n + 1) + EdgesRead(next, Drop(stack, Pops(inner)), n + 2 + Height(inner)))
    case Event(_, _, next) => EdgesRead(next, stack, n + 1)
    case Plain(_, next) => EdgesRead(next, stack, n + 1)
    case MultiLine(_, _, items, _, next) => EdgesRead(next, stack, n + 2 + |items|)
    case Collection(_, elements, next) =>
      EdgesRead(next, Drop(stack, ItemsPops(elements, false)), n + 1 + ItemsHeight(elements))
  }

  /** The event references that reading the form's text adds. */
  function RefsRead(f: Form, stack: seq<Id>, n: nat): seq<Ref>
    requires stack != []
  {
    match f
    case Done => []
    case Object(_, name, _, inner, next) =>
      RefsRead(inner, stack + [Component(name, n)], n + 1) + RefsRead(next, Drop(stack, Pops(inner)), n + 2 + Height(inner))
    case Event(_, handler, next) => [Ref(TopOf(stack), handler, n)] + RefsRead(next, stack, n + 1)
    case Plain(_, next) => RefsRead(next, stack, n + 1)
    case MultiLine(_, _, items, _, next) => RefsRead(next, stack, n + 2 + |items|)
    case Collection(_, elements, next) =>
      RefsRead(next, Drop(stack, ItemsPops(elements, false)), n + 1 + ItemsHeight(elements))
  }

  /** `s` after the form's text, printed from line `n`. */
  function Read(s: State, f: Form, n: nat): State
    requires s.stack != []
  {
    s.(stack := Drop(s.stack, Pops(f)),
       nodes := s.nodes + Nodes(f, n),
       edges := s.edges + EdgesRead(f, s.stack, n),
       refs := s.refs + RefsRead(f, s.stack, n))
  }

  /** The state after an object's `end`. */
  function Closed(s: State, f: Form, n: nat): State
    requires s.stack != [] && f.Object?
  {
    Dropped(Read(Pushed(s, f.name, f.typeName, n), f.inner, n + 1), 1, true)
  }

  lemma ClosedIs(s: State, f: Form, n: nat)
    requires s.stack != [] && s.skipTo.None? && f.Object?
    ensures var id := Component(f.name, n);
            Closed(s, f, n) == s.(stack := Drop(s.stack, Pops(f.inner)),
                                  nodes := s.nodes + ([Node(id, f.typeName)] + Nodes(f.inner, n + 1)),
                                  edges := s.edges + ([Edge(s.Top(), id)] + EdgesRead(f.inner, s.stack + [id], n + 1)),
                                  refs := s.refs + RefsRead(f.inner, s.stack + [id], n + 1))
  {
    hide Nodes, EdgesRead, RefsRead, Pops;
    var pushed, id := Pushed(s, f.name, f.typeName, n), Component(f.name, n);
    assert Drop(Drop(pushed.stack, Pops(f.inner)), 1) == Drop(s.stack, Pops(f.inner));
    assert pushed.nodes + Nodes(f.inner, n + 1) == s.nodes + ([Node(id, f.typeName)] + Nodes(f.inner, n + 1));
    var edges := EdgesRead(f.inner, s.stack + [id], n + 1);
    assert pushed.edges + edges == s.edges + ([Edge(s.Top(), id)] + edges);
  }

  /** What an object adds, regrouped by its inside and what follows it. */
  lemma ObjectReads(f: Form, stack: seq<Id>, n: nat)
    requires stack != [] && f.Object?
    ensures var id, m, rest := Component(f.name, n), n + 2 + Height(f.inner), Drop(stack, Pops(f.inner));
            && Nodes(f, n) == [Node(id, f.typeName)] + Nodes(f.inner, n + 1) + Nodes(f.next, m)
            && EdgesRead(f, stack, n)
            == [Edge(TopOf(stack), id)] + EdgesRead(f.inner, stack + [id], n + 1) + EdgesRead(f.next, rest, m)
            && RefsRead(f, stack, n) == RefsRead(f.inner, stack + [id], n + 1) + RefsRead(f.next, rest, m)
            && Drop(stack, Pops(f)) == Drop(rest, Pops(f.next))
  {
    Regroup([Node(Component(f.name, n), f.typeName)], Nodes(f.inner, n + 1), Nodes(f.next, n + 2 + Height(f.inner)));
    Regroup([Edge(TopOf(stack), Component(f.name, n))],
            EdgesRead(f.inner, stack + [Component(f.name, n)], n + 1),
            EdgesRead(f.next, Drop(stack, Pops(f.inner)), n + 2 + Height(f.inner)));
  }

  lemma Regroup<T>(a: seq<T>, b: seq<T>, c: seq<T>)
    ensures a + b + c == a + (b + c)
  {
  }

  lemma ClosedThenNext(s: State, f: Form, n: nat)
    requires s.stack != [] && s.skipTo.None? && f.Object?
    ensures Closed(s, f, n).stack != [] && Closed(s, f, n).skipTo.None?
    ensures Read(Closed(s, f, n), f.next, n + 2 + Height(f.inner)) == Read(s, f, n)
  {
    ClosedIs(s, f, n);
    ObjectReads(f, s.stack, n);
    hide Closed, Nodes, EdgesRead, RefsRead, Pops, Drop;
    var id, m, rest := Component(f.name, n), n + 2 + Height(f.inner), Drop(s.stack, Pops(f.inner));
    Regroup(s.nodes, [Node(id, f.typeName)] + Nodes(f.inner, n + 1), Nodes(f.next, m));
    Regroup(s.edges, [Edge(s.Top(), id)] + EdgesRead(f.inner, s.stack + [id], n + 1), EdgesRead(f.next, rest, m));
    Regroup(s.refs, RefsRead(f.inner, s.stack + [id], n + 1), RefsRead(f.next, rest, m));
  }

  lemma {:induction false} ObjectHead(s: State, f: Form, pad: string, n: nat)
    requires s.stack != [] && s.skipTo.None? && AllSpace(pad) && WellFormed(f) && f.Object?
    requires var pushed := Pushed(s, f.name, f.typeName, n);
             Run(pushed, Print(f.inner, pad + "  "), n + 1) == Read(pushed, f.inner, n + 1)
    ensures Closed(s, f, n).stack != []
    ensures Run(s, Print(f, pad), n) == Run(Closed(s, f, n), Print(f.next, pad), n + 2 + Height(f.inner))
  {
    hide Step, Run, Print, Nodes, EdgesRead, RefsRead;
    var pushed, m := Pushed(s, f.name, f.typeName, n), n + 1 + Height(f.inner);
    var inside := Read(pushed, f.inner, n + 1);
    OpenObject(s, f, pad, n);
    RunConcat(pushed, Print(f.inner, pad + "  "), [pad + "end"] + Print(f.next, pad), n + 1);
    PrintedHeight(f.inner, pad + "  ");
    ItemEndStep(inside, true, pad, m);
    RunCons(inside, pad + "end", Print(f.next, pad), m);
  }

  lemma BoundThenNext(s: State, f: Form, n: nat)
    requires s.stack != [] && f.Event?
    ensures Read(Bound(s, f.handler, n), f.next, n + 1) == Read(s, f, n)
  {
    var refs := RefsRead(f.next, s.stack, n + 1);
    assert s.refs + ([Ref(s.Top(), f.handler, n)] + refs) == s.refs + [Ref(s.Top(), f.handler, n)] + refs;
  }

  /** A property adds nothing of its own. */
  lemma SameRead(s: State, f: Form, n: nat)
    requires s.stack != [] && s.skipTo.None? && (f.Done? || f.Plain? || f.MultiLine? || f.Collection?)
    ensures f.Done? ==> Read(s, f, n) == s
    ensures f.Plain? ==> Read(s, f, n) == Read(s, f.next, n + 1)
    ensures f.MultiLine? ==> Read(s, f, n) == Read(s, f.next, n + 2 + |f.items|)
    ensures f.Collection? ==>
              var after := Dropped(s, ItemsPops(f.elements, false), true);
              && after.stack != [] && after.skipTo.None?
              && Read(s, f, n) == Read(after, f.next, n + 1 + ItemsHeight(f.elements))
  {
  }

  /** What reading a printed form does, from any position and whatever its collections are: the components in preorder,
      each edge and each handler at the component then on top, and `Pops(f)` components closed too many. */
  lemma {:induction false} RunForm(s: State, f: Form, pad: string, n: nat)
    requires s.stack != [] && s.skipTo.None? && AllSpace(pad) && WellFormed(f)
    ensures Run(s, Print(f, pad), n) == Read(s, f, n)
    decreases f
  {
    hide Step, Run, Print, Read, Closed;
    match f
    case Done => PrintedHeight(f, pad); RunNothing(s, n); SameRead(s, f, n);
    case Object(_, name, typeName, inner, next) =>
      RunForm(Pushed(s, name, typeName, n), inner, pad + "  ", n + 1);
      ObjectHead(s, f, pad, n);
      ClosedThenNext(s, f, n);
      RunForm(Closed(s, f, n), next, pad, n + 2 + Height(inner));
    case Event(_, handler, next) =>
      EventHead(s, f, pad, n);
      RunForm(Bound(s, handler, n), next, pad, n + 1);
      BoundThenNext(s, f, n);
    case Plain(_, next) =>
      PlainHead(s, f, pad, n);
      RunForm(s, next, pad, n + 1);
      SameRead(s, f, n);
    case MultiLine(_, _, items, _, next) =>
      MultiLineHead(s, f, pad, n);
      RunForm(s, next, pad, n + 2 + |items|);
      SameRead(s, f, n);
    case Collection(_, elements, next) =>
      CollectionHead(s, f, pad, n);
      SameRead(s, f, n);
      RunForm(Dropped(s, ItemsPops(elements, false), true), next, pad, n + 1 + ItemsHeight(elements));
  }

  // ----- Tame forms -----

  /** Every collection of the form is tame. */
  predicate Tame(f: Form) {
    match f
    case Done => true
    case Object(_, _, _, inner, next) => Tame(inner) && Tame(next)
    case Event(_, _, next) => Tame(next)
    case Plain(_, next) => Tame(next)
    case MultiLine(_, _, _, _, next) => Tame(next)
    case Collection(_, elements, next) => TameItems(elements) && Tame(next)
  }

  lemma {:induction false} NoPopsIsTameForm(f: Form)
    ensures Pops(f) == 0 <==> Tame(f)
  {
    match f
    case Done =>
    case Object(_, _, _, inner, next) => NoPopsIsTameForm(inner); NoPopsIsTameForm(next);
    case Event(_, _, next) => NoPopsIsTameForm(next);
    case Plain(_, next) => NoPopsIsTameForm(next);
    case MultiLine(_, _, _, _, next) => NoPopsIsTameForm(next);
    case Collection(_, elements, next) => NoPopsIsTame(elements); NoPopsIsTameForm(next);
  }

  /** What is read is what the form stands for. */
  ghost predicate Agrees(f: Form, stack: seq<Id>, n: nat)
    requires stack != []
  {
    EdgesRead(f, stack, n) == Edges(f, TopOf(stack), n) && RefsRead(f, stack, n) == Refs(f, TopOf(stack), n)
  }

  lemma {:induction false} TameAgrees(f: Form, stack: seq<Id>, n: nat)
    requires stack != [] && Tame(f)
    ensures Agrees(f, stack, n)
  {
    match f
    case Done =>
    case Object(_, name, _, inner, next) =>
      NoPopsIsTameForm(inner);
      assert Drop(stack, 0) == stack;
      TameAgrees(inner, stack + [Component(name, n)], n + 1);
      TameAgrees(next, stack, n + 2 + Height(inner));
    case Event(_, _, next) => TameAgrees(next, stack, n + 1);
    case Plain(_, next) => TameAgrees(next, stack, n + 1);
    case MultiLine(_, _, items, _, next) => TameAgrees(next, stack, n + 2 + |items|);
    case Collection(_, elements, next) =>
      NoPopsIsTame(elements);
      assert Drop(stack, 0) == stack;
      TameAgrees(next, stack, n + 1 + ItemsHeight(elements));
  }

  /** `s` with what a form printed from line `n` stands for. */
  function After(s: State, f: Form, n: nat): State
    requires s.stack != []
  {
    s.(nodes := s.nodes + Nodes(f, n), edges := s.edges + Edges(f, s.Top(), n), refs := s.refs + Refs(f, s.Top(), n))
  }

  /** Parsing a printed form, from any position: the components in preorder, their parent relation, each handler on
      its innermost component, and the stack as it was. */
  lemma ParsePrinted(s: State, f: Form, pad: string, n: nat)
    requires s.stack != [] && s.skipTo.None? && AllSpace(pad) && WellFormed(f) && Tame(f)
    ensures Run(s, Print(f, pad), n) == After(s, f, n)
  {
    hide Run, Print, EdgesRead, RefsRead, Edges, Refs, Nodes;
    RunForm(s, f, pad, n);
    TameAgrees(f, s.stack, n);
    NoPopsIsTameForm(f);
  }

  /** A form read inside a component adds what it stands for and leaves that component open exactly when it is tame. */
  lemma ParsesExactlyTame(s: State, f: Form, pad: string, n: nat)
    requires |s.stack| > 1 && s.skipTo.None? && AllSpace(pad) && WellFormed(f)
    ensures Run(s, Print(f, pad), n) == After(s, f, n) <==> Tame(f)
  {
    hide Run, Print, EdgesRead, RefsRead, Edges, Refs, Nodes;
    RunForm(s, f, pad, n);
    NoPopsIsTameForm(f);
    if Tame(f) {
      TameAgrees(f, s.stack, n);
    }
  }

  ghost predicate AllLineFree(lines: seq<string>) {
    forall i | 0 <= i < |lines| :: LineFree(lines[i])
  }

  ghost predicate OneLiners(f: Form) {
    match f
    case Done => true
    case Object(_, _, _, inner, next) => OneLiners(inner) && OneLiners(next)
    case Event(_, _, next) => OneLiners(next)
    case Plain(line, next) => LineFree(line) && OneLiners(next)
    case MultiLine(property, _, items, last, next) =>
      LineFree(property) && LineFree(last) && AllLineFree(items) && OneLiners(next)
    case Collection(property, elements, next) => LineFree(property) && OneLineItems(elements) && OneLiners(next)
  }

  ghost predicate OneLineItems(items: Items) {
    match items
    case Last(body) => OneLineBody(body)
    case Item(body, more) => OneLineBody(body) && OneLineItems(more)
  }

  ghost predicate OneLineBody(b: Body) {
    match b
    case NoMore => true
    case Text(line, next) => LineFree(line) && OneLineBody(next)
    case Inner(property, items, next) => LineFree(property) && OneLineItems(items) && OneLineBody(next)
  }

  lemma {:induction false} PrintedItemsAreLineFree(items: Items, pad: string)
    requires OneLineItems(items) && LineFree(pad)
    ensures AllLineFree(PrintItems(items, pad))
  {
    assert LineFree(pad + "item") && LineFree(pad + "end") && LineFree(pad + "end>");
    match items
    case Last(body) => PrintedBodyIsLineFree(body, pad + "  ");
    case Item(body, more) =>
      PrintedBodyIsLineFree(body, pad + "  ");
      PrintedItemsAreLineFree(more, pad);
  }

  lemma {:induction false} PrintedBodyIsLineFree(b: Body, pad: string)
    requires OneLineBody(b) && LineFree(pad)
    ensures AllLineFree(PrintBody(b, pad))
  {
    match b
    case NoMore =>
    case Text(_, next) => PrintedBodyIsLineFree(next, pad);
    case Inner(property, items, next) =>
      assert LineFree(OpenerText(pad, property));
      PrintedItemsAreLineFree(items, pad + "  ");
      PrintedBodyIsLineFree(next, pad);
  }

  lemma WordIsLineFree(w: string)
    requires Word(w)
    ensures LineFree(w)
  {
  }

  lemma ObjectTextIsLineFree(pad: string, keyword: string, name: string, typeName: string)
    requires Keyword(keyword) && Word(name) && Word(typeName) && LineFree(pad)
    ensures LineFree(ObjectText(pad, keyword, name, typeName))
  {
    WordIsLineFree(name);
    WordIsLineFree(typeName);
    assert LineFree(keyword);
    hide Word, Keyword;
  }

  lemma EventTextIsLineFree(pad: string, event: string, handler: string)
    requires Word(event) && Word(handler) && LineFree(pad)
    ensures LineFree(EventText(pad, event, handler))
  {
    WordIsLineFree(event);
    WordIsLineFree(handler);
    hide Word;
  }

  lemma {:induction false} PrintedLinesAreLineFree(f: Form, pad: string)
    requires WellFormed(f) && OneLiners(f) && LineFree(pad)
    ensures AllLineFree(Print(f, pad))
  {
    hide Word, Keyword, ObjectText, EventText;
    match f
    case Done =>
    case Object(keyword, name, typeName, inner, next) =>
      PrintedLinesAreLineFree(inner, pad + "  ");
      PrintedLinesAreLineFree(next, pad);
      ObjectTextIsLineFree(pad, keyword, name, typeName);
    case Event(event, handler, next) =>
      PrintedLinesAreLineFree(next, pad);
      EventTextIsLineFree(pad, event, handler);
    case Plain(line, next) => PrintedLinesAreLineFree(next, pad);
    case MultiLine(property, angled, items, last, next) =>
      PrintedLinesAreLineFree(next, pad);
      assert AllLineFree(PrintProperty(pad + property, angled, items, last));
    case Collection(property, elements, next) =>
      assert LineFree(OpenerText(pad, property));
      PrintedItemsAreLineFree(elements, pad + "  ");
      PrintedLinesAreLineFree(next, pad);
  }

  /** The round trip on source text: printing a form and parsing the text gives the form's components in preorder,
      exactly its parent relation, and each handler on its innermost enclosing component. */
  lemma {:induction false} PrintedFormParses(f: Form)
    requires WellFormed(f) && OneLiners(f) && Tame(f) && f != Done
    ensures Run(START, Lines(Unlines(Print(f, ""))), 1)
         == State([File], Nodes(f, 1), Edges(f, File, 1), Refs(f, File, 1), None)
  {
    hide Step, Run, Print, Nodes, Edges, Refs;
    PrintedHeight(f, "");
    PrintedLinesAreLineFree(f, "");
    LinesUnlines(Print(f, ""));
    ParsePrinted(START, f, "", 1);
  }

  // ----- Untamed forms -----

  /** No component and no event. */
  predicate Quiet(f: Form) {
    match f
    case Done => true
    case Object(_, _, _, _, _) => false
    case Event(_, _, _) => false
    case Plain(_, next) => Quiet(next)
    case MultiLine(_, _, _, _, next) => Quiet(next)
    case Collection(_, _, next) => Quiet(next)
  }

  /** Inside a component, nothing but other properties may follow an untamed collection or an object with one. */
  predicate Right(f: Form) {
    match f
    case Done => true
    case Object(_, _, _, inner, next) => Right(inner) && (Tame(inner) || Quiet(next)) && Right(next)
    case Event(_, _, next) => Right(next)
    case Plain(_, next) => Right(next)
    case MultiLine(_, _, _, _, next) => Right(next)
    case Collection(_, elements, next) => (TameItems(elements) || Quiet(next)) && Right(next)
  }

  /** At the file there is nothing to close, so that only the insides of the components matter. */
  predicate RightTop(f: Form) {
    match f
    case Done => true
    case Object(_, _, _, inner, next) => Right(inner) && RightTop(next)
    case Event(_, _, next) => RightTop(next)
    case Plain(_, next) => RightTop(next)
    case MultiLine(_, _, _, _, next) => RightTop(next)
    case Collection(_, _, next) => RightTop(next)
  }

  /** The ids on the stack differ, and are of lines before `n`. */
  ghost predicate Before(stack: seq<Id>, n: nat) {
    && stack != []
    && (forall i | 0 <= i < |stack| :: stack[i].Component? ==> stack[i].line < n)
    && (forall i, j | 0 <= i < j < |stack| :: stack[i] != stack[j])
  }

  lemma {:induction false} SameCount(f: Form, stack: seq<Id>, parent: Id, n: nat)
    requires stack != []
    ensures |EdgesRead(f, stack, n)| == |Edges(f, parent, n)| && |RefsRead(f, stack, n)| == |Refs(f, parent, n)|
  {
    match f
    case Done =>
    case Object(_, name, _, inner, next) =>
      var id := Component(name, n);
      SameCount(inner, stack + [id], id, n + 1);
      SameCount(next, Drop(stack, Pops(inner)), parent, n + 2 + Height(inner));
    case Event(_, _, next) => SameCount(next, stack, parent, n + 1);
    case Plain(_, next) => SameCount(next, stack, parent, n + 1);
    case MultiLine(_, _, items, _, next) => SameCount(next, stack, parent, n + 2 + |items|);
    case Collection(_, elements, next) =>
      SameCount(next, Drop(stack, ItemsPops(elements, false)), parent, n + 1 + ItemsHeight(elements));
  }

  lemma SameParts<T>(a: seq<T>, b: seq<T>, a': seq<T>, b': seq<T>)
    requires |a| == |a'|
    ensures a + b == a' + b' <==> a == a' && b == b'
  {
    if a + b == a' + b' {
      assert a == (a + b)[..|a|] == a';
      assert b == (a + b)[|a|..] == b';
    }
  }

  /** Agreement with the intended parent, whatever the stack is. */
  ghost predicate AgreesWith(f: Form, stack: seq<Id>, parent: Id, n: nat)
    requires stack != []
  {
    EdgesRead(f, stack, n) == Edges(f, parent, n) && RefsRead(f, stack, n) == Refs(f, parent, n)
  }

  /** An object agrees when its inside and what follows it do. */
  lemma ObjectAgrees(f: Form, stack: seq<Id>, n: nat)
    requires stack != [] && f.Object?
    ensures var id := Component(f.name, n);
            Agrees(f, stack, n) <==>
            && Agrees(f.inner, stack + [id], n + 1)
            && AgreesWith(f.next, Drop(stack, Pops(f.inner)), TopOf(stack), n + 2 + Height(f.inner))
  {
    var id, m, rest := Component(f.name, n), n + 2 + Height(f.inner), Drop(stack, Pops(f.inner));
    SameCount(f.inner, stack + [id], id, n + 1);
    var edge := [Edge(TopOf(stack), id)];
    SameParts(edge, EdgesRead(f.inner, stack + [id], n + 1) + EdgesRead(f.next, rest, m),
              edge, Edges(f.inner, id, n + 1) + Edges(f.next, TopOf(stack), m));
    SameParts(EdgesRead(f.inner, stack + [id], n + 1), EdgesRead(f.next, rest, m),
              Edges(f.inner, id, n + 1), Edges(f.next, TopOf(stack), m));
    SameParts(RefsRead(f.inner, stack + [id], n + 1), RefsRead(f.next, rest, m),
              Refs(f.inner, id, n + 1), Refs(f.next, TopOf(stack), m));
  }

  /** Under another component than the intended one, a form agrees exactly when there is nothing to attach. */
  lemma {:induction false} WrongTop(f: Form, stack: seq<Id>, parent: Id, n: nat)
    requires stack != [] && parent !in stack
    ensures AgreesWith(f, stack, parent, n) <==> Quiet(f)
  {
    match f
    case Done =>
    case Object(_, name, _, _, _) =>
      assert EdgesRead(f, stack, n)[0].source == TopOf(stack) && Edges(f, parent, n)[0].source == parent;
    case Event(_, _, _) =>
      assert RefsRead(f, stack, n)[0].from == TopOf(stack) && Refs(f, parent, n)[0].from == parent;
    case Plain(_, next) => WrongTop(next, stack, parent, n + 1);
    case MultiLine(_, _, items, _, next) => WrongTop(next, stack, parent, n + 2 + |items|);
    case Collection(_, elements, next) =>
      WrongTop(next, Drop(stack, ItemsPops(elements, false)), parent, n + 1 + ItemsHeight(elements));
  }

  lemma {:induction false} QuietIsRight(f: Form)
    requires Quiet(f)
    ensures Right(f)
  {
    match f
    case Done =>
    case Plain(_, next) => QuietIsRight(next);
    case MultiLine(_, _, _, _, next) => QuietIsRight(next);
    case Collection(_, _, next) => QuietIsRight(next);
  }

  /** What follows `k` closed components agrees with the innermost of them when none was closed, or when it is quiet. */
  lemma AfterPops(f: Form, stack: seq<Id>, k: nat, n: nat)
    requires |stack| > 1 && Before(stack, n)
    ensures k == 0 ==> (AgreesWith(f, Drop(stack, k), TopOf(stack), n) <==> Agrees(f, stack, n))
    ensures k > 0 ==> (AgreesWith(f, Drop(stack, k), TopOf(stack), n) <==> Quiet(f))
    ensures Quiet(f) ==> Right(f)
  {
    if k == 0 {
      assert Drop(stack, k) == stack;
    } else {
      WrongTop(f, Drop(stack, k), TopOf(stack), n);
    }
    if Quiet(f) {
      QuietIsRight(f);
    }
  }

  /** Inside a component, a form is read as what it stands for exactly when it is `Right`. */
  lemma {:induction false} AgreesExactlyRight(f: Form, stack: seq<Id>, n: nat)
    requires |stack| > 1 && Before(stack, n)
    ensures Agrees(f, stack, n) <==> Right(f)
  {
    hide EdgesRead, RefsRead, Edges, Refs, Before, Agrees, AgreesWith;
    match f
    case Done => SimpleAgrees(f, stack, n);
    case Object(_, name, _, inner, next) =>
      ObjectAgrees(f, stack, n);
      BeforeMore(stack, name, n, n + 2 + Height(inner));
      AgreesExactlyRight(inner, stack + [Component(name, n)], n + 1);
      AfterPops(next, stack, Pops(inner), n + 2 + Height(inner));
      NoPopsIsTameForm(inner);
      AgreesExactlyRight(next, stack, n + 2 + Height(inner));
    case Event(_, _, next) =>
      BeforeMore(stack, "", n, n + 1);
      SimpleAgrees(f, stack, n);
      AgreesExactlyRight(next, stack, n + 1);
    case Plain(_, next) =>
      BeforeMore(stack, "", n, n + 1);
      SimpleAgrees(f, stack, n);
      AgreesExactlyRight(next, stack, n + 1);
    case MultiLine(_, _, items, _, next) =>
      BeforeMore(stack, "", n, n + 2 + |items|);
      SimpleAgrees(f, stack, n);
      AgreesExactlyRight(next, stack, n + 2 + |items|);
    case Collection(_, elements, next) =>
      var m := n + 1 + ItemsHeight(elements);
      BeforeMore(stack, "", n, m);
      SimpleAgrees(f, stack, n);
      NoPopsIsTame(elements);
      AfterPops(next, stack, ItemsPops(elements, false), m);
      AgreesExactlyRight(next, stack, m);
  }

  lemma BeforeMore(stack: seq<Id>, name: string, n: nat, m: nat)
    requires Before(stack, n) && n <= m
    ensures Before(stack, m) && Before(stack + [Component(name, n)], n + 1)
  {
  }

  lemma SimpleAgrees(f: Form, stack: seq<Id>, n: nat)
    requires stack != [] && !f.Object?
    ensures f.Done? ==> Agrees(f, stack, n)
    ensures f.Event? ==> (Agrees(f, stack, n) <==> Agrees(f.next, stack, n + 1))
    ensures f.Plain? ==> (Agrees(f, stack, n) <==> Agrees(f.next, stack, n + 1))
    ensures f.MultiLine? ==> (Agrees(f, stack, n) <==> Agrees(f.next, stack, n + 2 + |f.items|))
    ensures f.Collection? ==>
              (Agrees(f, stack, n) <==>
               AgreesWith(f.next, Drop(stack, ItemsPops(f.elements, false)), TopOf(stack), n + 1 + ItemsHeight(f.elements)))
  {
    if f.Event? {
      var ref := [Ref(TopOf(stack), f.handler, n)];
      SameParts(ref, RefsRead(f.next, stack, n + 1), ref, Refs(f.next, TopOf(stack), n + 1));
    }
  }

  /** At the file, exactly when it is `RightTop`. */
  lemma {:induction false} AgreesExactlyRightTop(f: Form, n: nat)
    ensures Agrees(f, [File], n) <==> RightTop(f)
  {
    hide EdgesRead, RefsRead, Edges, Refs, Agrees;
    match f
    case Done => SimpleAgrees(f, [File], n);
    case Object(_, name, _, inner, next) =>
      ObjectAgrees(f, [File], n);
      AgreesExactlyRight(inner, [File] + [Component(name, n)], n + 1);
      NothingToClose(next, Pops(inner), n + 2 + Height(inner));
      AgreesExactlyRightTop(next, n + 2 + Height(inner));
    case Event(_, _, next) => SimpleAgrees(f, [File], n); AgreesExactlyRightTop(next, n + 1);
    case Plain(_, next) => SimpleAgrees(f, [File], n); AgreesExactlyRightTop(next, n + 1);
    case MultiLine(_, _, items, _, next) => SimpleAgrees(f, [File], n); AgreesExactlyRightTop(next, n + 2 + |items|);
    case Collection(_, elements, next) =>
      SimpleAgrees(f, [File], n);
      NothingToClose(next, ItemsPops(elements, false), n + 1 + ItemsHeight(elements));
      AgreesExactlyRightTop(next, n + 1 + ItemsHeight(elements));
  }

  lemma NothingToClose(f: Form, k: nat, n: nat)
    ensures AgreesWith(f, Drop([File], k), File, n) <==> Agrees(f, [File], n)
  {
    assert Drop([File], k) == [File];
  }

  /** The text of any form, tame or not: the components are right, and the file is all that is left open. The parser's
      edges and references are the form's own exactly when it is `RightTop`. */
  lemma {:induction false} TextParsesExactly(f: Form)
    requires WellFormed(f) && OneLiners(f) && f != Done
    ensures var r := Run(START, Lines(Unlines(Print(f, ""))), 1);
            && r.stack == [File] && r.skipTo.None? && r.nodes == Nodes(f, 1)
            && (r.edges == Edges(f, File, 1) && r.refs == Refs(f, File, 1) <==> RightTop(f))
  {
    hide Step, Run, Print, Nodes, Edges, Refs, EdgesRead, RefsRead, RightTop;
    PrintedHeight(f, "");
    PrintedLinesAreLineFree(f, "");
    LinesUnlines(Print(f, ""));
    RunForm(START, f, "", 1);
    AgreesExactlyRightTop(f, 1);
  }

  /** A collection of two items, the first of them with a collection of its own. */
  function NestedExample(q: string): Items {
    Item(Inner(q, Last(NoMore), NoMore), Last(NoMore))
  }

  lemma ExampleIsUntamed(q: string)
    ensures ProperItems(NestedExample(q)) && !TameItems(NestedExample(q))
    ensures ItemsPops(NestedExample(q), false) == 1 && ItemsHeight(NestedExample(q)) == 7
  {
    var last := Last(NoMore);
    var inner := Inner(q, last, NoMore);
    assert ItemsHeight(last) == 2 && BodyHeight(inner) == 3 && ItemsPops(last, false) == 0 && BodyPops(inner) == 0;
    assert ItemsPops(last, true) == 0;
    assert ProperBody(inner);
  }

  /** Behind such a collection, a component's inner component is put beside it instead of into it. */
  lemma NestedCollectionMovesComponent(a: string, b: string, typeName: string, p: string, q: string)
    requires Word(a) && Word(b) && Word(typeName)
    ensures var inner := Object("object", b, typeName, Done, Done);
            var f := Object("object", a, typeName, Collection(p, NestedExample(q), inner), Done);
            && Edges(f, File, 1) == [Edge(File, Component(a, 1)), Edge(Component(a, 1), Component(b, 10))]
            && Run(START, Print(f, ""), 1).edges == [Edge(File, Component(a, 1)), Edge(File, Component(b, 10))]
  {
    hide Run, Print, ItemsPops, ItemsHeight, ProperItems;
    var inner := Object("object", b, typeName, Done, Done);
    var g := Collection(p, NestedExample(q), inner);
    var f := Object("object", a, typeName, g, Done);
    ExampleIsUntamed(q);
    assert WellFormed(inner) && WellFormed(f);
    RunForm(START, f, "", 1);
    var id := Component(a, 1);
    assert Drop([File] + [id], 1) == [File];
    assert EdgesRead(inner, [File], 10) == [Edge(File, Component(b, 10))];
    assert Edges(inner, id, 10) == [Edge(id, Component(b, 10))];
    assert EdgesRead(g, [File] + [id], 2) == EdgesRead(inner, [File], 10);
    assert Edges(g, id, 2) == Edges(inner, id, 10);
    assert EdgesRead(f, [File], 1) == [Edge(File, id)] + (EdgesRead(g, [File] + [id], 2) + []);
    assert START.edges + EdgesRead(f, [File], 1) == EdgesRead(f, [File], 1);
  }

  /** At the end of a component it does no harm. */
  lemma NestedCollectionAtEnd(a: string, typeName: string, p: string, q: string)
    ensures var f := Object("object", a, typeName, Collection(p, NestedExample(q), Done), Done);
            RightTop(f) && !Tame(f)
  {
    ExampleIsUntamed(q);
    assert Right(Collection(p, NestedExample(q), Done));
  }
}
