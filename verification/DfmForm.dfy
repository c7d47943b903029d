/** The line parser for Delphi form files: a stack machine over object, event and end lines. */
module DfmForm {
  import opened Common
  import opened Text

  // ----- Recognising lines -----

  predicate IsWordChar(c: char) {
    'A' <= c <= 'Z' || 'a' <= c <= 'z' || '0' <= c <= '9' || c == '_'
  }

  function WordRun(s: string): (n: nat)
    ensures n <= |s|
  {
    if s != "" && IsWordChar(s[0]) then 1 + WordRun(s[1..]) else 0
  }

  /** `/=\s*\(\s*$/` and `/=\s*<\s*$/`, for the given opening character. */
  predicate OpensMultiLine(line: string, open: char) {
    var t := TrimEnd(line);
    t != "" && t[|t| - 1] == open &&
    var u := TrimEnd(t[..|t| - 1]);
    u != "" && u[|u| - 1] == '='
  }

  predicate ClosesMultiLine(line: string, close: char) {
    var t := TrimEnd(line);
    t != "" && t[|t| - 1] == close
  }

  const KEYWORDS: seq<string> := ["object", "inherited", "inline"]

  /** `/^\s*(object|inherited|inline)\s+(\w+)\s*:\s*(\w+)/`: the component's name and type. */
  function ObjectLine(line: string): Option<(string, string)> {
    var s := TrimStart(line);
    if KEYWORDS[0] <= s then Declaration(s[|KEYWORDS[0]|..])
    else if KEYWORDS[1] <= s then Declaration(s[|KEYWORDS[1]|..])
    else if KEYWORDS[2] <= s then Declaration(s[|KEYWORDS[2]|..])
    else None
  }

  function Declaration(rest: string): Option<(string, string)> {
    if rest == "" || !IsSpace(rest[0]) then None
    else
      var s := TrimStart(rest);
      var n := WordRun(s);
      var t := TrimStart(s[n..]);
      if n == 0 || t == "" || t[0] != ':' then None
      else
        var u := TrimStart(t[1..]);
        var m := WordRun(u);
        if m == 0 then None else Some((s[..n], u[..m]))
  }

  /** `/^\s*(On\w+)\s*=\s*(\w+)\s*$/`: the handler's name. */
  function EventLine(line: string): Option<string> {
    var s := TrimStart(line);
    var n := WordRun(s);
    if n < 3 || s[0] != 'O' || s[1] != 'n' then None else Handler(s[n..])
  }

  function Handler(rest: string): Option<string> {
    var t := TrimStart(rest);
    if t == "" || t[0] != '=' then None
    else
      var u := TrimStart(t[1..]);
      var m := WordRun(u);
      if m == 0 || TrimStart(u[m..]) != "" then None else Some(u[..m])
  }

  predicate EndLine(line: string) {
    Trim(line) == "end"
  }

  // ----- The stack machine -----

  /** The file, or the component declared at a line. */
  datatype Id = File | Component(name: string, line: nat)

  datatype Node = Node(id: Id, typeName: string)

  datatype Edge = Edge(source: Id, target: Id)

  datatype Ref = Ref(from: Id, name: string, line: nat)

  datatype State = State(stack: seq<Id>, nodes: seq<Node>, edges: seq<Edge>, refs: seq<Ref>, skipTo: Option<char>) {
    function Top(): Id
      requires stack != []
    {
      stack[|stack| - 1]
    }
  }

  function Step(s: State, line: string, n: nat): State
    requires s.stack != []
  {
    if s.skipTo.Some? then
      if ClosesMultiLine(line, s.skipTo.value) then s.(skipTo := None) else s
    else if OpensMultiLine(line, '(') then s.(skipTo := Some(')'))
    else if OpensMultiLine(line, '<') then s.(skipTo := Some('>'))
    else if ObjectLine(line).Some? then
      var (name, typeName) := ObjectLine(line).value;
      var id := Component(name, n);
      s.(stack := s.stack + [id], nodes := s.nodes + [Node(id, typeName)], edges := s.edges + [Edge(s.Top(), id)])
    else if EventLine(line).Some? then s.(refs := s.refs + [Ref(s.Top(), EventLine(line).value, n)])
    else if EndLine(line) && |s.stack| > 1 then s.(stack := s.stack[..|s.stack| - 1])
    else s
  }

  lemma StepKeepsBottom(s: State, line: string, n: nat)
    requires s.stack != []
    ensures Step(s, line, n).stack != [] && Step(s, line, n).stack[0] == s.stack[0]
  {
  }

  /** Lines `n`, `n + 1`, ... in turn. */
  function Run(s: State, lines: seq<string>, n: nat): (r: State)
    requires s.stack != []
    ensures r.stack != []
    decreases |lines|
  {
    StepKeepsBottom(s, if lines == [] then "" else lines[0], n);
    if lines == [] then s else Run(Step(s, lines[0], n), lines[1..], n + 1)
  }

  const START := State([File], [], [], [], None)

  lemma {:induction false} RunConcat(s: State, a: seq<string>, b: seq<string>, n: nat)
    requires s.stack != []
    ensures Run(s, a + b, n) == Run(Run(s, a, n), b, n + |a|)
    decreases |a|
  {
    if a == [] {
      assert a + b == b;
    } else {
      StepKeepsBottom(s, a[0], n);
      assert (a + b)[1..] == a[1..] + b;
      RunConcat(Step(s, a[0], n), a[1..], b, n + 1);
    }
  }

  class DfmExtractor {
    var nodes: seq<Node>
    var edges: seq<Edge>
    var unresolvedReferences: seq<Ref>

    constructor ()
      ensures nodes == [] && edges == [] && unresolvedReferences == []
    {
      nodes, edges, unresolvedReferences := [], [], [];
    }

    method ParseComponents(lines: seq<string>)
      requires nodes == [] && edges == [] && unresolvedReferences == []
      modifies this
      ensures var r := Run(START, lines, 1);
              nodes == r.nodes && edges == r.edges && unresolvedReferences == r.refs
    {
      var stack := [File];
      var inMultiLine := false;
      var multiLineEndChar := ')';
      for i := 0 to |lines|
        invariant stack != []
        invariant Run(State(stack, nodes, edges, unresolvedReferences, if inMultiLine then Some(multiLineEndChar) else None),
                      lines[i..], i + 1) == Run(START, lines, 1)
      {
        var line := lines[i];
        assert lines[i..][0] == line && lines[i..][1..] == lines[i + 1..];
        if inMultiLine {
          if ClosesMultiLine(line, multiLineEndChar) {
            inMultiLine := false;
          }
          continue;
        }
        if OpensMultiLine(line, '(') {
          inMultiLine, multiLineEndChar := true, ')';
          continue;
        }
        if OpensMultiLine(line, '<') {
          inMultiLine, multiLineEndChar := true, '>';
          continue;
        }
        var declared := ObjectLine(line);
        if declared.Some? {
          var (name, typeName) := declared.value;
          var nodeId := Component(name, i + 1);
          nodes := nodes + [Node(nodeId, typeName)];
          edges := edges + [Edge(stack[|stack| - 1], nodeId)];
          stack := stack + [nodeId];
          continue;
        }
        var event := EventLine(line);
        if event.Some? {
          unresolvedReferences := unresolvedReferences + [Ref(stack[|stack| - 1], event.value, i + 1)];
          continue;
        }
        if EndLine(line) {
          if |stack| > 1 {
            stack := stack[..|stack| - 1];
          }
        }
      }
    }
  }

  // ----- Any input: a tree -----

  /** `id` is the file or one of the first `k` components. */
  ghost predicate Known(nodes: seq<Node>, k: nat, id: Id) {
    id == File || exists j :: 0 <= j < k && j < |nodes| && nodes[j].id == id
  }

  /** The `contains` edges form a tree rooted at the file: there is one edge into each component, in order, and it
      comes from the file or a component declared earlier. */
  ghost predicate TreeShaped(nodes: seq<Node>, edges: seq<Edge>) {
    && |edges| == |nodes|
    && (forall i | 0 <= i < |nodes| :: edges[i].target == nodes[i].id)
    && (forall i | 0 <= i < |nodes| :: Known(nodes, i, edges[i].source))
    && (forall i, j | 0 <= i < j < |nodes| :: nodes[i].id != nodes[j].id)
  }

  /** The stack is a path of the tree from the file down. */
  ghost predicate StackIsPath(s: State) {
    && s.stack != [] && s.stack[0] == File
    && (forall k | 0 <= k < |s.stack| :: Known(s.nodes, |s.nodes|, s.stack[k]))
    && (forall k | 1 <= k < |s.stack| :: Edge(s.stack[k - 1], s.stack[k]) in s.edges)
  }

  ghost predicate Inv(s: State, n: nat) {
    && StackIsPath(s)
    && TreeShaped(s.nodes, s.edges)
    && (forall i | 0 <= i < |s.nodes| :: s.nodes[i].id.Component? && s.nodes[i].id.line < n)
    && (forall i | 0 <= i < |s.refs| :: Known(s.nodes, |s.nodes|, s.refs[i].from))
  }

  lemma KnownMore(nodes: seq<Node>, k: nat, node: Node, id: Id, m: nat)
    requires Known(nodes, k, id) && k <= m
    ensures Known(nodes + [node], m, id)
  {
    if id != File {
      var j :| 0 <= j < k && j < |nodes| && nodes[j].id == id;
      assert (nodes + [node])[j].id == id;
    }
  }

  lemma DeclareKeepsTree(s: State, node: Node, n: nat)
    requires Inv(s, n) && node.id.Component? && node.id.line == n
    ensures TreeShaped(s.nodes + [node], s.edges + [Edge(s.Top(), node.id)])
  {
    var nodes, edges := s.nodes + [node], s.edges + [Edge(s.Top(), node.id)];
    forall i | 0 <= i < |nodes|
      ensures Known(nodes, i, edges[i].source)
    {
      if i < |s.nodes| {
        KnownMore(s.nodes, i, node, s.edges[i].source, i);
      } else {
        KnownMore(s.nodes, |s.nodes|, node, s.Top(), i);
      }
    }
  }

  lemma DeclareKeepsPath(s: State, node: Node)
    requires StackIsPath(s)
    ensures StackIsPath(s.(stack := s.stack + [node.id], nodes := s.nodes + [node], edges := s.edges + [Edge(s.Top(), node.id)]))
  {
    var s' := s.(stack := s.stack + [node.id], nodes := s.nodes + [node], edges := s.edges + [Edge(s.Top(), node.id)]);
    forall k | 0 <= k < |s'.stack|
      ensures Known(s'.nodes, |s'.nodes|, s'.stack[k])
    {
      if k < |s.stack| {
        KnownMore(s.nodes, |s.nodes|, node, s.stack[k], |s'.nodes|);
      } else {
        assert s'.nodes[|s.nodes|].id == node.id;
      }
    }
  }

  lemma StepKeepsInv(s: State, line: string, n: nat)
    requires Inv(s, n)
    ensures Inv(Step(s, line, n), n + 1)
  {
    var s' := Step(s, line, n);
    if |s'.nodes| > |s.nodes| {
      var node := s'.nodes[|s.nodes|];
      DeclareKeepsTree(s, node, n);
      DeclareKeepsPath(s, node);
      forall i | 0 <= i < |s.refs|
        ensures Known(s'.nodes, |s'.nodes|, s.refs[i].from)
      {
        KnownMore(s.nodes, |s.nodes|, node, s.refs[i].from, |s'.nodes|);
      }
    }
  }

  lemma {:induction false} RunKeepsInv(s: State, lines: seq<string>, n: nat)
    requires Inv(s, n)
    ensures Inv(Run(s, lines, n), n + |lines|)
    decreases |lines|
  {
    if lines != [] {
      StepKeepsInv(s, lines[0], n);
      RunKeepsInv(Step(s, lines[0], n), lines[1..], n + 1);
    }
  }

  /** Whatever the lines are, balanced or not: the stack bottom is the file, the edges are a tree rooted there, and
      every event reference comes from the file or a component. */
  lemma AnyInputGivesTree(lines: seq<string>)
    ensures var r := Run(START, lines, 1);
            && r.stack[0] == File
            && TreeShaped(r.nodes, r.edges)
            && forall i | 0 <= i < |r.refs| :: Known(r.nodes, |r.nodes|, r.refs[i].from)
  {
    RunKeepsInv(START, lines, 1);
  }
}
