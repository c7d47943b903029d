/** The edge table: identity-deduplicating inserts, singly, filtered by endpoint, or in greedy multi-row batches. */
module EdgeStore {
  import opened Common

  datatype Edge = Edge(source: string, target: string, kind: string, metadata: string, line: Option<int>, col: Option<int>)

  /** The expression the unique index is built on: absent coordinates count as -1. */
  datatype Identity = Identity(source: string, target: string, kind: string, line: int, col: int)

  datatype EdgeRow = EdgeRow(id: nat, edge: Edge)

  function OrMinusOne(x: Option<int>): int {
    if x.Some? then x.value else -1
  }

  function IdentityOf(e: Edge): Identity {
    Identity(e.source, e.target, e.kind, OrMinusOne(e.line), OrMinusOne(e.col))
  }

  /** Coordinates the index does not tell apart: an absent one is -1. */
  ghost predicate SamePlace(x: Option<int>, y: Option<int>) {
    x == y || (x == None && y == Some(-1)) || (x == Some(-1) && y == None)
  }

  /** Which edges count as one. */
  lemma IdentityTellsApart(a: Edge, b: Edge)
    ensures IdentityOf(a) == IdentityOf(b) <==>
            a.source == b.source && a.target == b.target && a.kind == b.kind && SamePlace(a.line, b.line) && SamePlace(a.col, b.col)
  {
  }

  predicate Holds(rows: seq<EdgeRow>, key: Identity) {
    exists r | r in rows :: IdentityOf(r.edge) == key
  }

  /** The table with its AUTOINCREMENT counter. */
  datatype Table = Table(rows: seq<EdgeRow>, nextId: nat) {

    /** One row of `INSERT OR IGNORE`: the first edge of an identity wins; an ignored one uses up an id all the same. */
    function InsertOrIgnore(e: Edge): Table {
      Table(if Holds(rows, IdentityOf(e)) then rows else rows + [EdgeRow(nextId, e)], nextId + 1)
    }

    ghost predicate Valid() {
      && (forall i, j | 0 <= i < j < |rows| :: IdentityOf(rows[i].edge) != IdentityOf(rows[j].edge))
      && (forall i, j | 0 <= i < j < |rows| :: rows[i].id < rows[j].id)
      && (forall i | 0 <= i < |rows| :: rows[i].id < nextId)
    }
  }

  function InsertAll(t: Table, edges: seq<Edge>): Table {
    if edges == [] then t else InsertAll(t, edges[..|edges| - 1]).InsertOrIgnore(edges[|edges| - 1])
  }

  lemma {:induction false} InsertConcat(t: Table, a: seq<Edge>, b: seq<Edge>)
    ensures InsertAll(t, a + b) == InsertAll(InsertAll(t, a), b)
  {
    if b == [] {
      assert a + b == a;
    } else {
      assert (a + b)[..|a + b| - 1] == a + b[..|b| - 1];
      InsertConcat(t, a, b[..|b| - 1]);
    }
  }

  lemma HoldsMore(rows: seq<EdgeRow>, r: EdgeRow, key: Identity)
    ensures Holds(rows + [r], key) <==> Holds(rows, key) || IdentityOf(r.edge) == key
  {
    if Holds(rows, key) {
      var q :| q in rows && IdentityOf(q.edge) == key;
      assert q in rows + [r];
    }
    assert r in rows + [r];
  }

  ghost predicate FirstAt(edges: seq<Edge>, i: nat)
    requires i < |edges|
  {
    forall j | 0 <= j < i :: IdentityOf(edges[j]) != IdentityOf(edges[i])
  }

  ghost predicate IsFirst(edges: seq<Edge>, e: Edge) {
    exists i :: 0 <= i < |edges| && edges[i] == e && FirstAt(edges, i)
  }

  lemma FirstMore(edges: seq<Edge>, e: Edge, x: Edge)
    requires IsFirst(edges, x)
    ensures IsFirst(edges + [e], x)
  {
    var i :| 0 <= i < |edges| && edges[i] == x && FirstAt(edges, i);
    assert FirstAt(edges + [e], i);
  }

  lemma InsertKeepsValid(t: Table, e: Edge)
    requires t.Valid()
    ensures t.InsertOrIgnore(e).Valid()
  {
    assert forall i | 0 <= i < |t.rows| :: t.rows[i] in t.rows;
  }

  ghost predicate Named(edges: seq<Edge>, key: Identity) {
    exists e :: e in edges && IdentityOf(e) == key
  }

  lemma NamedMore(edges: seq<Edge>, e: Edge, key: Identity)
    ensures Named(edges + [e], key) <==> Named(edges, key) || IdentityOf(e) == key
  {
    if Named(edges, key) {
      var x :| x in edges && IdentityOf(x) == key;
      assert x in edges + [e];
    }
    assert e in edges + [e];
  }

  /** The identities after inserting a list are those of the old rows and those of the list. */
  lemma {:induction false} InsertedIdentities(t: Table, edges: seq<Edge>, key: Identity)
    ensures Holds(InsertAll(t, edges).rows, key) <==> Holds(t.rows, key) || Named(edges, key)
  {
    if edges != [] {
      var before, e := edges[..|edges| - 1], edges[|edges| - 1];
      assert edges == before + [e];
      InsertedIdentities(t, before, key);
      NamedMore(before, e, key);
      var m := InsertAll(t, before);
      HoldsMore(m.rows, EdgeRow(m.nextId, e), key);
    }
  }

  /** The first edge of an identity wins: inserting a list, whatever the statements it is split into, leaves the old
      rows in place, keeps identities unique and ids ascending, and every new row is the first edge of its identity. */
  lemma {:induction false} FirstWins(t: Table, edges: seq<Edge>)
    requires t.Valid()
    ensures var r := InsertAll(t, edges);
            && r.Valid() && t.rows <= r.rows && t.nextId <= r.nextId
            && forall k | |t.rows| <= k < |r.rows| :: IsFirst(edges, r.rows[k].edge)
  {
    if edges != [] {
      var before, e := edges[..|edges| - 1], edges[|edges| - 1];
      assert edges == before + [e];
      FirstWins(t, before);
      var m, r := InsertAll(t, before), InsertAll(t, edges);
      InsertKeepsValid(m, e);
      forall k | |t.rows| <= k < |r.rows|
        ensures IsFirst(edges, r.rows[k].edge)
      {
        if k < |m.rows| {
          FirstMore(before, e, m.rows[k].edge);
        } else {
          InsertedIdentities(t, before, IdentityOf(e));
          assert FirstAt(edges, |before|) by {
            assert forall j | 0 <= j < |before| :: before[j] in before;
          }
        }
      }
    }
  }

  /** The edge at place `i`, as the row it becomes: every edge before it has used up an id, stored or not. */
  ghost predicate RowFrom(t: Table, edges: seq<Edge>, r: EdgeRow, i: nat) {
    i < |edges| && r == EdgeRow(t.nextId + i, edges[i]) && FirstAt(edges, i)
  }

  ghost predicate FromSome(t: Table, edges: seq<Edge>, r: EdgeRow) {
    exists i: nat :: RowFrom(t, edges, r, i)
  }

  lemma FromMore(t: Table, edges: seq<Edge>, e: Edge, r: EdgeRow)
    requires FromSome(t, edges, r)
    ensures FromSome(t, edges + [e], r)
  {
    var i: nat :| RowFrom(t, edges, r, i);
    assert FirstAt(edges + [e], i) by {
      assert forall j | 0 <= j <= i :: (edges + [e])[j] == edges[j];
    }
    assert RowFrom(t, edges + [e], r, i);
  }

  /** Which rows are new, with their ids. */
  lemma {:induction false} NewRows(t: Table, edges: seq<Edge>)
    ensures InsertAll(t, edges).nextId == t.nextId + |edges|
    ensures |t.rows| <= |InsertAll(t, edges).rows|
    ensures forall k | |t.rows| <= k < |InsertAll(t, edges).rows| :: FromSome(t, edges, InsertAll(t, edges).rows[k])
  {
    if edges != [] {
      hide FromSome;
      var before, e := edges[..|edges| - 1], edges[|edges| - 1];
      assert edges == before + [e];
      NewRows(t, before);
      var m, r := InsertAll(t, before), InsertAll(t, edges);
      forall k | |t.rows| <= k < |r.rows|
        ensures FromSome(t, edges, r.rows[k])
      {
        if k < |m.rows| {
          FromMore(t, before, e, m.rows[k]);
        } else {
          NewRow(t, before, e, m);
        }
      }
    }
  }

  lemma NewRow(t: Table, before: seq<Edge>, e: Edge, m: Table)
    requires m == InsertAll(t, before) && m.nextId == t.nextId + |before| && !Holds(m.rows, IdentityOf(e))
    ensures FromSome(t, before + [e], EdgeRow(m.nextId, e))
  {
    InsertedIdentities(t, before, IdentityOf(e));
    assert FirstAt(before + [e], |before|) by {
      assert forall j | 0 <= j < |before| :: before[j] in before;
    }
    assert RowFrom(t, before + [e], EdgeRow(m.nextId, e), |before|);
  }

  // ----- Greedy batches -----

  const BATCH_SIZES: seq<nat> := [128, 32, 8, 1]

  function Flatten<T>(batches: seq<seq<T>>): seq<T> {
    if batches == [] then [] else Flatten(batches[..|batches| - 1]) + batches[|batches| - 1]
  }

  lemma FlattenNone<T>()
    ensures Flatten<T>([]) == []
  {
  }

  lemma FlattenMore<T>(batches: seq<seq<T>>, batch: seq<T>)
    ensures Flatten(batches + [batch]) == Flatten(batches) + batch
  {
    assert (batches + [batch])[..|batches|] == batches;
  }

  /** How many batches of one size come off `n` rows, and what is left. */
  function Taken(n: nat, size: nat): nat
    requires size > 0
  {
    if n < size then 0 else 1 + Taken(n - size, size)
  }

  function Left(n: nat, size: nat): nat
    requires size > 0
  {
    if n < size then n else Left(n - size, size)
  }

  lemma {:induction false} TakenIsQuotient(n: nat, size: nat)
    requires size in BATCH_SIZES
    ensures Taken(n, size) == n / size && Left(n, size) == n % size
  {
    if n >= size {
      TakenIsQuotient(n - size, size);
      assert size == 128 || size == 32 || size == 8 || size == 1;
    }
  }

  /** The rows left over once every batch of the first `s` sizes has been taken. */
  function Leftover(n: nat, s: nat): nat
    requires s <= 4
  {
    if s == 0 then n else Left(Leftover(n, s - 1), BATCH_SIZES[s - 1])
  }

  /** The statements spent on the first `s` sizes. */
  function Spent(n: nat, s: nat): nat
    requires s <= 4
  {
    if s == 0 then 0 else Spent(n, s - 1) + Taken(Leftover(n, s - 1), BATCH_SIZES[s - 1])
  }

  lemma SpentBound(n: nat)
    ensures Spent(n, 4) == n / 128 + n % 128 / 32 + n % 128 % 32 / 8 + n % 128 % 32 % 8
    ensures Spent(n, 4) <= n / 128 + 13 && Leftover(n, 4) == 0
  {
    TakenIsQuotient(n, 128);
    assert Leftover(n, 1) == n % 128 && Spent(n, 1) == n / 128;
    TakenIsQuotient(n % 128, 32);
    assert Leftover(n, 2) == n % 128 % 32 && Spent(n, 2) == Spent(n, 1) + n % 128 / 32;
    TakenIsQuotient(n % 128 % 32, 8);
    assert Leftover(n, 3) == n % 128 % 32 % 8 && Spent(n, 3) == Spent(n, 2) + n % 128 % 32 / 8;
    TakenIsQuotient(n % 128 % 32 % 8, 1);
  }

  lemma NothingSpent(n: nat)
    ensures Leftover(n, 0) == n && Spent(n, 0) == 0
  {
  }

  lemma NextSize(n: nat, s: nat)
    requires s < 4
    ensures Leftover(n, s + 1) == Left(Leftover(n, s), BATCH_SIZES[s])
    ensures Spent(n, s + 1) == Spent(n, s) + Taken(Leftover(n, s), BATCH_SIZES[s])
  {
  }

  lemma TakeOne(n: nat, size: nat)
    requires 0 < size <= n
    ensures Taken(n, size) == 1 + Taken(n - size, size) && Left(n, size) == Left(n - size, size)
  {
  }

  lemma TakeNone(n: nat, size: nat)
    requires n < size
    ensures Taken(n, size) == 0 && Left(n, size) == n
  {
  }

  /** Splits rows into statements of 128, 32, 8 and 1 rows, largest first. */
  method RunBatched<T>(rows: seq<T>) returns (statements: seq<seq<T>>)
    ensures Flatten(statements) == rows
    ensures forall k | 0 <= k < |statements| :: |statements[k]| in [128, 32, 8, 1]
    ensures |statements| == Spent(|rows|, 4) <= |rows| / 128 + 13
  {
    hide Flatten, Taken, Left, Leftover, Spent;
    SpentBound(|rows|);
    NothingSpent(|rows|);
    statements := [];
    FlattenNone<T>();
    if |rows| == 0 {
      return;
    }
    var i := 0;
    for s := 0 to 4
      invariant 0 <= i <= |rows|
      invariant Flatten(statements) == rows[..i]
      invariant forall k | 0 <= k < |statements| :: |statements[k]| in BATCH_SIZES
      invariant |rows| - i == Leftover(|rows|, s)
      invariant |statements| == Spent(|rows|, s)
    {
      var size := BATCH_SIZES[s];
      ghost var taken, spent := 0, |statements|;
      while |rows| - i >= size
        invariant 0 <= i <= |rows|
        invariant Flatten(statements) == rows[..i]
        invariant forall k | 0 <= k < |statements| :: |statements[k]| in BATCH_SIZES
        invariant Left(|rows| - i, size) == Left(Leftover(|rows|, s), size)
        invariant taken + Taken(|rows| - i, size) == Taken(Leftover(|rows|, s), size)
        invariant |statements| == spent + taken
      {
        var batch := rows[i..i + size];
        TakeOne(|rows| - i, size);
        FlattenMore(statements, batch);
        assert rows[..i] + batch == rows[..i + size];
        assert size in BATCH_SIZES;
        statements := statements + [batch];
        i := i + size;
        taken := taken + 1;
      }
      TakeNone(|rows| - i, size);
      NextSize(|rows|, s);
    }
    assert rows[..|rows|] == rows;
  }

  /** Executing batches of rows in order is inserting the concatenation. */
  function InsertStatements(t: Table, statements: seq<seq<Edge>>): Table {
    if statements == [] then t
    else InsertAll(InsertStatements(t, statements[..|statements| - 1]), statements[|statements| - 1])
  }

  lemma {:induction false} StatementsInsertAll(t: Table, statements: seq<seq<Edge>>)
    ensures InsertStatements(t, statements) == InsertAll(t, Flatten(statements))
  {
    if statements != [] {
      var before := statements[..|statements| - 1];
      StatementsInsertAll(t, before);
      InsertConcat(t, Flatten(before), statements[|statements| - 1]);
    }
  }

  // ----- The writers -----

  const CHUNK := 500

  ghost predicate EndpointsExist(edges: seq<Edge>, nodes: set<string>) {
    forall e | e in edges :: e.source in nodes && e.target in nodes
  }

  /** The edges whose two ends are stored nodes. */
  function Connected(edges: seq<Edge>, nodes: set<string>): seq<Edge> {
    if edges == [] then []
    else
      var last := edges[|edges| - 1];
      Connected(edges[..|edges| - 1], nodes) + if last.source in nodes && last.target in nodes then [last] else []
  }

  lemma {:induction false} AllConnected(edges: seq<Edge>, nodes: set<string>)
    requires EndpointsExist(edges, nodes)
    ensures Connected(edges, nodes) == edges
  {
    if edges != [] {
      var before, last := edges[..|edges| - 1], edges[|edges| - 1];
      assert last in edges && EndpointsExist(before, nodes);
      AllConnected(before, nodes);
      assert before + [last] == edges;
    }
  }

  lemma ConnectedStep(t: Table, edges: seq<Edge>, k: nat, nodes: set<string>)
    requires k < |edges|
    ensures var done := InsertAll(t, Connected(edges[..k], nodes));
            InsertAll(t, Connected(edges[..k + 1], nodes)) ==
            if edges[k].source in nodes && edges[k].target in nodes then done.InsertOrIgnore(edges[k]) else done
  {
    assert edges[..k + 1][..k] == edges[..k];
    var done := Connected(edges[..k], nodes);
    assert (done + [edges[k]])[..|done|] == done;
    assert edges[..k + 1][k] == edges[k];
    assert done + [] == done;
  }

  class Edges {
    var nodes: set<string>
    var table: Table

    constructor (nodes: set<string>)
      ensures this.nodes == nodes && table == Table([], 1)
    {
      this.nodes, table := nodes, Table([], 1);
    }

    /** The foreign keys make inserting an edge without its nodes an error, which IGNORE does not cover. */
    method InsertEdge(e: Edge) returns (ok: bool)
      modifies this`table
      ensures ok <==> e.source in nodes && e.target in nodes
      ensures table == if ok then old(table).InsertOrIgnore(e) else old(table)
    {
      if e.source !in nodes || e.target !in nodes {
        return false;
      }
      table := table.InsertOrIgnore(e);
      return true;
    }

    /** One multi-row statement; its rows are tried in order. */
    method InsertMany(batch: seq<Edge>)
      requires EndpointsExist(batch, nodes)
      modifies this`table
      ensures table == InsertAll(old(table), batch)
    {
      for k := 0 to |batch|
        invariant table == InsertAll(old(table), batch[..k])
      {
        assert batch[..k + 1][..k] == batch[..k];
        table := table.InsertOrIgnore(batch[k]);
      }
      assert batch[..|batch|] == batch;
    }

    /** The bundle path: edges already filtered by the caller, inserted in greedy batches. */
    method InsertBatched(edges: seq<Edge>) returns (statements: seq<seq<Edge>>)
      requires EndpointsExist(edges, nodes)
      modifies this`table
      ensures table == InsertAll(old(table), edges)
      ensures |statements| <= |edges| / 128 + 13
    {
      statements := RunBatched(edges);
      for k := 0 to |statements|
        invariant table == InsertStatements(old(table), statements[..k])
      {
        assert statements[..k + 1][..k] == statements[..k];
        assert EndpointsExist(statements[k], nodes) by {
          forall e | e in statements[k] ensures e in edges { FlattenHolds(statements, k, e); }
        }
        InsertMany(statements[k]);
      }
      assert statements[..|statements|] == statements;
      StatementsInsertAll(old(table), statements);
    }

    method GetExistingNodeIds(ids: seq<string>) returns (found: set<string>)
      ensures found == set id | id in ids && id in nodes
    {
      found := {};
      var i := 0;
      while i < |ids|
        invariant 0 <= i
        invariant found == set id | id in (if i <= |ids| then ids[..i] else ids) && id in nodes
      {
        var end := if i + CHUNK <= |ids| then i + CHUNK else |ids|;
        assert ids[..end] == ids[..i] + ids[i..end] && end - i <= 500;
        found := found + set id | id in ids[i..end] && id in nodes;
        i := i + CHUNK;
        assert ids[..|ids|] == ids;
      }
    }

    /** The general path: looks the endpoints up and skips every edge with a missing one. */
    method InsertEdges(edges: seq<Edge>)
      modifies this`table
      ensures table == InsertAll(old(table), Connected(edges, nodes))
    {
      if |edges| == 0 {
        return;
      }
      var endpoints: seq<string> := [];
      for k := 0 to |edges|
        invariant forall e | e in edges[..k] :: e.source in endpoints && e.target in endpoints
      {
        endpoints := endpoints + [edges[k].source, edges[k].target];
      }
      assert edges[..|edges|] == edges;
      var existing := GetExistingNodeIds(endpoints);
      for k := 0 to |edges|
        invariant table == InsertAll(old(table), Connected(edges[..k], nodes))
      {
        var e := edges[k];
        assert e in edges;
        ConnectedStep(old(table), edges, k, nodes);
        if e.source !in existing || e.target !in existing {
          continue;
        }
        var _ := InsertEdge(e);
      }
      assert edges[..|edges|] == edges;
    }
  }

  lemma {:induction false} FlattenHolds<T>(batches: seq<seq<T>>, k: nat, x: T)
    requires k < |batches| && x in batches[k]
    ensures x in Flatten(batches)
  {
    if k < |batches| - 1 {
      FlattenHolds(batches[..|batches| - 1], k, x);
    }
  }

  /** The two paths give the same table - same rows, same ids - when every endpoint is stored. */
  method SameTable(nodes: set<string>, edges: seq<Edge>) returns (batched: Table, filtered: Table)
    requires EndpointsExist(edges, nodes)
    ensures batched == filtered == InsertAll(Table([], 1), edges)
  {
    var a := new Edges(nodes);
    var b := new Edges(nodes);
    var _ := a.InsertBatched(edges);
    b.InsertEdges(edges);
    AllConnected(edges, nodes);
    batched, filtered := a.table, b.table;
  }
}
