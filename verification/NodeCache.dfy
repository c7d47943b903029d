/** The node table of the graph store together with the query builder's bounded, least-recently-used node cache. */
module NodeCache {
  import opened Common

  /** A node as the table returns it; columns no lookup depends on are folded into `detail`. */
  datatype Node = Node(id: string, kind: string, name: string, filePath: string, language: string, detail: string) {
    /** The writers refuse a node without these. */
    predicate Writable() {
      id != "" && kind != "" && name != "" && filePath != "" && language != ""
    }
  }

  type Table = map<string, Node>

  const CHUNK := 500
  const CAPACITY := 1000

  function Lookup(t: Table, id: string): Option<Node> {
    if id in t then Some(t[id]) else None
  }

  function LookupAll(t: Table, ids: seq<string>): map<string, Node> {
    map id | id in ids && id in t :: t[id]
  }

  ghost predicate WellKeyed(t: Table) {
    forall id | id in t :: id != "" && t[id].id == id
  }

  // ----- The store without a cache: what every operation means -----

  datatype Op =
    | InsertNode(node: Node)
    | UpdateNode(node: Node)
    | DeleteNode(id: string)
    | DeleteNodesByFile(path: string)
    | GetNodeById(id: string)
    | GetNodesByIds(ids: seq<string>)
    | ClearCache
    | Begin
    | Commit
    | Rollback

  datatype Answer = Nothing | One(node: Option<Node>) | Many(nodes: map<string, Node>)

  /** The table, its contents at the BEGIN of the open transaction if there is one, and whether that transaction has
      looked up a row it had changed itself. */
  datatype Store = Store(table: Table, saved: Option<Table>, tainted: bool) {

    /** A lookup of `id` would hand out a row that a rollback would take back. */
    predicate Changed(id: string) {
      saved.Some? && id in table && Lookup(saved.value, id) != Some(table[id])
    }

    function Apply(op: Op): Store {
      match op
      case InsertNode(n) => if n.Writable() then this.(table := table[n.id := n]) else this
      case UpdateNode(n) => if n.Writable() && n.id in table then this.(table := table[n.id := n]) else this
      case DeleteNode(id) => this.(table := table - {id})
      case DeleteNodesByFile(path) => this.(table := map id | id in table && table[id].filePath != path :: table[id])
      case GetNodeById(id) => this.(tainted := tainted || Changed(id))
      case GetNodesByIds(ids) => this.(tainted := tainted || exists id | id in ids :: Changed(id))
      case ClearCache => this
      case Begin => if saved.Some? then this else Store(table, Some(table), false)
      case Commit => Store(table, None, false)
      case Rollback => if saved.Some? then Store(saved.value, None, false) else this
    }

    function Answer(op: Op): Answer {
      match op
      case GetNodeById(id) => One(Lookup(table, id))
      case GetNodesByIds(ids) => Many(LookupAll(table, ids))
      case _ => Nothing
    }
  }

  function Answers(s: Store, ops: seq<Op>): seq<Answer>
    decreases |ops|
  {
    if ops == [] then [] else [s.Answer(ops[0])] + Answers(s.Apply(ops[0]), ops[1..])
  }

  function ApplyAll(s: Store, ops: seq<Op>): Store
    decreases |ops|
  {
    if ops == [] then s else ApplyAll(s.Apply(ops[0]), ops[1..])
  }

  /** No transaction that is rolled back has looked up a row it had changed. */
  predicate RollsBackCleanly(s: Store, ops: seq<Op>)
    decreases |ops|
  {
    ops == [] || ((ops[0].Rollback? ==> !s.tainted) && RollsBackCleanly(s.Apply(ops[0]), ops[1..]))
  }

  predicate LooksUp(op: Op) {
    op.GetNodeById? || op.GetNodesByIds?
  }

  /** A run without lookups rolls back cleanly. The store's own transactions (`insertNodes`, `storeFileBundle` and the
      edge and reference batches) are of this kind: they write and never look a node up. */
  lemma {:induction false} WritesRollBackCleanly(s: Store, ops: seq<Op>)
    requires !s.tainted && forall k | 0 <= k < |ops| :: !LooksUp(ops[k])
    ensures RollsBackCleanly(s, ops)
    decreases |ops|
  {
    if ops != [] {
      assert !LooksUp(ops[0]);
      WritesRollBackCleanly(s.Apply(ops[0]), ops[1..]);
    }
  }

  /** A node is refused exactly when one of its five required columns is empty. */
  lemma RefusedExactly(n: Node)
    ensures n.Writable() <==> "" !in [n.id, n.kind, n.name, n.filePath, n.language]
  {
  }

  /** What the writes do to the row of any id. */
  lemma WritesMean(s: Store, n: Node, dropped: string, path: string, id: string)
    ensures Lookup(s.Apply(InsertNode(n)).table, id) == if n.Writable() && id == n.id then Some(n) else Lookup(s.table, id)
    ensures Lookup(s.Apply(UpdateNode(n)).table, id)
         == if n.Writable() && id == n.id && Lookup(s.table, id).Some? then Some(n) else Lookup(s.table, id)
    ensures Lookup(s.Apply(DeleteNode(dropped)).table, id) == if id == dropped then None else Lookup(s.table, id)
    ensures Lookup(s.Apply(DeleteNodesByFile(path)).table, id)
         == if Lookup(s.table, id).Some? && Lookup(s.table, id).value.filePath == path then None else Lookup(s.table, id)
  {
  }

  ghost predicate NoTransactions(ops: seq<Op>) {
    forall k | 0 <= k < |ops| :: !ops[k].Begin? && !ops[k].Commit? && !ops[k].Rollback?
  }

  lemma {:induction false} SavedStays(s: Store, ops: seq<Op>)
    requires NoTransactions(ops)
    ensures ApplyAll(s, ops).saved == s.saved
    decreases |ops|
  {
    if ops != [] {
      assert !ops[0].Begin? && !ops[0].Commit? && !ops[0].Rollback?;
      assert NoTransactions(ops[1..]);
      SavedStays(s.Apply(ops[0]), ops[1..]);
    }
  }

  /** A transaction keeps all it did when it is committed, and leaves nothing when it is rolled back. */
  lemma AllOrNothing(s: Store, ops: seq<Op>)
    requires s.saved.None? && NoTransactions(ops)
    ensures var inside := ApplyAll(s.Apply(Begin), ops);
            && inside.Apply(Commit).table == inside.table && inside.Apply(Commit).saved.None?
            && inside.Apply(Rollback).table == s.table && inside.Apply(Rollback).saved.None?
  {
    SavedStays(s.Apply(Begin), ops);
  }

  // ----- The cache: a JavaScript Map, kept as its entries in insertion order -----

  type Cache = seq<Node>

  function Find(c: Cache, id: string): Option<Node> {
    if c == [] then None else if c[0].id == id then Some(c[0]) else Find(c[1..], id)
  }

  function Without(c: Cache, id: string): Cache {
    if c == [] then [] else (if c[0].id == id then [] else [c[0]]) + Without(c[1..], id)
  }

  function WithoutFile(c: Cache, path: string): Cache {
    if c == [] then [] else (if c[0].filePath == path then [] else [c[0]]) + WithoutFile(c[1..], path)
  }

  /** `Map.set`: an existing key keeps its place, a new one goes to the end. */
  function Put(c: Cache, n: Node): Cache {
    if c == [] then [n]
    else if c[0].id == n.id then [n] + Without(c[1..], n.id)
    else [c[0]] + Put(c[1..], n)
  }

  lemma {:induction false} FindIsEntry(c: Cache, id: string)
    ensures Find(c, id).Some? ==> Find(c, id).value in c && Find(c, id).value.id == id
    ensures Find(c, id).None? ==> forall n | n in c :: n.id != id
  {
    if c != [] {
      FindIsEntry(c[1..], id);
    }
  }

  lemma {:induction false} WithoutRemoves(c: Cache, id: string)
    ensures forall n :: n in Without(c, id) <==> n in c && n.id != id
    ensures |Without(c, id)| <= |c|
    ensures Find(c, id).Some? ==> |Without(c, id)| < |c|
    ensures Find(c, id).None? ==> Without(c, id) == c
  {
    if c != [] {
      WithoutRemoves(c[1..], id);
    }
  }

  lemma {:induction false} WithoutFileRemoves(c: Cache, path: string)
    ensures forall n :: n in WithoutFile(c, path) <==> n in c && n.filePath != path
    ensures |WithoutFile(c, path)| <= |c|
  {
    if c != [] {
      WithoutFileRemoves(c[1..], path);
    }
  }

  lemma {:induction false} PutReplaces(c: Cache, n: Node)
    ensures forall m :: m in Put(c, n) <==> m == n || (m in c && m.id != n.id)
    ensures Find(c, n.id).None? ==> Put(c, n) == c + [n]
  {
    if c != [] {
      WithoutRemoves(c[1..], n.id);
      PutReplaces(c[1..], n);
    }
  }

  ghost predicate DistinctIds(c: Cache) {
    forall i, j | 0 <= i < j < |c| :: c[i].id != c[j].id
  }

  ghost predicate Cached(c: Cache, n: Node) {
    n in c
  }

  ghost predicate CoherentWith(c: Cache, t: Table) {
    forall n {:trigger Cached(c, n)} | Cached(c, n) :: Lookup(t, n.id) == Some(n)
  }

  /** Cached entries that are kept stay coherent as long as their rows do. */
  lemma CoherentSubset(c: Cache, c': Cache, t: Table, t': Table)
    requires CoherentWith(c, t)
    requires forall n | n in c' :: (n in c && Lookup(t, n.id) == Lookup(t', n.id)) || Lookup(t', n.id) == Some(n)
    ensures CoherentWith(c', t')
  {
    forall n | Cached(c', n)
      ensures Lookup(t', n.id) == Some(n)
    {
      assert n in c ==> Cached(c, n);
    }
  }

  /** Moves a hit to the end: delete, then set again. */
  function Touch(c: Cache, n: Node): Cache {
    Without(c, n.id) + [n]
  }

  /** Adds a row just read, evicting the oldest entry when the cache is full. */
  function Add(c: Cache, n: Node): Cache {
    var room := if |c| >= CAPACITY && c[0].id != "" then Without(c, c[0].id) else c;
    Put(room, n)
  }

  lemma DistinctCons(n: Node, rest: Cache)
    requires DistinctIds(rest) && forall m | m in rest :: m.id != n.id
    ensures DistinctIds([n] + rest)
  {
    forall j | 0 <= j < |rest|
      ensures rest[j].id != n.id
    {
      assert rest[j] in rest;
    }
  }

  lemma DistinctUncons(c: Cache)
    requires DistinctIds(c) && c != []
    ensures DistinctIds(c[1..]) && forall m | m in c[1..] :: m.id != c[0].id
  {
  }

  lemma {:induction false} DistinctWithout(c: Cache, id: string)
    requires DistinctIds(c)
    ensures DistinctIds(Without(c, id))
    ensures Find(c, id).Some? ==> |Without(c, id)| == |c| - 1
  {
    if c != [] {
      var rest := Without(c[1..], id);
      DistinctUncons(c);
      hide DistinctIds;
      DistinctWithout(c[1..], id);
      WithoutRemoves(c[1..], id);
      FindIsEntry(c[1..], id);
      if c[0].id == id {
        assert Find(c[1..], id).None?;
      } else {
        DistinctCons(c[0], rest);
      }
    }
  }

  lemma {:induction false} DistinctWithoutFile(c: Cache, path: string)
    requires DistinctIds(c)
    ensures DistinctIds(WithoutFile(c, path))
  {
    if c != [] {
      DistinctUncons(c);
      hide DistinctIds;
      DistinctWithoutFile(c[1..], path);
      WithoutFileRemoves(c[1..], path);
      DistinctCons(c[0], WithoutFile(c[1..], path));
    }
  }

  lemma {:induction false} DistinctPut(c: Cache, n: Node)
    requires DistinctIds(c)
    ensures DistinctIds(Put(c, n))
    ensures |Put(c, n)| == if Find(c, n.id).Some? then |c| else |c| + 1
  {
    if c == [] {
    } else if c[0].id == n.id {
      FindIsEntry(c[1..], n.id);
      WithoutRemoves(c[1..], n.id);
    } else {
      DistinctUncons(c);
      hide DistinctIds;
      DistinctPut(c[1..], n);
      PutReplaces(c[1..], n);
      DistinctCons(c[0], Put(c[1..], n));
    }
  }

  lemma TouchBounds(c: Cache, n: Node)
    requires DistinctIds(c) && Find(c, n.id).Some?
    ensures DistinctIds(Touch(c, n)) && |Touch(c, n)| == |c|
    ensures forall m :: m in Touch(c, n) <==> m == n || (m in c && m.id != n.id)
  {
    DistinctWithout(c, n.id);
    WithoutRemoves(c, n.id);
  }

  lemma AddBounds(c: Cache, n: Node)
    requires DistinctIds(c) && |c| <= 1000 && forall m | m in c :: m.id != ""
    ensures DistinctIds(Add(c, n)) && |Add(c, n)| <= 1000
    ensures forall m :: m in Add(c, n) ==> m == n || (m in c && m.id != n.id)
  {
    if |c| >= CAPACITY {
      var room := Without(c, c[0].id);
      assert c[0] in c;
      DistinctWithout(c, c[0].id);
      WithoutRemoves(c, c[0].id);
      DistinctPut(room, n);
      PutReplaces(room, n);
    } else {
      DistinctPut(c, n);
      PutReplaces(c, n);
    }
  }

  // ----- The cache as `getNodesByIds` leaves it -----

  function TouchHits(c: Cache, ids: seq<string>): Cache {
    if ids == [] then c
    else
      var before := TouchHits(c, ids[..|ids| - 1]);
      var hit := Find(before, ids[|ids| - 1]);
      if hit.Some? then Touch(before, hit.value) else before
  }

  function AddAll(c: Cache, rows: seq<Node>): Cache {
    if rows == [] then c else Add(AddAll(c, rows[..|rows| - 1]), rows[|rows| - 1])
  }

  lemma {:induction false} AddAllConcat(c: Cache, a: seq<Node>, b: seq<Node>)
    ensures AddAll(AddAll(c, a), b) == AddAll(c, a + b)
  {
    if b == [] {
      assert a + b == a;
    } else {
      assert (a + b)[..|a + b| - 1] == a + b[..|b| - 1];
      AddAllConcat(c, a, b[..|b| - 1]);
    }
  }

  /** What every operation keeps: distinct cache keys, the size bound, tables keyed by id, and every cached node
      equal to its row - in the open transaction's table and, until it has looked up a change of its own, in the
      table a rollback would restore. */
  ghost predicate Sound(s: Store, c: Cache) {
    && DistinctIds(c) && |c| <= 1000
    && WellKeyed(s.table)
    && CoherentWith(c, s.table)
    && (s.saved.Some? ==> WellKeyed(s.saved.value) && (!s.tainted ==> CoherentWith(c, s.saved.value)))
  }

  lemma TaintKeepsSound(s: Store, c: Cache, op: Op)
    requires Sound(s, c) && op.GetNodesByIds?
    ensures Sound(s.Apply(op), c) && WellKeyed(s.table)
  {
  }

  lemma FindCoherent(c: Cache, t: Table, id: string)
    requires CoherentWith(c, t)
    ensures Find(c, id).Some? ==> Find(c, id) == Lookup(t, id)
  {
    FindIsEntry(c, id);
    if Find(c, id).Some? {
      assert Cached(c, Find(c, id).value);
    }
  }

  lemma SoundIds(s: Store, c: Cache)
    requires Sound(s, c)
    ensures forall n | n in c :: n.id != "" && s.table.Keys >= {n.id}
  {
    forall n | n in c
      ensures n.id != "" && n.id in s.table
    {
      assert Cached(c, n);
    }
  }

  lemma AddKeepsSound(s: Store, c: Cache, id: string)
    requires Sound(s, c) && id in s.table && (s.Changed(id) ==> s.tainted)
    ensures Sound(s, Add(c, s.table[id]))
  {
    var c' := Add(c, s.table[id]);
    SoundIds(s, c);
    AddBounds(c, s.table[id]);
    CoherentSubset(c, c', s.table, s.table);
    if s.saved.Some? && !s.tainted {
      CoherentSubset(c, c', s.saved.value, s.saved.value);
    }
  }

  lemma TouchKeepsSound(s: Store, c: Cache, n: Node)
    requires Sound(s, c) && Find(c, n.id) == Some(n)
    ensures Sound(s, Touch(c, n))
  {
    TouchBounds(c, n);
    FindIsEntry(c, n.id);
    CoherentSubset(c, Touch(c, n), s.table, s.table);
    if s.saved.Some? && !s.tainted {
      CoherentSubset(c, Touch(c, n), s.saved.value, s.saved.value);
    }
  }

  /** Taking entries out of the cache keeps the store sound whatever is then written to their rows. */
  lemma WriteKeepsSound(s: Store, c: Cache, s': Store, c': Cache)
    requires Sound(s, c) && s'.saved == s.saved && s'.tainted == s.tainted && WellKeyed(s'.table)
    requires DistinctIds(c') && |c'| <= |c|
    requires forall n | n in c' :: n in c && Lookup(s.table, n.id) == Lookup(s'.table, n.id)
    ensures Sound(s', c')
  {
    CoherentSubset(c, c', s.table, s'.table);
    if s.saved.Some? && !s.tainted {
      CoherentSubset(c, c', s.saved.value, s.saved.value);
    }
  }

  /** The cache after a single lookup: a hit moves to the end, a miss that finds a row adds it. */
  function AfterGet(c: Cache, t: Table, id: string): Cache {
    var hit := Find(c, id);
    if hit.Some? then Touch(c, hit.value) else if id in t then Add(c, t[id]) else c
  }

  lemma GetKeepsSound(s: Store, c: Cache, id: string)
    requires Sound(s, c)
    ensures Sound(s.Apply(Op.GetNodeById(id)), AfterGet(c, s.table, id))
    ensures Find(c, id).Some? ==> Find(c, id) == Lookup(s.table, id)
  {
    var s' := s.Apply(Op.GetNodeById(id));
    var hit := Find(c, id);
    FindIsEntry(c, id);
    FindCoherent(c, s.table, id);
    if hit.Some? {
      TouchKeepsSound(s', c, hit.value);
    } else if id in s.table {
      AddKeepsSound(s', c, id);
    }
  }

  lemma {:induction false} FindDistinct(c: Cache, n: Node)
    requires DistinctIds(c) && n in c
    ensures Find(c, n.id) == Some(n)
  {
    if c[0] != n {
      FindDistinct(c[1..], n);
    }
  }

  /** A row just looked up is found in the cache. */
  lemma FindAfterGet(s: Store, c: Cache, id: string)
    requires Sound(s, c) && id in s.table
    ensures Find(AfterGet(c, s.table, id), id) == Some(s.table[id])
  {
    var s' := s.Apply(Op.GetNodeById(id));
    GetKeepsSound(s, c, id);
    FindIsEntry(c, id);
    if Find(c, id).Some? {
      TouchBounds(c, s.table[id]);
    } else {
      PutReplaces(if |c| >= CAPACITY && c[0].id != "" then Without(c, c[0].id) else c, s.table[id]);
    }
    FindDistinct(AfterGet(c, s.table, id), s.table[id]);
  }

  ghost predicate NoRepeats(ids: seq<string>) {
    forall i, j | 0 <= i < j < |ids| :: ids[i] != ids[j]
  }

  /** The rows a batch lookup reads for the ids it misses in the cache: all of them, and without a repeated id each
      once. */
  ghost predicate RowsRead(t: Table, misses: seq<string>, rows: seq<Node>) {
    && (forall n | n in rows :: n.id in misses && Lookup(t, n.id) == Some(n))
    && (forall id | id in misses && id in t :: t[id] in rows)
    && (NoRepeats(misses) ==> DistinctIds(rows))
  }

  lemma RowsReadMore(t: Table, a: seq<string>, b: seq<string>, rows: seq<Node>, more: seq<Node>)
    requires RowsRead(t, a, rows) && RowsRead(t, b, more)
    ensures RowsRead(t, a + b, rows + more)
  {
    if NoRepeats(a + b) {
      assert NoRepeats(a) by {
        assert forall i | 0 <= i < |a| :: a[i] == (a + b)[i];
      }
      assert NoRepeats(b) by {
        assert forall i | 0 <= i < |b| :: b[i] == (a + b)[|a| + i];
      }
      forall i, j | 0 <= i < |rows| && 0 <= j < |more|
        ensures rows[i].id != more[j].id
      {
        assert rows[i] in rows && more[j] in more;
        var k :| 0 <= k < |a| && a[k] == rows[i].id;
        var l :| 0 <= l < |b| && b[l] == more[j].id;
        assert (a + b)[k] != (a + b)[|a| + l];
      }
    }
  }

  lemma NoRowsRead(c: Cache, t: Table)
    ensures RowsRead(t, [], []) && AddAll(c, []) == c
  {
  }

  /** The ids of a request that are not in the cache, in order. */
  function Missed(c: Cache, ids: seq<string>): seq<string> {
    if ids == [] then []
    else Missed(c, ids[..|ids| - 1]) + if Find(c, ids[|ids| - 1]).None? then [ids[|ids| - 1]] else []
  }

  lemma {:induction false} MissedHolds(c: Cache, ids: seq<string>)
    ensures forall id :: id in Missed(c, ids) <==> id in ids && Find(c, id).None?
    ensures NoRepeats(ids) ==> NoRepeats(Missed(c, ids))
  {
    if ids != [] {
      var before := ids[..|ids| - 1];
      MissedHolds(c, before);
      assert ids == before + [ids[|ids| - 1]];
      if NoRepeats(ids) {
        assert NoRepeats(before);
        assert ids[|ids| - 1] !in before;
        var m := Missed(c, before);
        assert forall i | 0 <= i < |m| :: m[i] in before;
      }
    }
  }

  /** Serving hits changes no membership. */
  lemma {:induction false} TouchHitsKeepsIds(c: Cache, ids: seq<string>, id: string)
    requires DistinctIds(c)
    ensures DistinctIds(TouchHits(c, ids)) && (Find(TouchHits(c, ids), id).Some? <==> Find(c, id).Some?)
  {
    if ids != [] {
      var before := TouchHits(c, ids[..|ids| - 1]);
      var hit := Find(before, ids[|ids| - 1]);
      TouchHitsKeepsIds(c, ids[..|ids| - 1], id);
      if hit.Some? {
        FindIsEntry(before, ids[|ids| - 1]);
        TouchBounds(before, hit.value);
        FindIsEntry(before, id);
        FindIsEntry(Touch(before, hit.value), id);
      }
    }
  }

  /** The cache after an operation; `rows` is what a batch lookup read, in the order read. */
  function CacheAfter(c: Cache, t: Table, op: Op, rows: seq<Node>): Cache {
    match op
    case InsertNode(n) => if n.Writable() then Without(c, n.id) else c
    case UpdateNode(n) => Without(c, n.id)
    case DeleteNode(id) => Without(c, id)
    case DeleteNodesByFile(path) => WithoutFile(c, path)
    case GetNodeById(id) => AfterGet(c, t, id)
    case GetNodesByIds(ids) => AddAll(TouchHits(c, ids), rows)
    case ClearCache => []
    case Begin => c
    case Commit => c
    case Rollback => c
  }

  /** `rows` are possible for the operation. */
  ghost predicate Reads(c: Cache, t: Table, op: Op, rows: seq<Node>) {
    op.GetNodesByIds? ==> RowsRead(t, Missed(c, op.ids), rows)
  }

  /** The cache after a run; `batches` holds the rows each operation read. */
  function CacheAfterAll(c: Cache, s: Store, ops: seq<Op>, batches: seq<seq<Node>>): Cache
    requires |batches| == |ops|
    decreases |ops|
  {
    if ops == [] then c
    else CacheAfterAll(CacheAfter(c, s.table, ops[0], batches[0]), s.Apply(ops[0]), ops[1..], batches[1..])
  }

  ghost predicate AllReads(c: Cache, s: Store, ops: seq<Op>, batches: seq<seq<Node>>)
    requires |batches| == |ops|
    decreases |ops|
  {
    ops == [] ||
    (Reads(c, s.table, ops[0], batches[0])
     && AllReads(CacheAfter(c, s.table, ops[0], batches[0]), s.Apply(ops[0]), ops[1..], batches[1..]))
  }

  lemma {:induction false} ReadsMore(c: Cache, s: Store, ops: seq<Op>, batches: seq<seq<Node>>, op: Op, rows: seq<Node>)
    requires |batches| == |ops| && AllReads(c, s, ops, batches)
    requires Reads(CacheAfterAll(c, s, ops, batches), ApplyAll(s, ops).table, op, rows)
    ensures AllReads(c, s, ops + [op], batches + [rows])
    ensures CacheAfterAll(c, s, ops + [op], batches + [rows])
         == CacheAfter(CacheAfterAll(c, s, ops, batches), ApplyAll(s, ops).table, op, rows)
    ensures ApplyAll(s, ops + [op]) == ApplyAll(s, ops).Apply(op)
    decreases |ops|
  {
    hide CacheAfter, Reads;
    if ops != [] {
      assert (ops + [op])[1..] == ops[1..] + [op] && (batches + [rows])[1..] == batches[1..] + [rows];
      ReadsMore(CacheAfter(c, s.table, ops[0], batches[0]), s.Apply(ops[0]), ops[1..], batches[1..], op, rows);
    }
  }

  /** A partial result of a batch lookup: it only holds requested rows. */
  ghost predicate Served(out: map<string, Node>, t: Table, ids: seq<string>) {
    forall id | id in out :: id in ids && Lookup(t, id) == Some(out[id])
  }

  lemma AllServed(out: map<string, Node>, t: Table, ids: seq<string>, misses: seq<string>, rows: seq<Node>)
    requires Served(out, t, ids) && RowsRead(t, misses, rows) && WellKeyed(t)
    requires forall id | id in ids :: id in out || id in misses
    requires forall n | n in rows :: n.id in out
    ensures out == LookupAll(t, ids)
  {
    forall id | id in ids && id in t
      ensures id in out
    {
      if id in misses {
        assert t[id] in rows;
      }
    }
  }

  class QueryBuilder {
    var nodes: Table
    var saved: Option<Table>
    var nodeCache: Cache
    ghost var tainted: bool

    ghost function View(): Store
      reads this
    {
      Store(nodes, saved, tainted)
    }

    ghost predicate Valid()
      reads this
    {
      Sound(View(), nodeCache)
    }

    constructor ()
      ensures Valid() && View() == Store(map[], None, false) && nodeCache == []
    {
      nodes, saved, nodeCache, tainted := map[], None, [], false;
    }

    method InsertNode(node: Node)
      requires Valid()
      modifies this
      ensures Valid() && View() == old(View()).Apply(Op.InsertNode(node))
      ensures nodeCache == if node.Writable() then Without(old(nodeCache), node.id) else old(nodeCache)
    {
      if !node.Writable() {
        return;
      }
      WithoutRemoves(nodeCache, node.id);
      DistinctWithout(nodeCache, node.id);
      WriteKeepsSound(View(), nodeCache, View().Apply(Op.InsertNode(node)), Without(nodeCache, node.id));
      nodeCache := Without(nodeCache, node.id);
      nodes := nodes[node.id := node];
    }

    method UpdateNode(node: Node)
      requires Valid()
      modifies this
      ensures Valid() && View() == old(View()).Apply(Op.UpdateNode(node))
      ensures nodeCache == Without(old(nodeCache), node.id)
    {
      WithoutRemoves(nodeCache, node.id);
      DistinctWithout(nodeCache, node.id);
      WriteKeepsSound(View(), nodeCache, View().Apply(Op.UpdateNode(node)), Without(nodeCache, node.id));
      nodeCache := Without(nodeCache, node.id);
      if !node.Writable() {
        return;
      }
      if node.id in nodes {
        nodes := nodes[node.id := node];
      }
    }

    method DeleteNode(id: string)
      requires Valid()
      modifies this
      ensures Valid() && View() == old(View()).Apply(Op.DeleteNode(id))
      ensures nodeCache == Without(old(nodeCache), id)
    {
      WithoutRemoves(nodeCache, id);
      DistinctWithout(nodeCache, id);
      WriteKeepsSound(View(), nodeCache, View().Apply(Op.DeleteNode(id)), Without(nodeCache, id));
      nodeCache := Without(nodeCache, id);
      nodes := nodes - {id};
    }

    /** Drops the cached nodes by their own file path. That this reaches every cached node whose row goes is the
        coherence invariant itself: the cached path is the row's. */
    method DeleteNodesByFile(path: string)
      requires Valid()
      modifies this
      ensures Valid() && View() == old(View()).Apply(Op.DeleteNodesByFile(path))
      ensures nodeCache == WithoutFile(old(nodeCache), path)
    {
      WithoutFileRemoves(nodeCache, path);
      DistinctWithoutFile(nodeCache, path);
      forall n | n in nodeCache
        ensures Lookup(nodes, n.id) == Some(n)
      {
        assert Cached(nodeCache, n);
      }
      WriteKeepsSound(View(), nodeCache, View().Apply(Op.DeleteNodesByFile(path)), WithoutFile(nodeCache, path));
      nodeCache := WithoutFile(nodeCache, path);
      nodes := map id | id in nodes && nodes[id].filePath != path :: nodes[id];
    }

    /** A hit moves its entry to the end; a miss reads the row and caches it. Either way the answer is the row. */
    method GetNodeById(id: string) returns (r: Option<Node>)
      requires Valid()
      modifies this
      ensures Valid() && View() == old(View()).Apply(Op.GetNodeById(id))
      ensures r == Lookup(nodes, id)
      ensures nodeCache == AfterGet(old(nodeCache), nodes, id)
    {
      GetKeepsSound(View(), nodeCache, id);
      tainted := tainted || View().Changed(id);
      var cached := ServeFromCache(id);
      if cached.Some? {
        return cached;
      }
      if id !in nodes {
        return None;
      }
      var node := nodes[id];
      CacheNode(node);
      return Some(node);
    }

    /** The cache check every single lookup starts with; a hit is moved to the end. */
    method ServeFromCache(id: string) returns (r: Option<Node>)
      modifies this`nodeCache
      ensures r == Find(old(nodeCache), id)
      ensures nodeCache == if r.Some? then Touch(old(nodeCache), r.value) else old(nodeCache)
    {
      r := Find(nodeCache, id);
      if r.Some? {
        nodeCache := Touch(nodeCache, r.value);
      }
    }

    /** Adds an entry, evicting the oldest one first when the cache is full. */
    method CacheNode(node: Node)
      modifies this`nodeCache
      ensures nodeCache == Add(old(nodeCache), node)
    {
      if |nodeCache| >= CAPACITY {
        var firstKey := nodeCache[0].id;
        if firstKey != "" {
          nodeCache := Without(nodeCache, firstKey);
        }
      }
      nodeCache := Put(nodeCache, node);
    }

    method ClearCache()
      requires Valid()
      modifies this`nodeCache
      ensures Valid() && View() == old(View()).Apply(Op.ClearCache)
      ensures nodeCache == []
    {
      nodeCache := [];
    }

    method Begin()
      requires Valid()
      modifies this`saved, this`tainted
      ensures Valid() && View() == old(View()).Apply(Op.Begin)
    {
      if saved.None? {
        saved, tainted := Some(nodes), false;
      }
    }

    method Commit()
      requires Valid()
      modifies this`saved, this`tainted
      ensures Valid() && View() == old(View()).Apply(Op.Commit)
    {
      saved, tainted := None, false;
    }

    /** A rollback puts the table back and leaves the cache alone. The cache is still coherent exactly when no cached
        node has a row the transaction changed. */
    method Rollback()
      requires Valid()
      modifies this`nodes, this`saved, this`tainted
      ensures View() == old(View()).Apply(Op.Rollback)
      ensures Valid() <==> forall n | n in nodeCache :: !old(View()).Changed(n.id)
      ensures !old(tainted) ==> Valid()
    {
      if saved.Some? {
        forall n | n in nodeCache
          ensures Lookup(nodes, n.id) == Some(n)
        {
          assert Cached(nodeCache, n);
        }
        assert CoherentWith(nodeCache, saved.value) <==> forall n | n in nodeCache :: !View().Changed(n.id) by {
          assert forall n :: n in nodeCache <==> Cached(nodeCache, n);
        }
        nodes, saved, tainted := saved.value, None, false;
      }
    }

    /** One `SELECT ... WHERE id IN (...)`, at most 500 parameters: each existing row once, in no promised order. */
    method SelectByIds(ids: seq<string>) returns (rows: seq<Node>)
      requires Valid() && |ids| <= 500
      ensures forall n | n in rows :: n.id in ids && Lookup(nodes, n.id) == Some(n)
      ensures forall id | id in ids && id in nodes :: nodes[id] in rows
      ensures DistinctIds(rows) && RowsRead(nodes, ids, rows)
    {
      rows := [];
      for k := 0 to |ids|
        invariant forall n | n in rows :: n.id in ids[..k] && Lookup(nodes, n.id) == Some(n)
        invariant forall id | id in ids[..k] && id in nodes :: nodes[id] in rows
        invariant DistinctIds(rows)
      {
        if ids[k] in nodes && ids[k] !in ids[..k] {
          rows := rows + [nodes[ids[k]]];
        }
      }
    }

    /** The batch lookup: cache hits first, then one query per 500 misses. Whatever was cached, however often an id
        is repeated and wherever the chunks fall, the result is what uncached lookups would give. */
    method GetNodesByIds(ids: seq<string>) returns (out: map<string, Node>, ghost fetched: seq<Node>)
      requires Valid()
      modifies this
      ensures Valid() && View() == old(View()).Apply(Op.GetNodesByIds(ids))
      ensures out == LookupAll(nodes, ids)
      ensures nodeCache == AddAll(TouchHits(old(nodeCache), ids), fetched)
      ensures RowsRead(nodes, Missed(old(nodeCache), ids), fetched)
    {
      hide TouchHits, AddAll, Missed, DistinctIds, Served, RowsRead, Sound;
      TaintKeepsSound(View(), nodeCache, Op.GetNodesByIds(ids));
      tainted := tainted || exists id | id in ids :: View().Changed(id);
      assert forall id | id in ids && View().Changed(id) :: tainted;
      var misses;
      out, misses := ServeHits(ids);
      out, fetched := ReadMisses(ids, misses, out);
      AllServed(out, nodes, ids, misses, fetched);
    }

    /** One query per 500 misses; the rows read go into the result and into the cache. */
    method ReadMisses(ids: seq<string>, misses: seq<string>, out0: map<string, Node>)
      returns (out: map<string, Node>, ghost fetched: seq<Node>)
      requires Valid() && Served(out0, nodes, ids)
      requires forall id | id in misses :: id in ids
      requires forall id | id in ids && View().Changed(id) :: tainted
      modifies this`nodeCache
      ensures Valid() && nodeCache == AddAll(old(nodeCache), fetched)
      ensures RowsRead(nodes, misses, fetched) && Served(out, nodes, ids)
      ensures out0.Keys <= out.Keys && forall n | n in fetched :: n.id in out
    {
      hide AddAll, DistinctIds, Served, RowsRead, Sound;
      out, fetched := out0, [];
      NoRowsRead(nodeCache, nodes);
      var i := 0;
      while i < |misses|
        invariant 0 <= i && Valid()
        invariant nodeCache == AddAll(old(nodeCache), fetched)
        invariant RowsRead(nodes, misses[..if i < |misses| then i else |misses|], fetched) && Served(out, nodes, ids)
        invariant out0.Keys <= out.Keys && forall n | n in fetched :: n.id in out
      {
        var end := if i + CHUNK <= |misses| then i + CHUNK else |misses|;
        var chunk := misses[i..end];
        assert forall id | id in chunk :: id in misses;
        var rows := SelectByIds(chunk);
        RowsReadMore(nodes, misses[..i], chunk, fetched, rows);
        assert misses[..i] + chunk == misses[..end];
        AddAllConcat(old(nodeCache), fetched, rows);
        out := Collect(rows, ids, out);
        fetched := fetched + rows;
        i := i + CHUNK;
      }
      assert misses[..|misses|] == misses;
    }

    method ServeHits(ids: seq<string>) returns (out: map<string, Node>, misses: seq<string>)
      requires Valid()
      modifies this`nodeCache
      ensures Valid() && nodeCache == TouchHits(old(nodeCache), ids)
      ensures Served(out, nodes, ids)
      ensures forall id | id in ids :: id in out || id in misses
      ensures forall id | id in misses :: id in ids
      ensures misses == Missed(old(nodeCache), ids)
    {
      out, misses := map[], [];
      for k := 0 to |ids|
        invariant Valid() && nodeCache == TouchHits(old(nodeCache), ids[..k])
        invariant misses == Missed(old(nodeCache), ids[..k])
        invariant Served(out, nodes, ids)
        invariant forall id | id in ids[..k] :: id in out || id in misses
        invariant forall id | id in misses :: id in ids
      {
        var id := ids[k];
        assert ids[..k + 1][..k] == ids[..k];
        FindIsEntry(nodeCache, id);
        FindCoherent(nodeCache, nodes, id);
        TouchHitsKeepsIds(old(nodeCache), ids[..k], id);
        var cached := Find(nodeCache, id);
        if cached.Some? {
          TouchKeepsSound(View(), nodeCache, cached.value);
          nodeCache := Touch(nodeCache, cached.value);
          out := out[id := cached.value];
        } else {
          misses := misses + [id];
        }
      }
      assert ids[..|ids|] == ids;
    }

    /** Takes over the rows of one chunk: into the result and into the cache. */
    method Collect(rows: seq<Node>, ids: seq<string>, out0: map<string, Node>) returns (out: map<string, Node>)
      requires Valid()
      requires Served(out0, nodes, ids)
      requires forall n | n in rows :: n.id in ids && Lookup(nodes, n.id) == Some(n)
      requires forall id | id in ids && View().Changed(id) :: tainted
      modifies this`nodeCache
      ensures Valid() && nodeCache == AddAll(old(nodeCache), rows)
      ensures Served(out, nodes, ids)
      ensures out0.Keys <= out.Keys && forall n | n in rows :: n.id in out
    {
      hide DistinctIds, CoherentWith, Add;
      out := out0;
      for r := 0 to |rows|
        invariant Valid() && nodeCache == AddAll(old(nodeCache), rows[..r])
        invariant Served(out, nodes, ids)
        invariant out0.Keys <= out.Keys && forall m | 0 <= m < r :: rows[m].id in out
      {
        var node := rows[r];
        assert rows[..r + 1][..r] == rows[..r];
        out := out[node.id := node];
        AddKeepsSound(View(), nodeCache, node.id);
        CacheNode(node);
      }
      assert rows[..|rows|] == rows;
    }

    method Perform(op: Op) returns (answer: Answer, ghost rows: seq<Node>)
      requires Valid()
      requires op.Rollback? ==> !tainted
      modifies this
      ensures Valid() && View() == old(View()).Apply(op)
      ensures answer == old(View()).Answer(op)
      ensures nodeCache == CacheAfter(old(nodeCache), old(nodes), op, rows) && Reads(old(nodeCache), old(nodes), op, rows)
    {
      hide Sound, AfterGet, AddAll, TouchHits, Missed, RowsRead, Without, WithoutFile;
      answer, rows := Nothing, [];
      match op {
        case InsertNode(n) => InsertNode(n);
        case UpdateNode(n) => UpdateNode(n);
        case DeleteNode(id) => DeleteNode(id);
        case DeleteNodesByFile(path) => DeleteNodesByFile(path);
        case GetNodeById(id) =>
          var node := GetNodeById(id);
          answer := One(node);
        case GetNodesByIds(ids) =>
          var found, fetched := GetNodesByIds(ids);
          answer, rows := Many(found), fetched;
        case ClearCache => ClearCache();
        case Begin => Begin();
        case Commit => Commit();
        case Rollback => Rollback();
      }
    }

    /** Over every run of writes, lookups, clears and transactions in which no rolled-back transaction has looked up
        a row of its own making, the cached store answers exactly as a store without a cache. */
    method Run(ops: seq<Op>) returns (answers: seq<Answer>, ghost batches: seq<seq<Node>>)
      requires Valid() && RollsBackCleanly(View(), ops)
      modifies this
      ensures Valid() && View() == ApplyAll(old(View()), ops)
      ensures answers == Answers(old(View()), ops)
      ensures |batches| == |ops| && AllReads(old(nodeCache), old(View()), ops, batches)
      ensures nodeCache == CacheAfterAll(old(nodeCache), old(View()), ops, batches)
    {
      hide CacheAfter, Reads, Sound;
      answers, batches := [], [];
      for k := 0 to |ops|
        invariant |batches| == k
        invariant AllReads(old(nodeCache), old(View()), ops[..k], batches)
        invariant nodeCache == CacheAfterAll(old(nodeCache), old(View()), ops[..k], batches)
        invariant View() == ApplyAll(old(View()), ops[..k])
        invariant Valid() && RollsBackCleanly(View(), ops[k..])
        invariant ApplyAll(View(), ops[k..]) == ApplyAll(old(View()), ops)
        invariant answers + Answers(View(), ops[k..]) == Answers(old(View()), ops)
      {
        assert ops[k..][0] == ops[k] && ops[k..][1..] == ops[k + 1..];
        assert ops[..k + 1] == ops[..k] + [ops[k]];
        var answer, rows := Perform(ops[k]);
        ReadsMore(old(nodeCache), old(View()), ops[..k], batches, ops[k], rows);
        answers, batches := answers + [answer], batches + [rows];
      }
      assert ops[..|ops|] == ops;
    }

    /** The other half: whatever the state, looking up a row the open transaction changed and then rolling back leaves
        a cache that answers the next lookup of that id with the row that was taken back. */
    method StaleAfterRollback(id: string) returns (before: Option<Node>, after: Option<Node>)
      requires Valid() && View().Changed(id)
      modifies this
      ensures nodes == old(saved).value
      ensures before == Lookup(old(nodes), id)
      ensures after == before != Lookup(nodes, id)
    {
      FindAfterGet(View(), nodeCache, id);
      hide AfterGet, Sound;
      before := GetNodeById(id);
      Rollback();
      after := ServeFromCache(id);
    }
  }
}
