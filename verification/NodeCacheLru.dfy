/** What "least recently used" means for the node cache: over any run of operations it holds a tail of the order in which
    rows were last handed out, and exactly when that tail has the full 1000 rows. */
module NodeCacheLru {
  import opened Common
  import opened NodeCache

  /** The cache, and all rows handed out and not invalidated since, in the order they were last found in the cache or
      put into it. */
  datatype Kept = Kept(cache: Cache, order: Cache)

  function Moved(order: Cache, n: Node): Cache {
    Without(order, n.id) + [n]
  }

  function Hit(k: Kept, n: Node): Kept {
    Kept(Touch(k.cache, n), Moved(k.order, n))
  }

  /** The cache once the oldest entry has made room. */
  function Room(c: Cache): Cache {
    if |c| >= CAPACITY && c[0].id != "" then Without(c, c[0].id) else c
  }

  /** A row read: one that is still cached keeps its place. */
  function Load(k: Kept, n: Node): Kept {
    Kept(Add(k.cache, n), if Find(Room(k.cache), n.id).Some? then Put(k.order, n) else Moved(k.order, n))
  }

  function Drop(k: Kept, id: string): Kept {
    Kept(Without(k.cache, id), Without(k.order, id))
  }

  function DropFile(k: Kept, path: string): Kept {
    Kept(WithoutFile(k.cache, path), WithoutFile(k.order, path))
  }

  function HitAll(k: Kept, ids: seq<string>): Kept {
    if ids == [] then k
    else
      var before := HitAll(k, ids[..|ids| - 1]);
      var hit := Find(before.cache, ids[|ids| - 1]);
      if hit.Some? then Hit(before, hit.value) else before
  }

  function LoadAll(k: Kept, rows: seq<Node>): Kept {
    if rows == [] then k else Load(LoadAll(k, rows[..|rows| - 1]), rows[|rows| - 1])
  }

  function Get(k: Kept, t: Table, id: string): Kept {
    var hit := Find(k.cache, id);
    if hit.Some? then Hit(k, hit.value) else if id in t then Load(k, t[id]) else k
  }

  function After(k: Kept, t: Table, op: Op, rows: seq<Node>): Kept {
    match op
    case InsertNode(n) => if n.Writable() then Drop(k, n.id) else k
    case UpdateNode(n) => Drop(k, n.id)
    case DeleteNode(id) => Drop(k, id)
    case DeleteNodesByFile(path) => DropFile(k, path)
    case GetNodeById(id) => Get(k, t, id)
    case GetNodesByIds(ids) => LoadAll(HitAll(k, ids), rows)
    case ClearCache => Kept([], [])
    case Begin => k
    case Commit => k
    case Rollback => k
  }

  function AfterAll(k: Kept, s: Store, ops: seq<Op>, batches: seq<seq<Node>>): Kept
    requires |batches| == |ops|
    decreases |ops|
  {
    if ops == [] then k else AfterAll(After(k, s.table, ops[0], batches[0]), s.Apply(ops[0]), ops[1..], batches[1..])
  }

  lemma {:induction false} HitAllCache(k: Kept, ids: seq<string>)
    ensures HitAll(k, ids).cache == TouchHits(k.cache, ids)
  {
    if ids != [] {
      HitAllCache(k, ids[..|ids| - 1]);
    }
  }

  lemma {:induction false} LoadAllCache(k: Kept, rows: seq<Node>)
    ensures LoadAll(k, rows).cache == AddAll(k.cache, rows)
  {
    if rows != [] {
      LoadAllCache(k, rows[..|rows| - 1]);
    }
  }

  lemma SameCache(k: Kept, t: Table, op: Op, rows: seq<Node>)
    ensures After(k, t, op, rows).cache == CacheAfter(k.cache, t, op, rows)
  {
    if op.GetNodesByIds? {
      HitAllCache(k, op.ids);
      LoadAllCache(HitAll(k, op.ids), rows);
    }
  }

  // ----- The cache is a tail of the order -----

  ghost predicate IsTail(older: Cache, k: Kept) {
    k.order == older + k.cache && DistinctIds(k.order)
  }

  ghost predicate Tail(k: Kept) {
    exists older :: IsTail(older, k)
  }

  lemma {:induction false} WithoutConcat(a: Cache, b: Cache, id: string)
    ensures Without(a + b, id) == Without(a, id) + Without(b, id)
  {
    if a == [] {
      assert a + b == b;
    } else {
      assert (a + b)[1..] == a[1..] + b;
      WithoutConcat(a[1..], b, id);
    }
  }

  lemma {:induction false} WithoutFileConcat(a: Cache, b: Cache, path: string)
    ensures WithoutFile(a + b, path) == WithoutFile(a, path) + WithoutFile(b, path)
  {
    if a == [] {
      assert a + b == b;
    } else {
      assert (a + b)[1..] == a[1..] + b;
      WithoutFileConcat(a[1..], b, path);
    }
  }

  lemma {:induction false} PutConcat(a: Cache, b: Cache, n: Node)
    requires Find(a, n.id).None?
    ensures Put(a + b, n) == a + Put(b, n)
  {
    if a == [] {
      assert a + b == b;
    } else {
      assert (a + b)[1..] == a[1..] + b;
      PutConcat(a[1..], b, n);
    }
  }

  /** An id in the cache is not among the older rows. */
  lemma Apart(older: Cache, c: Cache, id: string)
    requires DistinctIds(older + c)
    ensures DistinctIds(older) && DistinctIds(c)
    ensures Find(c, id).Some? ==> Find(older, id).None?
  {
    var r := older + c;
    assert forall i | 0 <= i < |older| :: older[i] == r[i];
    assert forall i | 0 <= i < |c| :: c[i] == r[|older| + i];
    assert forall i, j | 0 <= i < |c| && 0 <= j < |older| :: c[i].id != older[j].id by {
      assert forall j, m | 0 <= j < |older| <= m < |r| :: r[j].id != r[m].id;
    }
    FindIsEntry(c, id);
    FindIsEntry(older, id);
  }

  lemma MovedIsDistinct(order: Cache, n: Node)
    requires DistinctIds(order)
    ensures DistinctIds(Moved(order, n))
  {
    var kept := Without(order, n.id);
    DistinctWithout(order, n.id);
    WithoutRemoves(order, n.id);
    forall j | 0 <= j < |kept|
      ensures kept[j].id != n.id
    {
      assert kept[j] in kept;
    }
  }

  /** Dropping the oldest entry is removing its key. */
  lemma {:induction false} WithoutFirst(c: Cache)
    requires DistinctIds(c) && |c| > 0
    ensures Without(c, c[0].id) == c[1..]
  {
    WithoutRemoves(c[1..], c[0].id);
    FindIsEntry(c[1..], c[0].id);
  }

  lemma HitKeepsTail(k: Kept, n: Node)
    requires Tail(k) && Find(k.cache, n.id) == Some(n)
    ensures Tail(Hit(k, n))
  {
    hide Find, Without, DistinctIds;
    var older :| IsTail(older, k);
    Apart(older, k.cache, n.id);
    MovedIsDistinct(k.order, n);
    WithoutConcat(older, k.cache, n.id);
    WithoutRemoves(older, n.id);
    assert older + Without(k.cache, n.id) + [n] == older + (Without(k.cache, n.id) + [n]);
    assert IsTail(older, Hit(k, n));
  }

  lemma RoomIsTail(older: Cache, k: Kept) returns (older': Cache)
    requires IsTail(older, k)
    ensures IsTail(older', Kept(Room(k.cache), k.order))
  {
    Apart(older, k.cache, "");
    if Room(k.cache) == k.cache {
      older' := older;
    } else {
      WithoutFirst(k.cache);
      older' := older + [k.cache[0]];
      assert k.order == older' + k.cache[1..];
    }
  }

  lemma LoadKeepsTail(k: Kept, n: Node)
    requires Tail(k)
    ensures Tail(Load(k, n))
  {
    var first :| IsTail(first, k);
    var older := RoomIsTail(first, k);
    hide Find, Without, Put, Room, DistinctIds;
    var room := Room(k.cache);
    Apart(older, room, n.id);
    if Find(room, n.id).Some? {
      PutConcat(older, room, n);
      DistinctPut(k.order, n);
      assert IsTail(older, Load(k, n));
    } else {
      MovedIsDistinct(k.order, n);
      WithoutConcat(older, room, n.id);
      WithoutRemoves(room, n.id);
      PutReplaces(room, n);
      assert Without(older, n.id) + room + [n] == Without(older, n.id) + (room + [n]);
      assert IsTail(Without(older, n.id), Load(k, n));
    }
  }

  lemma DropKeepsTail(k: Kept, id: string)
    requires Tail(k)
    ensures Tail(Drop(k, id))
  {
    hide Without, DistinctIds;
    var older :| IsTail(older, k);
    WithoutConcat(older, k.cache, id);
    DistinctWithout(k.order, id);
    assert IsTail(Without(older, id), Drop(k, id));
  }

  lemma DropFileKeepsTail(k: Kept, path: string)
    requires Tail(k)
    ensures Tail(DropFile(k, path))
  {
    hide WithoutFile, DistinctIds;
    var older :| IsTail(older, k);
    WithoutFileConcat(older, k.cache, path);
    DistinctWithoutFile(k.order, path);
    assert IsTail(WithoutFile(older, path), DropFile(k, path));
  }

  lemma {:induction false} HitAllKeepsTail(k: Kept, ids: seq<string>)
    requires Tail(k)
    ensures Tail(HitAll(k, ids))
  {
    hide Tail, Hit;
    if ids != [] {
      var before, id := HitAll(k, ids[..|ids| - 1]), ids[|ids| - 1];
      HitAllKeepsTail(k, ids[..|ids| - 1]);
      FindIsEntry(before.cache, id);
      if Find(before.cache, id).Some? {
        HitKeepsTail(before, Find(before.cache, id).value);
      }
    }
  }

  lemma {:induction false} LoadAllKeepsTail(k: Kept, rows: seq<Node>)
    requires Tail(k)
    ensures Tail(LoadAll(k, rows))
  {
    hide Tail, Load;
    if rows != [] {
      LoadAllKeepsTail(k, rows[..|rows| - 1]);
      LoadKeepsTail(LoadAll(k, rows[..|rows| - 1]), rows[|rows| - 1]);
    }
  }

  lemma AfterKeepsTail(k: Kept, t: Table, op: Op, rows: seq<Node>)
    requires Tail(k)
    ensures Tail(After(k, t, op, rows))
  {
    assert IsTail([], Kept([], []));
    hide Tail, Hit, Load, Drop, DropFile;
    match op
    case InsertNode(n) => DropKeepsTail(k, n.id);
    case UpdateNode(n) => DropKeepsTail(k, n.id);
    case DeleteNode(id) => DropKeepsTail(k, id);
    case DeleteNodesByFile(path) => DropFileKeepsTail(k, path);
    case GetNodeById(id) =>
      FindIsEntry(k.cache, id);
      if Find(k.cache, id).Some? {
        HitKeepsTail(k, Find(k.cache, id).value);
      } else if id in t {
        LoadKeepsTail(k, t[id]);
      }
    case GetNodesByIds(ids) =>
      HitAllKeepsTail(k, ids);
      LoadAllKeepsTail(HitAll(k, ids), rows);
    case _ =>
  }

  /** Over every run of writes, lookups, batch lookups, clears and transactions, the cache is a tail of the order: a row
      that was evicted is older than every row still cached. */
  lemma {:induction false} CacheIsTail(k: Kept, s: Store, ops: seq<Op>, batches: seq<seq<Node>>)
    requires Tail(k) && |batches| == |ops|
    ensures Tail(AfterAll(k, s, ops, batches))
    ensures AfterAll(k, s, ops, batches).cache == CacheAfterAll(k.cache, s, ops, batches)
    decreases |ops|
  {
    hide Tail, After, CacheAfter;
    if ops != [] {
      SameCache(k, s.table, ops[0], batches[0]);
      AfterKeepsTail(k, s.table, ops[0], batches[0]);
      CacheIsTail(After(k, s.table, ops[0], batches[0]), s.Apply(ops[0]), ops[1..], batches[1..]);
    }
  }

  // ----- The tail is as long as it can be -----

  /** The cache is the last 1000 of the order, or all of it. */
  ghost predicate Newest(k: Kept) {
    Tail(k) && |k.cache| == if |k.order| <= 1000 then |k.order| else 1000
  }

  ghost predicate Named(c: Cache) {
    forall n | n in c :: n.id != ""
  }

  lemma NewestIsLast(k: Kept)
    requires Newest(k)
    ensures k.cache == k.order[|k.order| - |k.cache|..]
    ensures |k.order| <= 1000 ==> k.cache == k.order
  {
    var older :| IsTail(older, k);
    if |k.order| <= 1000 {
      assert older == [];
    }
  }

  lemma HitKeepsNewest(k: Kept, n: Node)
    requires Newest(k) && Find(k.cache, n.id) == Some(n)
    ensures Newest(Hit(k, n))
  {
    hide Without, Put, DistinctIds, Tail;
    HitKeepsTail(k, n);
    FoundInBoth(k, n.id);
    TailIsDistinct(k);
    DistinctWithout(k.cache, n.id);
    DistinctWithout(k.order, n.id);
  }

  lemma TailIsDistinct(k: Kept)
    requires Tail(k)
    ensures DistinctIds(k.cache) && DistinctIds(k.order)
  {
    var older :| IsTail(older, k);
    Apart(older, k.cache, "");
  }

  lemma FoundInBoth(k: Kept, id: string)
    requires Tail(k)
    ensures forall n | n in k.cache :: n in k.order
    ensures Find(k.cache, id).Some? ==> Find(k.order, id).Some?
  {
    var older :| IsTail(older, k);
    FindIsEntry(k.cache, id);
    FindIsEntry(k.order, id);
  }

  lemma RoomOf(c: Cache)
    requires DistinctIds(c) && |c| <= 1000 && Named(c)
    ensures Room(c) == if |c| == 1000 then c[1..] else c
  {
    if |c| == 1000 {
      assert c[0] in c;
      WithoutFirst(c);
    }
  }

  /** A row read keeps the tail as long as it can be, except when the cache is full and the row is in it already: then
      the oldest entry makes room for nothing. */
  lemma LoadKeepsNewest(k: Kept, n: Node)
    requires Newest(k) && Named(k.cache)
    ensures Newest(Load(k, n)) <==> |k.cache| < 1000 || Find(k.cache[1..], n.id).None?
  {
    LoadKeepsTail(k, n);
    FoundInBoth(k, n.id);
    TailIsDistinct(k);
    NewestIsLast(k);
    RoomOf(k.cache);
    var room := Room(k.cache);
    assert DistinctIds(room);
    hide Without, Put, DistinctIds, Tail, Room, Named;
    assert Find(room, n.id).Some? ==> Find(k.cache, n.id).Some? by {
      FindIsEntry(room, n.id);
      FindIsEntry(k.cache, n.id);
    }
    DistinctPut(room, n);
    DistinctPut(k.order, n);
    DistinctWithout(k.order, n.id);
    WithoutRemoves(k.order, n.id);
  }

  /** An invalidated row leaves a gap exactly when it was cached and older rows have been evicted. */
  lemma DropKeepsNewest(k: Kept, id: string)
    requires Newest(k)
    ensures Newest(Drop(k, id)) <==> |k.order| <= 1000 || Find(k.cache, id).None?
  {
    hide Without, DistinctIds, Tail;
    DropKeepsTail(k, id);
    FoundInBoth(k, id);
    TailIsDistinct(k);
    NewestIsLast(k);
    DistinctWithout(k.cache, id);
    DistinctWithout(k.order, id);
    WithoutRemoves(k.cache, id);
    WithoutRemoves(k.order, id);
  }

  lemma {:induction false} WithoutFileCounts(c: Cache, path: string)
    ensures |WithoutFile(c, path)| <= |c|
    ensures |WithoutFile(c, path)| == |c| <==> forall n | n in c :: n.filePath != path
    ensures WithoutFile(c, path) == [] <==> forall n | n in c :: n.filePath == path
  {
    if c != [] {
      WithoutFileCounts(c[1..], path);
      assert forall n :: n in c <==> n == c[0] || n in c[1..];
    }
  }

  /** The evicted rows of the order. */
  function Evicted(k: Kept): Cache
    requires |k.cache| <= |k.order|
  {
    k.order[..|k.order| - |k.cache|]
  }

  /** Invalidating a file leaves no gap exactly when none of its rows was cached, or no row of another file was evicted. */
  lemma DropFileKeepsNewest(k: Kept, path: string)
    requires Newest(k)
    ensures Newest(DropFile(k, path)) <==>
            (forall n | n in k.cache :: n.filePath != path) || (forall n | n in Evicted(k) :: n.filePath == path)
  {
    hide WithoutFile, DistinctIds;
    DropFileKeepsTail(k, path);
    var older :| IsTail(older, k);
    assert older == Evicted(k);
    WithoutFileConcat(older, k.cache, path);
    WithoutFileCounts(older, path);
    WithoutFileCounts(k.cache, path);
  }

  // ----- Runs -----

  /** The ids in the order are not empty, so that a full cache always makes room. */
  ghost predicate NewestNamed(k: Kept) {
    Newest(k) && Named(k.order)
  }

  /** The operation invalidates no cached row while older ones are evicted, and asks for no id twice at once. */
  ghost predicate LeavesNoGap(k: Kept, op: Op)
    requires |k.cache| <= |k.order|
  {
    match op
    case InsertNode(n) => n.Writable() ==> |k.order| <= 1000 || Find(k.cache, n.id).None?
    case UpdateNode(n) => |k.order| <= 1000 || Find(k.cache, n.id).None?
    case DeleteNode(id) => |k.order| <= 1000 || Find(k.cache, id).None?
    case DeleteNodesByFile(path) =>
      (forall n | n in k.cache :: n.filePath != path) || (forall n | n in Evicted(k) :: n.filePath == path)
    case GetNodesByIds(ids) => NoRepeats(ids)
    case _ => true
  }

  ghost predicate NoGaps(k: Kept, s: Store, ops: seq<Op>, batches: seq<seq<Node>>)
    requires |batches| == |ops|
    decreases |ops|
  {
    ops == [] ||
    (|k.cache| <= |k.order| && LeavesNoGap(k, ops[0])
     && NoGaps(After(k, s.table, ops[0], batches[0]), s.Apply(ops[0]), ops[1..], batches[1..]))
  }

  lemma DropNamed(k: Kept, id: string, path: string)
    requires Named(k.order)
    ensures Named(Drop(k, id).order) && Named(DropFile(k, path).order)
  {
    WithoutRemoves(k.order, id);
    WithoutFileRemoves(k.order, path);
  }

  lemma LoadNamed(k: Kept, n: Node)
    requires Named(k.order) && n.id != ""
    ensures Named(Load(k, n).order) && Named(Hit(k, n).order)
  {
    hide Find, Room, Add;
    WithoutRemoves(k.order, n.id);
    PutReplaces(k.order, n);
  }

  lemma CacheNamed(k: Kept)
    requires NewestNamed(k)
    ensures Named(k.cache)
  {
    FoundInBoth(k, "");
  }

  lemma HitNewest(k: Kept, id: string)
    requires NewestNamed(k) && Find(k.cache, id).Some?
    ensures NewestNamed(Hit(k, Find(k.cache, id).value))
  {
    hide Newest, Hit;
    FindIsEntry(k.cache, id);
    HitKeepsNewest(k, Find(k.cache, id).value);
    CacheNamed(k);
    LoadNamed(k, Find(k.cache, id).value);
  }

  lemma {:induction false} HitAllNewest(k: Kept, ids: seq<string>)
    requires NewestNamed(k)
    ensures NewestNamed(HitAll(k, ids))
  {
    hide NewestNamed, Hit;
    if ids != [] {
      var before, id := HitAll(k, ids[..|ids| - 1]), ids[|ids| - 1];
      HitAllNewest(k, ids[..|ids| - 1]);
      if Find(before.cache, id).Some? {
        HitNewest(before, id);
      }
    }
  }

  /** A row that is not cached. */
  lemma LoadNewest(k: Kept, n: Node)
    requires NewestNamed(k) && Find(k.cache, n.id).None? && n.id != ""
    ensures NewestNamed(Load(k, n))
    ensures forall m | m in Load(k, n).cache :: m == n || m in k.cache
  {
    CacheNamed(k);
    LoadKeepsNewest(k, n);
    LoadNamed(k, n);
    TailIsDistinct(k);
    if k.cache != [] {
      FindIsEntry(k.cache, n.id);
      FindIsEntry(k.cache[1..], n.id);
    }
    AddBounds(k.cache, n);
  }

  lemma {:induction false} LoadAllNewest(k: Kept, rows: seq<Node>)
    requires NewestNamed(k) && DistinctIds(rows)
    requires forall n | n in rows :: n.id != "" && Find(k.cache, n.id).None?
    ensures NewestNamed(LoadAll(k, rows))
    ensures forall m | m in LoadAll(k, rows).cache :: m in rows || m in k.cache
  {
    hide NewestNamed, Load, Find;
    if rows != [] {
      var before, n := LoadAll(k, rows[..|rows| - 1]), rows[|rows| - 1];
      LoadAllNewest(k, rows[..|rows| - 1]);
      FindIsEntry(k.cache, n.id);
      FindIsEntry(before.cache, n.id);
      assert forall m | m in rows[..|rows| - 1] :: m.id != n.id && m in rows;
      LoadNewest(before, n);
    }
  }

  lemma BatchNewest(k: Kept, t: Table, ids: seq<string>, rows: seq<Node>)
    requires NewestNamed(k) && WellKeyed(t) && NoRepeats(ids) && RowsRead(t, Missed(k.cache, ids), rows)
    ensures NewestNamed(LoadAll(HitAll(k, ids), rows))
  {
    var served := HitAll(k, ids);
    HitAllNewest(k, ids);
    HitAllCache(k, ids);
    MissedHolds(k.cache, ids);
    TailIsDistinct(k);
    hide NewestNamed, HitAll, Find, TouchHits, Missed;
    forall n | n in rows
      ensures n.id != "" && Find(served.cache, n.id).None?
    {
      TouchHitsKeepsIds(k.cache, ids, n.id);
    }
    LoadAllNewest(served, rows);
  }

  lemma AfterKeepsNewest(k: Kept, t: Table, op: Op, rows: seq<Node>)
    requires NewestNamed(k) && WellKeyed(t) && Reads(k.cache, t, op, rows)
    requires |k.cache| <= |k.order| && LeavesNoGap(k, op)
    ensures NewestNamed(After(k, t, op, rows))
  {
    hide Hit, Load, Drop, DropFile, Find;
    assert NewestNamed(Kept([], [])) by {
      assert IsTail([], Kept([], []));
    }
    hide Newest, Named;
    match op
    case InsertNode(n) => DropKeepsNewest(k, n.id); DropNamed(k, n.id, "");
    case UpdateNode(n) => DropKeepsNewest(k, n.id); DropNamed(k, n.id, "");
    case DeleteNode(id) => DropKeepsNewest(k, id); DropNamed(k, id, "");
    case DeleteNodesByFile(path) => DropFileKeepsNewest(k, path); DropNamed(k, "", path);
    case GetNodeById(id) =>
      if Find(k.cache, id).Some? {
        HitNewest(k, id);
      } else if id in t {
        LoadNewest(k, t[id]);
      }
    case GetNodesByIds(ids) => BatchNewest(k, t, ids, rows);
    case _ =>
  }

  ghost predicate StoreKeyed(s: Store) {
    WellKeyed(s.table) && (s.saved.Some? ==> WellKeyed(s.saved.value))
  }

  lemma ApplyKeepsKeyed(s: Store, op: Op)
    requires StoreKeyed(s)
    ensures StoreKeyed(s.Apply(op))
  {
  }

  /** Over every run that leaves no gap, the cache is exactly the last 1000 of the order, least recent first: the rows
      last handed out. Lookups without a repeated id, clears and transactions never leave a gap, and a write does exactly
      when it invalidates a cached row while others are evicted (`DropKeepsNewest`, `DropFileKeepsNewest`). */
  lemma {:induction false} CacheIsMostRecent(k: Kept, s: Store, ops: seq<Op>, batches: seq<seq<Node>>)
    requires NewestNamed(k) && StoreKeyed(s) && |batches| == |ops|
    requires AllReads(k.cache, s, ops, batches) && NoGaps(k, s, ops, batches)
    ensures var r := AfterAll(k, s, ops, batches);
            && NewestNamed(r)
            && r.cache == CacheAfterAll(k.cache, s, ops, batches)
    decreases |ops|
  {
    hide NewestNamed, StoreKeyed, After, CacheAfter, Reads, LeavesNoGap;
    if ops != [] {
      var next := After(k, s.table, ops[0], batches[0]);
      SameCache(k, s.table, ops[0], batches[0]);
      assert WellKeyed(s.table) by {
        KeyedTable(s);
      }
      AfterKeepsNewest(k, s.table, ops[0], batches[0]);
      ApplyKeepsKeyed(s, ops[0]);
      CacheIsMostRecent(next, s.Apply(ops[0]), ops[1..], batches[1..]);
    }
  }

  lemma KeyedTable(s: Store)
    requires StoreKeyed(s)
    ensures WellKeyed(s.table)
  {
  }
}
