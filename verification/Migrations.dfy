/** Schema migrations: which of them a database has been through after any history of opens, some of which fail. */
module Migrations {
  import opened Common
  import opened EdgeStore

  const CURRENT_SCHEMA_VERSION: nat := 9

  function Above(versions: seq<nat>, from: nat): (r: seq<nat>)
    ensures forall v :: v in r <==> v in versions && v > from
  {
    if versions == [] then []
    else (if versions[0] > from then [versions[0]] else []) + Above(versions[1..], from)
  }

  ghost predicate Ascending(s: seq<nat>) {
    forall i, j | 0 <= i < j < |s| :: s[i] < s[j]
  }

  ghost predicate Distinct(s: seq<nat>) {
    forall i, j | 0 <= i < j < |s| :: s[i] != s[j]
  }

  function Insert(s: seq<nat>, v: nat): (r: seq<nat>)
    ensures multiset(r) == multiset(s) + multiset{v}
  {
    if s == [] then [v]
    else if s[0] <= v then
      assert s == [s[0]] + s[1..];
      [s[0]] + Insert(s[1..], v)
    else [v] + s
  }

  function Sort(s: seq<nat>): (r: seq<nat>)
    ensures multiset(r) == multiset(s)
  {
    if s == [] then []
    else
      assert s == s[..|s| - 1] + [s[|s| - 1]];
      Insert(Sort(s[..|s| - 1]), s[|s| - 1])
  }

  lemma {:induction false} InsertAscends(s: seq<nat>, v: nat)
    requires Ascending(s) && v !in s
    ensures Ascending(Insert(s, v))
  {
    if s != [] && s[0] <= v {
      var rest := Insert(s[1..], v);
      InsertAscends(s[1..], v);
      forall j | 0 <= j < |rest|
        ensures s[0] < rest[j]
      {
        assert rest[j] in multiset(rest);
        assert rest[j] == v || rest[j] in s[1..];
      }
    }
  }

  lemma {:induction false} SortAscends(s: seq<nat>)
    requires Distinct(s)
    ensures Ascending(Sort(s)) && forall v :: v in Sort(s) <==> v in s
  {
    if s != [] {
      var front, v := s[..|s| - 1], s[|s| - 1];
      SortAscends(front);
      InsertAscends(Sort(front), v);
    }
    forall v
      ensures v in Sort(s) <==> v in s
    {
      assert v in multiset(Sort(s)) <==> v in multiset(s);
    }
  }

  lemma {:induction false} AboveIsDistinct(versions: seq<nat>, from: nat)
    requires Distinct(versions)
    ensures Distinct(Above(versions, from))
  {
    if versions != [] {
      AboveIsDistinct(versions[1..], from);
      assert versions[0] !in versions[1..];
      assert forall j | 0 <= j < |Above(versions[1..], from)| :: Above(versions[1..], from)[j] in versions[1..];
    }
  }

  /** Ascending sequences with the same members are the same sequence. */
  lemma {:induction false} AscendingIsUnique(a: seq<nat>, b: seq<nat>)
    requires Ascending(a) && Ascending(b) && forall v :: v in a <==> v in b
    ensures a == b
  {
    assert b != [] ==> b[0] in b;
    if a == [] {
    } else {
      assert b != [] by {
        assert a[0] in b;
      }
      assert a[0] in a && b[0] in b;
      var i :| 0 <= i < |b| && b[i] == a[0];
      var j :| 0 <= j < |a| && a[j] == b[0];
      assert i == 0 && j == 0;
      forall v
        ensures v in a[1..] <==> v in b[1..]
      {
        assert v in a[1..] <==> v in a && v != a[0];
        assert v in b[1..] <==> v in b && v != b[0];
      }
      AscendingIsUnique(a[1..], b[1..]);
    }
  }

  lemma {:induction false} NoneAbove(versions: seq<nat>, from: nat)
    requires forall v | v in versions :: v <= from
    ensures Above(versions, from) == []
  {
    if versions != [] {
      assert versions[0] in versions && forall v | v in versions[1..] :: v in versions;
      NoneAbove(versions[1..], from);
    }
  }

  /** The migrations an open runs, in the order it runs them. */
  function Pending(versions: seq<nat>, from: nat): seq<nat> {
    Sort(Above(versions, from))
  }

  lemma PendingIsAscending(versions: seq<nat>, from: nat)
    requires Distinct(versions)
    ensures Ascending(Pending(versions, from))
    ensures forall v :: v in Pending(versions, from) <==> v in versions && v > from
  {
    AboveIsDistinct(versions, from);
    SortAscends(Above(versions, from));
  }

  /** After some of the pending migrations, exactly the others are pending. */
  lemma PendingShrinks(versions: seq<nat>, from: nat, k: nat)
    requires Distinct(versions) && 0 < k <= |Pending(versions, from)|
    ensures Pending(versions, Pending(versions, from)[k - 1]) == Pending(versions, from)[k..]
  {
    hide Pending;
    var all := Pending(versions, from);
    PendingIsAscending(versions, from);
    PendingIsAscending(versions, all[k - 1]);
    forall v
      ensures v in all[k..] <==> v in versions && v > all[k - 1]
    {
      if v in versions && v > all[k - 1] {
        assert all[k - 1] in all;
        assert v in all;
        var i :| 0 <= i < |all| && all[i] == v;
        assert all[k..][i - k] == v;
      }
      if v in all[k..] {
        var i :| 0 <= i < |all| - k && all[k..][i] == v;
        assert all[k + i] == v;
        assert v in all;
      }
    }
    AscendingIsUnique(Pending(versions, all[k - 1]), all[k..]);
  }

  /** `SELECT MAX(version)` */
  function MaxOf(s: seq<nat>): nat {
    if s == [] then 0 else
      var m := MaxOf(s[..|s| - 1]);
      if s[|s| - 1] > m then s[|s| - 1] else m
  }

  lemma {:induction false} MaxIsMaximum(s: seq<nat>)
    ensures if s == [] then MaxOf(s) == 0 else MaxOf(s) in s && forall v | v in s :: v <= MaxOf(s)
  {
    if s != [] {
      var front := s[..|s| - 1];
      assert s == front + [s[|s| - 1]];
      MaxIsMaximum(front);
    }
  }

  /** Versions recorded in ascending order above everything recorded before: the maximum is the last of them. */
  lemma {:induction false} MaxIsLast(base: seq<nat>, s: seq<nat>)
    requires Ascending(s) && forall i | 0 <= i < |s| :: s[i] > MaxOf(base)
    ensures MaxOf(base + s) == if s == [] then MaxOf(base) else s[|s| - 1]
  {
    if s == [] {
      assert base + s == base;
    } else {
      assert (base + s)[..|base + s| - 1] == base + s[..|s| - 1];
      MaxIsLast(base, s[..|s| - 1]);
      if |s| > 1 {
        assert s[|s| - 2] < s[|s| - 1];
      }
    }
  }

  /** The database as migrations see it: the recorded versions, and which migrations have been applied, in order. */
  class Connection {
    const versions: seq<nat>
    const base: seq<nat>
    var recorded: seq<nat>
    var applied: seq<nat>

    /** The whole upgrade, from the highest version the database was created with. */
    ghost function Plan(): seq<nat> {
      Pending(versions, MaxOf(base))
    }

    /** The version of the last migration applied, or the one the database was created with. */
    ghost function Version(): nat
      reads this
    {
      if applied == [] then MaxOf(base) else applied[|applied| - 1]
    }

    /** Applied so far: a prefix of the plan, every member once and in order; recorded: what the database was created
        with, and those. */
    ghost predicate Valid()
      reads this
    {
      Distinct(versions) && applied <= Plan() && recorded == base + applied
    }

    /** A database created with some versions recorded: none, 1 by an old schema, 1 and the current one by a new. */
    constructor (versions: seq<nat>, base: seq<nat>)
      requires Distinct(versions)
      ensures Valid() && applied == [] && this.versions == versions && this.base == base
    {
      this.versions, this.base := versions, base;
      recorded, applied := base, [];
    }

    /** The recorded version is that of the last migration applied. */
    method GetCurrentVersion() returns (v: nat)
      requires Valid()
      ensures v == Version()
    {
      AppliedAscends();
      MaxIsLast(base, applied);
      v := MaxOf(recorded);
    }

    lemma AppliedAscends()
      requires Valid()
      ensures Ascending(applied) && forall i | 0 <= i < |applied| :: applied[i] > MaxOf(base)
    {
      hide Pending;
      PendingIsAscending(versions, MaxOf(base));
      forall i | 0 <= i < |applied|
        ensures applied[i] > MaxOf(base)
      {
        assert applied[i] == Plan()[i] && Plan()[i] in Plan();
      }
    }

    lemma PendingIsRest()
      requires Valid()
      ensures Pending(versions, Version()) == Plan()[|applied|..]
    {
      if |applied| > 0 {
        PendingShrinks(versions, MaxOf(base), |applied|);
      }
    }

    /** Runs the pending migrations one transaction each; the first that throws ends the run and leaves nothing behind.
        `fails` says which of the transactions throw. */
    method RunMigrations(from: nat, fails: seq<bool>) returns (threw: bool)
      requires Valid() && from == Version()
      modifies this`recorded, this`applied
      ensures Valid() && old(applied) <= applied
      ensures !threw ==> applied == Plan()
      ensures threw ==> FirstThrow(fails, |applied| - |old(applied)|) && |applied| < |Plan()|
      ensures !threw ==> forall k | 0 <= k < |applied| - |old(applied)| :: !Throws(fails, k)
    {
      hide Pending, Distinct;
      var pending := Pending(versions, from);
      PendingIsRest();
      ghost var done, plan := |applied|, Plan();
      assert plan[..|plan|] == plan;
      for k := 0 to |pending|
        invariant applied == plan[..done + k] && recorded == base + applied
        invariant old(applied) <= applied
        invariant forall j | 0 <= j < k :: !Throws(fails, j)
      {
        if k < |fails| && fails[k] {
          return true;
        }
        assert pending[k] == plan[done + k];
        assert plan[..done + k + 1] == plan[..done + k] + [plan[done + k]];
        applied := applied + [pending[k]];
        recorded := recorded + [pending[k]];
      }
      threw := false;
    }

    /** Opening: migrate if the recorded version is below the current one. */
    method Open(fails: seq<bool>) returns (threw: bool)
      requires Valid() && forall v | v in versions :: v <= 9
      modifies this`recorded, this`applied
      ensures Valid() && old(applied) <= applied
      ensures !threw ==> applied == Plan()
      ensures threw ==> FirstThrow(fails, |applied| - |old(applied)|) && |applied| < |Plan()|
    {
      var current := GetCurrentVersion();
      threw := false;
      if current < CURRENT_SCHEMA_VERSION {
        threw := RunMigrations(current, fails);
      } else {
        PendingIsRest();
        NoneAbove(versions, current);
      }
    }

    /** Any history of opens with any failures: what is applied is always a prefix of the plan in ascending order, and
        one open without a failure completes it, after which no open applies anything again. */
    method Reopen(history: seq<seq<bool>>)
      requires Valid() && forall v | v in versions :: v <= 9
      modifies this`recorded, this`applied
      ensures Valid() && old(applied) <= applied
      ensures (exists h | h in history :: NeverThrows(h)) ==> applied == Plan()
    {
      for n := 0 to |history|
        invariant Valid() && old(applied) <= applied
        invariant (exists m | 0 <= m < n :: NeverThrows(history[m])) ==> applied == Plan()
      {
        var _ := Open(history[n]);
      }
      if h :| h in history && NeverThrows(h) {
        var m :| 0 <= m < |history| && history[m] == h;
        assert NeverThrows(history[m]);
      }
    }
  }

  /** Whether the transaction of the `k`-th pending migration throws. */
  ghost predicate Throws(fails: seq<bool>, k: int) {
    0 <= k < |fails| && fails[k]
  }

  ghost predicate FirstThrow(fails: seq<bool>, k: int) {
    Throws(fails, k) && forall j | 0 <= j < k :: !Throws(fails, j)
  }

  ghost predicate NeverThrows(fails: seq<bool>) {
    forall k :: !Throws(fails, k)
  }

  // ----- Version 6: one row per edge identity -----

  ghost predicate DistinctRowIds(rows: seq<EdgeRow>) {
    forall i, j | 0 <= i < j < |rows| :: rows[i].id != rows[j].id
  }

  /** `SELECT MIN(id) ... GROUP BY` the identity expression, for one group. */
  function MinId(rows: seq<EdgeRow>, key: Identity): Option<nat> {
    if rows == [] then None
    else
      var rest := MinId(rows[1..], key);
      if IdentityOf(rows[0].edge) != key then rest
      else if rest.Some? && rest.value < rows[0].id then rest
      else Some(rows[0].id)
  }

  function Minima(rows: seq<EdgeRow>): set<nat> {
    set r | r in rows && MinId(rows, IdentityOf(r.edge)).Some? :: MinId(rows, IdentityOf(r.edge)).value
  }

  /** `DELETE ... WHERE id NOT IN` the minima. */
  function KeepIds(rows: seq<EdgeRow>, ids: set<nat>): seq<EdgeRow> {
    if rows == [] then [] else (if rows[0].id in ids then [rows[0]] else []) + KeepIds(rows[1..], ids)
  }

  function Dedup(rows: seq<EdgeRow>): seq<EdgeRow> {
    KeepIds(rows, Minima(rows))
  }

  lemma {:induction false} MinIdIsLeast(rows: seq<EdgeRow>, key: Identity)
    ensures MinId(rows, key).None? <==> !Holds(rows, key)
    ensures MinId(rows, key).Some? ==>
              && (exists r :: r in rows && IdentityOf(r.edge) == key && r.id == MinId(rows, key).value)
              && (forall r | r in rows && IdentityOf(r.edge) == key :: MinId(rows, key).value <= r.id)
  {
    if rows != [] {
      MinIdIsLeast(rows[1..], key);
      assert rows == [rows[0]] + rows[1..];
      assert rows[0] in rows;
    }
  }

  lemma {:induction false} KeepIdsKeeps(rows: seq<EdgeRow>, ids: set<nat>)
    ensures forall r :: r in KeepIds(rows, ids) <==> r in rows && r.id in ids
  {
    if rows != [] {
      KeepIdsKeeps(rows[1..], ids);
      assert rows == [rows[0]] + rows[1..];
    }
  }

  lemma {:induction false} KeepIdsAll(rows: seq<EdgeRow>, ids: set<nat>)
    requires forall r | r in rows :: r.id in ids
    ensures KeepIds(rows, ids) == rows
  {
    if rows != [] {
      assert rows[0] in rows;
      KeepIdsAll(rows[1..], ids);
    }
  }

  lemma {:induction false} KeepIdsStaysDistinct(rows: seq<EdgeRow>, ids: set<nat>)
    requires DistinctRowIds(rows)
    ensures DistinctRowIds(KeepIds(rows, ids))
  {
    if rows != [] {
      KeepIdsStaysDistinct(rows[1..], ids);
      KeepIdsKeeps(rows[1..], ids);
      var rest := KeepIds(rows[1..], ids);
      forall j | 0 <= j < |rest|
        ensures rest[j].id != rows[0].id
      {
        assert rest[j] in rest;
        var i :| 0 <= i < |rows| - 1 && rows[1..][i] == rest[j];
        assert rows[i + 1] == rest[j];
      }
    }
  }

  lemma RowIdIsKey(rows: seq<EdgeRow>, a: EdgeRow, b: EdgeRow)
    requires DistinctRowIds(rows) && a in rows && b in rows && a.id == b.id
    ensures a == b
  {
    var i :| 0 <= i < |rows| && rows[i] == a;
    var j :| 0 <= j < |rows| && rows[j] == b;
    if i < j || j < i {
      assert false;
    }
  }

  /** A row survives the delete exactly when no row of its identity has a lower id. */
  lemma DedupKeepsLowest(rows: seq<EdgeRow>, r: EdgeRow)
    requires DistinctRowIds(rows) && r in rows
    ensures r in Dedup(rows) <==> forall q | q in rows && IdentityOf(q.edge) == IdentityOf(r.edge) :: r.id <= q.id
  {
    var key := IdentityOf(r.edge);
    KeepIdsKeeps(rows, Minima(rows));
    MinIdIsLeast(rows, key);
    assert Holds(rows, key);
    var m :| m in rows && IdentityOf(m.edge) == key && m.id == MinId(rows, key).value;
    if r in Dedup(rows) {
      var q :| q in rows && MinId(rows, IdentityOf(q.edge)) == Some(r.id);
      MinIdIsLeast(rows, IdentityOf(q.edge));
      assert Holds(rows, IdentityOf(q.edge));
      var p :| p in rows && IdentityOf(p.edge) == IdentityOf(q.edge) && p.id == r.id;
      RowIdIsKey(rows, p, r);
    }
    if forall q | q in rows && IdentityOf(q.edge) == key :: r.id <= q.id {
      assert r.id == m.id;
      assert MinId(rows, IdentityOf(r.edge)).Some?;
    }
  }

  /** The unique index can be built: no two surviving rows share an identity. And no identity is lost. */
  lemma DedupIsUnique(rows: seq<EdgeRow>)
    requires DistinctRowIds(rows)
    ensures forall a, b | a in Dedup(rows) && b in Dedup(rows) && IdentityOf(a.edge) == IdentityOf(b.edge) :: a == b
    ensures forall key :: Holds(Dedup(rows), key) <==> Holds(rows, key)
    ensures DistinctRowIds(Dedup(rows)) && forall r | r in Dedup(rows) :: r in rows
  {
    KeepIdsKeeps(rows, Minima(rows));
    KeepIdsStaysDistinct(rows, Minima(rows));
    forall a, b | a in Dedup(rows) && b in Dedup(rows) && IdentityOf(a.edge) == IdentityOf(b.edge)
      ensures a == b
    {
      DedupKeepsLowest(rows, a);
      DedupKeepsLowest(rows, b);
      RowIdIsKey(rows, a, b);
    }
    forall key
      ensures Holds(Dedup(rows), key) <==> Holds(rows, key)
    {
      if Holds(rows, key) {
        MinIdIsLeast(rows, key);
        var m :| m in rows && IdentityOf(m.edge) == key && m.id == MinId(rows, key).value;
        DedupKeepsLowest(rows, m);
      }
    }
  }

  /** Deleting again deletes nothing. */
  lemma DedupTwice(rows: seq<EdgeRow>)
    requires DistinctRowIds(rows)
    ensures Dedup(Dedup(rows)) == Dedup(rows)
  {
    var once := Dedup(rows);
    DedupIsUnique(rows);
    forall r | r in once
      ensures r.id in Minima(once)
    {
      forall q | q in once && IdentityOf(q.edge) == IdentityOf(r.edge)
        ensures r.id <= q.id
      {
      }
      DedupKeepsLowest(once, r);
      KeepIdsKeeps(once, Minima(once));
    }
    KeepIdsAll(once, Minima(once));
  }
}
