/** Draining the pending unresolved references page by page. */
module RefDrain {

  datatype Status = Pending | Failed

  datatype Ref = Ref(id: nat, fromNode: string, name: string, kind: string, line: int, status: Status, nameTail: string)

  /** The table in row-id order. */
  type Table = seq<Ref>

  const PARAM_CHUNK := 500
  const PERSIST_CHUNK := 1000

  ghost predicate Keyed(t: Table) {
    && (forall i, j | 0 <= i < j < |t| :: t[i].id < t[j].id)
    && (forall i | 0 <= i < |t| :: t[i].id > 0)
  }

  /** The part of a dotted or colon-separated name after its last separator. */
  function NameTail(name: string): string {
    if name == "" then ""
    else
      var last := name[|name| - 1];
      if last == '.' || last == ':' then "" else NameTail(name[..|name| - 1]) + [last]
  }

  /** `tail` is what follows the last dot or colon of the name, or the whole name if there is none. */
  ghost predicate IsTailOf(tail: string, name: string) {
    && |tail| <= |name| && name[|name| - |tail|..] == tail
    && '.' !in tail && ':' !in tail
    && (tail == name || name[|name| - |tail| - 1] in ".:")
  }

  lemma TailGrows(tail: string, name: string, c: char)
    requires IsTailOf(tail, name) && c != '.' && c != ':'
    ensures IsTailOf(tail + [c], name + [c])
  {
    var more := name + [c];
    assert more[|more| - |tail| - 1..] == name[|name| - |tail|..] + [c];
    assert tail != name ==> more[|more| - |tail| - 2] == name[|name| - |tail| - 1];
  }

  lemma {:induction false} NameTailIsTail(name: string)
    ensures IsTailOf(NameTail(name), name)
  {
    if name != "" {
      var front, last := name[..|name| - 1], name[|name| - 1];
      NameTailIsTail(front);
      assert name == front + [last];
      if last != '.' && last != ':' {
        hide IsTailOf;
        TailGrows(NameTail(front), front, last);
      }
    }
  }

  lemma NoSeparatorIn(tail: string, name: string)
    requires IsTailOf(tail, name)
    ensures forall k | |name| - |tail| <= k < |name| :: name[k] != '.' && name[k] != ':'
  {
    assert forall k | |name| - |tail| <= k < |name| :: name[k] == tail[k - (|name| - |tail|)];
  }

  /** A name has one tail. */
  lemma TailIsUnique(a: string, b: string, name: string)
    requires IsTailOf(a, name) && IsTailOf(b, name)
    ensures a == b
  {
    NoSeparatorIn(a, name);
    NoSeparatorIn(b, name);
  }

  // ----- Queries -----

  function PendingAfter(t: Table, after: nat): seq<Ref> {
    if t == [] then []
    else if t[0].status == Pending && t[0].id > after then [t[0]] + PendingAfter(t[1..], after)
    else PendingAfter(t[1..], after)
  }

  /** `LIMIT`; a negative limit is none. */
  function Limit<T>(s: seq<T>, limit: int): seq<T> {
    if limit < 0 || limit >= |s| then s else s[..limit]
  }

  /** One keyset page. */
  function BatchAfter(t: Table, after: nat, limit: int): seq<Ref> {
    Limit(PendingAfter(t, after), limit)
  }

  function Without(t: Table, ids: set<nat>): Table {
    if t == [] then []
    else if t[0].id in ids then Without(t[1..], ids)
    else [t[0]] + Without(t[1..], ids)
  }

  function Parked(r: Ref): Ref {
    r.(status := Failed, nameTail := NameTail(r.name))
  }

  function Park(t: Table, ids: set<nat>): Table {
    if t == [] then [] else [if t[0].id in ids then Parked(t[0]) else t[0]] + Park(t[1..], ids)
  }

  function Members(ids: seq<nat>): set<nat> {
    set id | id in ids
  }

  function Ids(rs: seq<Ref>): seq<nat> {
    if rs == [] then [] else [rs[0].id] + Ids(rs[1..])
  }

  lemma {:induction false} IdsMembers(rs: seq<Ref>, id: nat)
    ensures id in Ids(rs) <==> exists r :: r in rs && r.id == id
  {
    if rs != [] {
      IdsMembers(rs[1..], id);
      assert rs == [rs[0]] + rs[1..];
      assert rs[0] in rs;
    }
  }

  // ----- What a finished pass means -----

  /** Every pending reference up to row `upTo` has been attempted: deleted if it resolved, parked if not. */
  function Attempted(t: Table, resolves: Ref -> bool, upTo: nat): Table {
    if t == [] then []
    else
      var rest := Attempted(t[1..], resolves, upTo);
      if t[0].status != Pending || t[0].id > upTo then [t[0]] + rest
      else if resolves(t[0]) then rest
      else [Parked(t[0])] + rest
  }

  /** A finished pass: no bound. */
  function Drained(t: Table, resolves: Ref -> bool): Table {
    if t == [] then []
    else if t[0].status != Pending then [t[0]] + Drained(t[1..], resolves)
    else if resolves(t[0]) then Drained(t[1..], resolves)
    else [Parked(t[0])] + Drained(t[1..], resolves)
  }

  lemma {:induction false} AttemptedAll(t: Table, resolves: Ref -> bool, upTo: nat)
    requires PendingAfter(t, upTo) == []
    ensures Attempted(t, resolves, upTo) == Drained(t, resolves)
  {
    if t != [] {
      AttemptedAll(t[1..], resolves, upTo);
    }
  }

  /** A row as parking leaves it: what it was, but for its status and the tail it can be retried by. */
  ghost predicate ParkedFrom(r: Ref, was: Ref) {
    && r.status == Failed
    && r.id == was.id && r.fromNode == was.fromNode && r.name == was.name && r.kind == was.kind && r.line == was.line
    && IsTailOf(r.nameTail, r.name)
  }

  lemma ParkedIs(r: Ref)
    ensures ParkedFrom(Parked(r), r)
  {
    NameTailIsTail(r.name);
  }

  /** Parking by row id, row by row. */
  lemma {:induction false} ParkRows(t: Table, ids: set<nat>)
    ensures |Park(t, ids)| == |t|
    ensures forall i | 0 <= i < |t| :: if t[i].id in ids then ParkedFrom(Park(t, ids)[i], t[i]) else Park(t, ids)[i] == t[i]
  {
    if t != [] {
      hide ParkedFrom;
      ParkRows(t[1..], ids);
      ParkedIs(t[0]);
    }
  }

  /** What a finished pass leaves of each row, said without the pass: rows that were not pending stay, pending ones that
      do not resolve are parked under their tails, and nothing else is left. */
  ghost predicate Settled(before: Table, after: Table, resolves: Ref -> bool) {
    && (forall r | r in before && r.status != Pending :: r in after)
    && (forall r | r in before && r.status == Pending && !resolves(r) :: exists p :: p in after && ParkedFrom(p, r))
    && (forall p | p in after ::
          (p in before && p.status != Pending)
          || (exists r :: r in before && r.status == Pending && !resolves(r) && ParkedFrom(p, r)))
  }

  lemma {:induction false} DrainedKeeps(t: Table, resolves: Ref -> bool, r: Ref)
    requires r in t
    ensures r.status != Pending ==> r in Drained(t, resolves)
    ensures r.status == Pending && !resolves(r) ==> Parked(r) in Drained(t, resolves)
  {
    hide Parked;
    if r != t[0] {
      DrainedKeeps(t[1..], resolves, r);
    }
  }

  lemma {:induction false} DrainedHolds(t: Table, resolves: Ref -> bool, p: Ref)
    requires p in Drained(t, resolves)
    ensures (p in t && p.status != Pending) || exists r :: r in t && r.status == Pending && !resolves(r) && p == Parked(r)
  {
    hide Parked;
    if p in Drained(t[1..], resolves) {
      DrainedHolds(t[1..], resolves, p);
      assert forall r | r in t[1..] :: r in t;
    } else {
      assert t[0] in t;
    }
  }

  lemma DrainedIsSettled(t: Table, resolves: Ref -> bool)
    ensures Settled(t, Drained(t, resolves), resolves)
  {
    hide ParkedFrom, Parked, Drained;
    var after := Drained(t, resolves);
    forall r | r in t && r.status != Pending ensures r in after {
      DrainedKeeps(t, resolves, r);
    }
    forall r | r in t && r.status == Pending && !resolves(r) ensures exists p :: p in after && ParkedFrom(p, r) {
      DrainedKeeps(t, resolves, r);
      ParkedIs(r);
    }
    forall p | p in after
      ensures (p in t && p.status != Pending) || exists r :: r in t && r.status == Pending && !resolves(r) && ParkedFrom(p, r)
    {
      DrainedHolds(t, resolves, p);
      if r :| r in t && r.status == Pending && !resolves(r) && p == Parked(r) {
        ParkedIs(r);
      }
    }
  }

  lemma {:induction false} DrainedHasNoPending(t: Table, resolves: Ref -> bool)
    ensures PendingAfter(Drained(t, resolves), 0) == []
  {
    if t != [] {
      DrainedHasNoPending(t[1..], resolves);
    }
  }

  function Select(rs: seq<Ref>, resolves: Ref -> bool, which: bool): seq<Ref> {
    if rs == [] then []
    else if resolves(rs[0]) == which then [rs[0]] + Select(rs[1..], resolves, which)
    else Select(rs[1..], resolves, which)
  }

  /** The resolved rows of a batch deleted, the others parked, both by row id. */
  function Persisted(t: Table, batch: seq<Ref>, resolves: Ref -> bool): Table {
    Park(Without(t, Members(Ids(Select(batch, resolves, true)))), Members(Ids(Select(batch, resolves, false))))
  }

  lemma {:induction false} SelectMembers(rs: seq<Ref>, resolves: Ref -> bool, which: bool)
    ensures forall r :: r in Select(rs, resolves, which) <==> r in rs && resolves(r) == which
  {
    if rs != [] {
      SelectMembers(rs[1..], resolves, which);
    }
  }

  lemma {:induction false} PendingAfterMembers(t: Table, after: nat)
    ensures forall r :: r in PendingAfter(t, after) <==> r in t && r.status == Pending && r.id > after
  {
    if t != [] {
      PendingAfterMembers(t[1..], after);
    }
  }

  /** Pages come in ascending row-id order, each row once. */
  lemma {:induction false} PendingAfterKeyed(t: Table, after: nat)
    requires Keyed(t)
    ensures Keyed(PendingAfter(t, after))
  {
    if t != [] {
      PendingAfterKeyed(t[1..], after);
      PendingAfterMembers(t[1..], after);
      var rest := PendingAfter(t[1..], after);
      forall j | 0 <= j < |rest|
        ensures t[0].id < rest[j].id
      {
        assert rest[j] in t[1..];
      }
    }
  }

  lemma {:induction false} MemberAfter(t: Table, after: nat, i: nat)
    requires i < |PendingAfter(t, after)|
    ensures PendingAfter(t, after)[i] in t && PendingAfter(t, after)[i].id > after
  {
    if t[0].status == Pending && t[0].id > after {
      if i > 0 {
        MemberAfter(t[1..], after, i - 1);
      }
    } else {
      MemberAfter(t[1..], after, i);
    }
  }

  /** Seeking past the last row of what has been read gives the rest. */
  lemma {:induction false} SeekIsDrop(t: Table, after: nat, k: nat)
    requires Keyed(t) && 0 < k <= |PendingAfter(t, after)|
    ensures PendingAfter(t, PendingAfter(t, after)[k - 1].id) == PendingAfter(t, after)[k..]
  {
    var all := PendingAfter(t, after);
    var last := all[k - 1];
    MemberAfter(t, after, k - 1);
    var rest := PendingAfter(t[1..], after);
    if t[0].status == Pending && t[0].id > after {
      if k == 1 {
        assert last == t[0];
        SeekBelowAll(t[1..], t[0].id, after);
      } else {
        assert rest[k - 2] == last && all[k..] == rest[k - 1..];
        MemberAfter(t[1..], after, k - 2);
        SeekIsDrop(t[1..], after, k - 1);
      }
    } else {
      SeekIsDrop(t[1..], after, k);
    }
  }

  lemma {:induction false} SeekBelowAll(t: Table, id: nat, after: nat)
    requires after <= id && forall k | 0 <= k < |t| :: t[k].id > id
    ensures PendingAfter(t, id) == PendingAfter(t, after)
  {
    if t != [] {
      assert forall k | 0 <= k < |t| - 1 :: t[1..][k] == t[k + 1];
      SeekBelowAll(t[1..], id, after);
    }
  }

  /** Attempting earlier rows does not disturb a later page. */
  lemma {:induction false} PageUnaffected(t: Table, resolves: Ref -> bool, upTo: nat, after: nat)
    requires upTo <= after
    ensures PendingAfter(Attempted(t, resolves, upTo), after) == PendingAfter(t, after)
  {
    if t != [] {
      PageUnaffected(t[1..], resolves, upTo, after);
    }
  }

  lemma {:induction false} NothingAttempted(t: Table, resolves: Ref -> bool)
    requires Keyed(t)
    ensures Attempted(t, resolves, 0) == t
  {
    if t != [] {
      NothingAttempted(t[1..], resolves);
    }
  }

  /** Deleting the resolved rows of a batch by row id and parking the others is attempting exactly the batch. */
  lemma {:induction false} PersistIsAttempt(t: Table, resolves: Ref -> bool, from: nat, to: nat,
                                            done: set<nat>, parked: set<nat>)
    requires from <= to
    requires forall k | 0 <= k < |t| :: t[k].id in done <==> InBatch(t[k], from, to) && resolves(t[k])
    requires forall k | 0 <= k < |t| :: t[k].id in parked <==> InBatch(t[k], from, to) && !resolves(t[k])
    ensures Park(Without(Attempted(t, resolves, from), done), parked) == Attempted(t, resolves, to)
  {
    if t != [] {
      assert forall k | 0 <= k < |t| - 1 :: t[1..][k] == t[k + 1];
      PersistIsAttempt(t[1..], resolves, from, to, done, parked);
    }
  }

  ghost predicate InBatch(r: Ref, from: nat, to: nat) {
    r.status == Pending && from < r.id <= to
  }

  lemma {:induction false} WithoutUnion(t: Table, a: set<nat>, b: set<nat>)
    ensures Without(Without(t, a), b) == Without(t, a + b)
  {
    if t != [] {
      WithoutUnion(t[1..], a, b);
      if t[0].id !in a {
        assert Without(t, a)[1..] == Without(t[1..], a);
      }
    }
  }

  lemma {:induction false} ParkUnion(t: Table, a: set<nat>, b: set<nat>)
    ensures Park(Park(t, a), b) == Park(t, a + b)
  {
    if t != [] {
      ParkUnion(t[1..], a, b);
    }
  }

  lemma {:induction false} NoneTouched(t: Table)
    ensures Without(t, {}) == t && Park(t, {}) == t
  {
    if t != [] {
      NoneTouched(t[1..]);
    }
  }

  lemma {:induction false} WithoutShrinks(t: Table, ids: set<nat>)
    ensures |Without(t, ids)| <= |t|
    ensures |Without(t, ids)| == |t| ==> forall r | r in t :: r.id !in ids
    ensures forall r :: r in Without(t, ids) <==> r in t && r.id !in ids
  {
    if t != [] {
      WithoutShrinks(t[1..], ids);
    }
  }

  function CountId(t: Table, id: nat): nat {
    if t == [] then 0 else (if t[0].id == id then 1 else 0) + CountId(t[1..], id)
  }

  /** How many rows the updates by id touch, one update after the other. */
  function CountIds(t: Table, ids: seq<nat>): nat {
    if ids == [] then 0 else CountIds(t, ids[..|ids| - 1]) + CountId(t, ids[|ids| - 1])
  }

  lemma {:induction false} CountIdIs(t: Table, id: nat)
    requires Keyed(t)
    ensures CountId(t, id) == if exists r :: r in t && r.id == id then 1 else 0
  {
    if t != [] {
      CountIdIs(t[1..], id);
      assert t == [t[0]] + t[1..];
      assert forall r | r in t[1..] :: r.id > t[0].id;
    }
  }

  ghost predicate IsStored(t: Table, id: nat) {
    exists r :: r in t && r.id == id
  }

  ghost function StoredPlaces(t: Table, ids: seq<nat>): set<int> {
    set i | 0 <= i < |ids| && IsStored(t, ids[i])
  }

  lemma StoredMore(t: Table, ids: seq<nat>, id: nat)
    ensures StoredPlaces(t, ids + [id]) == StoredPlaces(t, ids) + if IsStored(t, id) then {|ids|} else {}
    ensures |ids| !in StoredPlaces(t, ids)
  {
    hide IsStored;
  }

  /** Each id counts once, if its row is stored. */
  lemma {:induction false} CountIdsIs(t: Table, ids: seq<nat>)
    requires Keyed(t)
    ensures CountIds(t, ids) == |StoredPlaces(t, ids)|
  {
    if ids == [] {
      assert StoredPlaces(t, ids) == {};
    } else {
      var last := |ids| - 1;
      CountIdIs(t, ids[last]);
      hide Keyed, CountId, StoredPlaces;
      CountIdsIs(t, ids[..last]);
      StoredMore(t, ids[..last], ids[last]);
      assert ids == ids[..last] + [ids[last]];
    }
  }

  lemma {:induction false} ParkKeepsCount(t: Table, parked: set<nat>, id: nat)
    ensures CountId(Park(t, parked), id) == CountId(t, id)
  {
    if t != [] {
      ParkKeepsCount(t[1..], parked, id);
    }
  }

  lemma {:induction false} ParkKeepsCounts(t: Table, parked: set<nat>, ids: seq<nat>)
    ensures CountIds(Park(t, parked), ids) == CountIds(t, ids)
  {
    if ids != [] {
      ParkKeepsCounts(t, parked, ids[..|ids| - 1]);
      ParkKeepsCount(t, parked, ids[|ids| - 1]);
    }
  }

  lemma {:induction false} CountConcat(t: Table, a: seq<nat>, b: seq<nat>)
    ensures CountIds(t, a + b) == CountIds(t, a) + CountIds(t, b)
  {
    if b == [] {
      assert a + b == a;
    } else {
      assert (a + b)[..|a + b| - 1] == a + b[..|b| - 1];
      CountConcat(t, a, b[..|b| - 1]);
    }
  }

  lemma {:induction false} CountFinds(t: Table, id: nat, r: Ref)
    requires r in t && r.id == id
    ensures CountId(t, id) > 0
  {
    if t[0] != r {
      CountFinds(t[1..], id, r);
    }
  }

  lemma {:induction false} CountsFind(t: Table, ids: seq<nat>, r: Ref)
    requires r in t && r.id in ids
    ensures CountIds(t, ids) > 0
  {
    if ids[|ids| - 1] == r.id {
      CountFinds(t, r.id, r);
    } else {
      assert ids == ids[..|ids| - 1] + [ids[|ids| - 1]];
      CountsFind(t, ids[..|ids| - 1], r);
    }
  }

  // ----- The store and the loop -----

  class RefStore {
    var rows: Table

    constructor (rows: Table)
      ensures this.rows == rows
    {
      this.rows := rows;
    }

    /** Deletes rows by id, 500 parameters to a statement. */
    method DeleteReferencesByRowIds(ids: seq<nat>) returns (changed: nat)
      modifies this
      ensures rows == Without(old(rows), Members(ids))
      ensures changed == |old(rows)| - |rows|
    {
      changed := 0;
      var i := 0;
      NoneTouched(rows);
      assert Members(ids[..0]) == {};
      while i < |ids|
        invariant 0 <= i
        invariant rows == Without(old(rows), Members(ids[..if i <= |ids| then i else |ids|]))
        invariant changed == |old(rows)| - |rows|
      {
        var end := if i + PARAM_CHUNK <= |ids| then i + PARAM_CHUNK else |ids|;
        assert end - i <= 500;
        var chunk := Members(ids[i..end]);
        WithoutShrinks(rows, chunk);
        WithoutUnion(old(rows), Members(ids[..i]), chunk);
        assert Members(ids[..i]) + chunk == Members(ids[..end]);
        changed := changed + |rows| - |Without(rows, chunk)|;
        rows := Without(rows, chunk);
        i := i + PARAM_CHUNK;
      }
      assert ids[..|ids|] == ids;
    }

    /** Parks rows by id, one update each. */
    method MarkReferencesFailedByRowIds(ids: seq<nat>) returns (changed: nat)
      modifies this
      ensures rows == Park(old(rows), Members(ids))
      ensures changed == CountIds(old(rows), ids)
    {
      changed := 0;
      NoneTouched(rows);
      assert Members(ids[..0]) == {};
      for k := 0 to |ids|
        invariant rows == Park(old(rows), Members(ids[..k]))
        invariant changed == CountIds(old(rows), ids[..k])
      {
        assert Members(ids[..k]) + {ids[k]} == Members(ids[..k + 1]);
        assert ids[..k + 1][..k] == ids[..k];
        ParkUnion(old(rows), Members(ids[..k]), {ids[k]});
        ParkKeepsCount(old(rows), Members(ids[..k]), ids[k]);
        changed := changed + CountId(rows, ids[k]);
        rows := Park(rows, {ids[k]});
      }
      assert ids[..|ids|] == ids;
    }

    method GetUnresolvedReferencesCount() returns (n: nat)
      ensures n == |PendingAfter(rows, 0)|
    {
      n := |PendingAfter(rows, 0)|;
    }

    method DeleteInChunks(ids: seq<nat>) returns (removed: nat)
      modifies this
      ensures rows == Without(old(rows), Members(ids))
      ensures removed == |old(rows)| - |rows|
    {
      removed := 0;
      var i := 0;
      NoneTouched(rows);
      assert Members(ids[..0]) == {};
      while i < |ids|
        invariant 0 <= i
        invariant rows == Without(old(rows), Members(ids[..if i <= |ids| then i else |ids|]))
        invariant removed == |old(rows)| - |rows|
      {
        var end := if i + PERSIST_CHUNK <= |ids| then i + PERSIST_CHUNK else |ids|;
        assert end - i <= 1000;
        WithoutUnion(old(rows), Members(ids[..i]), Members(ids[i..end]));
        assert Members(ids[..i]) + Members(ids[i..end]) == Members(ids[..end]);
        var n := DeleteReferencesByRowIds(ids[i..end]);
        removed := removed + n;
        i := i + PERSIST_CHUNK;
      }
      assert ids[..|ids|] == ids;
    }

    method ParkInChunks(ids: seq<nat>) returns (removed: nat)
      modifies this
      ensures rows == Park(old(rows), Members(ids))
      ensures removed == CountIds(old(rows), ids)
    {
      removed := 0;
      var i := 0;
      NoneTouched(rows);
      assert Members(ids[..0]) == {};
      while i < |ids|
        invariant 0 <= i
        invariant rows == Park(old(rows), Members(ids[..if i <= |ids| then i else |ids|]))
        invariant removed == CountIds(old(rows), ids[..if i <= |ids| then i else |ids|])
      {
        var end := if i + PERSIST_CHUNK <= |ids| then i + PERSIST_CHUNK else |ids|;
        assert end - i <= 1000;
        ParkUnion(old(rows), Members(ids[..i]), Members(ids[i..end]));
        assert Members(ids[..i]) + Members(ids[i..end]) == Members(ids[..end]);
        assert ids[..end] == ids[..i] + ids[i..end];
        CountConcat(old(rows), ids[..i], ids[i..end]);
        ParkKeepsCounts(old(rows), Members(ids[..i]), ids[i..end]);
        var n := MarkReferencesFailedByRowIds(ids[i..end]);
        removed := removed + n;
        i := i + PERSIST_CHUNK;
      }
      assert ids[..|ids|] == ids;
    }

    /** Persists one settled batch, in sub-transactions of 1000 rows: resolved rows are deleted, the others parked. */
    method Persist(batch: seq<Ref>, resolves: Ref -> bool) returns (removed: nat)
      requires forall r | r in batch :: r in rows
      modifies this
      ensures rows == Persisted(old(rows), batch, resolves)
      ensures var done := Without(old(rows), Members(Ids(Select(batch, resolves, true))));
              removed == |old(rows)| - |done| + CountIds(done, Ids(Select(batch, resolves, false)))
      ensures batch != [] && Keyed(old(rows)) ==> removed > 0
    {
      var done, parked := Ids(Select(batch, resolves, true)), Ids(Select(batch, resolves, false));
      removed := DeleteInChunks(done);
      ghost var deleted := rows;
      var n := ParkInChunks(parked);
      if batch != [] && Keyed(old(rows)) {
        BatchRemoves(old(rows), batch, resolves, removed, n, deleted);
      }
      removed := removed + n;
    }

    /** The batched pass. The next page is read before the current one is persisted; the guard gives up only on a batch
        that changed nothing and did not lower the pending count. Whatever the page size and whatever resolves: every
        reference pending at the start is attempted exactly once, in row-id order, and none is left pending. */
    method Drain(resolves: Ref -> bool, batchSize: int) returns (attempted: seq<Ref>)
      requires Keyed(rows)
      modifies this
      ensures batchSize != 0 ==> attempted == PendingAfter(old(rows), 0)
      ensures batchSize != 0 ==> rows == Drained(old(rows), resolves) && PendingAfter(rows, 0) == []
      ensures batchSize != 0 ==> Settled(old(rows), rows, resolves)
      ensures batchSize == 0 ==> attempted == [] && rows == old(rows)
    {
      hide Attempted, PendingAfter, Persisted, Drained, Keyed, Settled;
      ghost var table, all := rows, PendingAfter(rows, 0);
      ghost var k := 0;
      attempted := [];
      NothingAttempted(table, resolves);
      PendingAfterKeyed(table, 0);
      var prevRemaining := GetUnresolvedReferencesCount();
      var batch := BatchAfter(rows, 0, batchSize);
      while |batch| > 0
        invariant Progress(table, resolves, all, k, batch, batchSize, rows)
        invariant attempted == all[..k] && (batchSize == 0 ==> k == 0)
        decreases |all| - k
      {
        ghost var j := k + |batch|;
        NextBatch(table, resolves, all, k, batch, batchSize);
        var nextBatch := BatchAfter(rows, batch[|batch| - 1].id, batchSize);
        attempted := attempted + batch;
        var removed := Persist(batch, resolves);
        if removed <= 0 {
          var remaining := GetUnresolvedReferencesCount();
          if remaining >= prevRemaining {
            break;
          }
          prevRemaining := remaining;
        }
        k, batch := j, nextBatch;
      }
      if batchSize != 0 {
        assert k == |all| && all[..k] == all;
        AllAttempted(table, resolves, all);
        DrainedIsSettled(table, resolves);
      }
    }
  }

  /** The row id of the last of the first `k` pending references. */
  function Bound(all: seq<Ref>, k: nat): nat
    requires k <= |all|
  {
    if k == 0 then 0 else all[k - 1].id
  }

  /** The state of the pass after the first `k` pending references. */
  ghost predicate Progress(t: Table, resolves: Ref -> bool, all: seq<Ref>, k: nat, batch: seq<Ref>, batchSize: int, rows: Table) {
    && Keyed(t) && all == PendingAfter(t, 0) && k <= |all|
    && batch == Limit(all[k..], batchSize)
    && rows == Attempted(t, resolves, Bound(all, k))
  }

  lemma LimitIsWindow(all: seq<Ref>, k: nat, batchSize: int)
    requires k <= |all|
    ensures var batch := Limit(all[k..], batchSize);
            k + |batch| <= |all| && batch == all[k..k + |batch|] && all[..k] + batch == all[..k + |batch|]
  {
  }

  /** What one round of the loop may rely on: the prefetched page continues where the current one ends, and persisting
      the current one attempts exactly its rows. */
  lemma NextBatch(t: Table, resolves: Ref -> bool, all: seq<Ref>, k: nat, batch: seq<Ref>, batchSize: int)
    requires Progress(t, resolves, all, k, batch, batchSize, Attempted(t, resolves, if k <= |all| then Bound(all, k) else 0))
    requires |batch| > 0
    ensures var rows, j := Attempted(t, resolves, Bound(all, k)), k + |batch|;
            && Keyed(rows) && (forall r | r in batch :: r in rows)
            && j <= |all| && all[..k] + batch == all[..j]
            && Progress(t, resolves, all, j, BatchAfter(rows, batch[|batch| - 1].id, batchSize), batchSize,
                        Persisted(rows, batch, resolves))
  {
    hide Attempted, Persisted, PendingAfter, Keyed;
    var j := k + |batch|;
    LimitIsWindow(all, k, batchSize);
    hide Limit;
    assert batch == all[k..j] && batch[|batch| - 1] == all[j - 1];
    SeekIsDrop(t, 0, j);
    BoundsAscend(t, all, k, j);
    PageUnaffected(t, resolves, Bound(all, k), all[j - 1].id);
    PersistBatch(t, resolves, all, k, j);
  }

  lemma AllAttempted(t: Table, resolves: Ref -> bool, all: seq<Ref>)
    requires Keyed(t) && all == PendingAfter(t, 0)
    ensures Attempted(t, resolves, Bound(all, |all|)) == Drained(t, resolves)
    ensures PendingAfter(Drained(t, resolves), 0) == []
  {
    if all != [] {
      SeekIsDrop(t, 0, |all|);
    }
    AttemptedAll(t, resolves, Bound(all, |all|));
    DrainedHasNoPending(t, resolves);
  }

  /** Persisting the batch `all[k..j]` moves the attempted bound from the last row before it to its own last row. */
  lemma PersistBatch(t: Table, resolves: Ref -> bool, all: seq<Ref>, k: nat, j: nat)
    requires Keyed(t) && all == PendingAfter(t, 0) && k < j <= |all|
    ensures var rows := Attempted(t, resolves, Bound(all, k));
            && Keyed(rows) && (forall r | r in all[k..j] :: r in rows)
            && Persisted(rows, all[k..j], resolves) == Attempted(t, resolves, Bound(all, j))
  {
    hide Attempted, PendingAfter, Select, Ids, Keyed;
    var batch, upTo := all[k..j], Bound(all, k);
    AttemptedKeyed(t, resolves, upTo);
    forall r | r in batch
      ensures r in t && r in Attempted(t, resolves, upTo)
    {
      StillThere(t, resolves, all, k, j, r);
    }
    var done, parked := Members(Ids(Select(batch, resolves, true))), Members(Ids(Select(batch, resolves, false)));
    forall i | 0 <= i < |t|
      ensures t[i].id in done <==> InBatch(t[i], upTo, Bound(all, j)) && resolves(t[i])
      ensures t[i].id in parked <==> InBatch(t[i], upTo, Bound(all, j)) && !resolves(t[i])
    {
      BatchMembers(t, all, k, j, i);
      SelectedIds(t, resolves, batch, true, i);
      SelectedIds(t, resolves, batch, false, i);
    }
    BoundsAscend(t, all, k, j);
    PersistIsAttempt(t, resolves, upTo, Bound(all, j), done, parked);
  }

  lemma BoundsAscend(t: Table, all: seq<Ref>, k: nat, j: nat)
    requires Keyed(t) && all == PendingAfter(t, 0) && k < j <= |all|
    ensures Bound(all, k) <= Bound(all, j)
  {
    PendingAfterKeyed(t, 0);
    assert k > 0 ==> all[k - 1].id < all[j - 1].id;
  }

  /** The rows of the next batch have not been touched yet. */
  lemma StillThere(t: Table, resolves: Ref -> bool, all: seq<Ref>, k: nat, j: nat, r: Ref)
    requires Keyed(t) && all == PendingAfter(t, 0) && k < j <= |all| && r in all[k..j]
    ensures r in t && r in Attempted(t, resolves, Bound(all, k))
  {
    hide Attempted, PendingAfter, Keyed;
    var upTo := Bound(all, k);
    PendingAfterMembers(t, 0);
    assert r in all;
    var i :| 0 <= i < |t| && t[i] == r;
    BatchMembers(t, all, k, j, i);
    PendingAfterMembers(t, upTo);
    PageUnaffected(t, resolves, upTo, upTo);
    PendingAfterMembers(Attempted(t, resolves, upTo), upTo);
    assert r in PendingAfter(t, upTo);
  }

  lemma {:induction false} BatchMembers(t: Table, all: seq<Ref>, k: nat, j: nat, i: nat)
    requires Keyed(t) && all == PendingAfter(t, 0) && k < j <= |all| && i < |t|
    ensures t[i] in all[k..j] <==> InBatch(t[i], Bound(all, k), Bound(all, j))
  {
    PendingAfterKeyed(t, 0);
    PendingAfterMembers(t, 0);
    var r := t[i];
    assert r in t;
    if r in all {
      var m :| 0 <= m < |all| && all[m] == r;
      WindowByIndex(all, k, j, m);
    }
  }

  lemma WindowByIndex(all: seq<Ref>, k: nat, j: nat, m: nat)
    requires Keyed(all) && k < j <= |all| && m < |all|
    ensures all[m] in all[k..j] <==> k <= m < j
    ensures Bound(all, k) < all[m].id <= Bound(all, j) <==> k <= m < j
  {
    if all[m] in all[k..j] {
      var n :| 0 <= n < j - k && all[k..j][n] == all[m];
      assert all[k + n] == all[m];
    }
    if k <= m < j {
      assert all[k..j][m - k] == all[m];
    }
  }

  lemma SelectedIds(t: Table, resolves: Ref -> bool, batch: seq<Ref>, which: bool, i: nat)
    requires Keyed(t) && i < |t| && forall r | r in batch :: r in t
    ensures t[i].id in Ids(Select(batch, resolves, which)) <==> t[i] in batch && resolves(t[i]) == which
  {
    var chosen := Select(batch, resolves, which);
    SelectMembers(batch, resolves, which);
    IdsMembers(chosen, t[i].id);
    if t[i].id in Ids(chosen) {
      var r :| r in chosen && r.id == t[i].id;
      var n :| 0 <= n < |t| && t[n] == r;
      assert n == i;
    }
  }

  lemma {:induction false} AttemptedAbove(t: Table, resolves: Ref -> bool, upTo: nat, id: nat)
    requires forall m | 0 <= m < |t| :: t[m].id > id
    ensures forall m | 0 <= m < |Attempted(t, resolves, upTo)| :: Attempted(t, resolves, upTo)[m].id > id
  {
    if t != [] {
      AttemptedAbove(t[1..], resolves, upTo, id);
    }
  }

  lemma KeyedCons(r: Ref, t: Table)
    requires Keyed(t) && forall k | 0 <= k < |t| :: t[k].id > r.id
    ensures r.id > 0 ==> Keyed([r] + t)
  {
  }

  lemma {:induction false} AttemptedKeyed(t: Table, resolves: Ref -> bool, upTo: nat)
    requires Keyed(t)
    ensures Keyed(Attempted(t, resolves, upTo))
  {
    if t != [] {
      AttemptedKeyed(t[1..], resolves, upTo);
      AttemptedAbove(t[1..], resolves, upTo, t[0].id);
      KeyedCons(t[0], Attempted(t[1..], resolves, upTo));
      KeyedCons(t[0].(status := Failed), Attempted(t[1..], resolves, upTo));
    }
  }

  /** A non-empty batch of stored rows always takes something out of the pending set. */
  lemma {:induction false} BatchRemoves(t: Table, batch: seq<Ref>, resolves: Ref -> bool, gone: nat, parked: nat, deleted: Table)
    requires batch != [] && (forall r | r in batch :: r in t) && Keyed(t)
    requires deleted == Without(t, Members(Ids(Select(batch, resolves, true)))) && gone == |t| - |deleted|
    requires parked == CountIds(deleted, Ids(Select(batch, resolves, false)))
    ensures gone + parked > 0
  {
    var r := batch[0];
    assert r in batch;
    SelectMembers(batch, resolves, true);
    SelectMembers(batch, resolves, false);
    WithoutShrinks(t, Members(Ids(Select(batch, resolves, true))));
    var which := Select(batch, resolves, resolves(r));
    IdsMembers(which, r.id);
    assert r in which;
    if gone == 0 {
      assert r in deleted;
      CountsFind(deleted, Ids(Select(batch, resolves, false)), r);
    }
  }

  // ----- The same pass with cleanup by key tuple -----

  predicate SameKey(a: Ref, b: Ref) {
    a.fromNode == b.fromNode && a.name == b.name && a.kind == b.kind
  }

  /** `DELETE ... WHERE from_node_id = ? AND reference_name = ? AND reference_kind = ?` for every reference given. */
  function WithoutKeys(t: Table, refs: seq<Ref>): Table {
    if t == [] then []
    else if exists r | r in refs :: SameKey(r, t[0]) then WithoutKeys(t[1..], refs)
    else [t[0]] + WithoutKeys(t[1..], refs)
  }

  /** Which references the pass attempts when cleanup goes by key tuple, whichever of them resolve: the page at hand, then
      the page read ahead, without the siblings of the page at hand among what is still unread. */
  function KeyAttempts(batch: seq<Ref>, unread: seq<Ref>, batchSize: nat): seq<Ref>
    requires batchSize > 0
    decreases |batch| + |unread|
  {
    if batch == [] then []
    else
      var next := Limit(unread, batchSize);
      WithoutKeysShrinks(unread[|next|..], batch);
      batch + KeyAttempts(next, WithoutKeys(unread[|next|..], batch), batchSize)
  }

  lemma {:induction false} WithoutKeysShrinks(t: Table, refs: seq<Ref>)
    ensures |WithoutKeys(t, refs)| <= |t|
  {
    if t != [] {
      WithoutKeysShrinks(t[1..], refs);
    }
  }

  lemma {:induction false} WithoutKeysSeek(t: Table, refs: seq<Ref>, after: nat)
    ensures PendingAfter(WithoutKeys(t, refs), after) == WithoutKeys(PendingAfter(t, after), refs)
  {
    if t != [] {
      WithoutKeysSeek(t[1..], refs, after);
    }
  }

  /** The columns a key is made of. */
  ghost predicate SameColumns(a: Ref, b: Ref) {
    [a.fromNode, a.name, a.kind] == [b.fromNode, b.name, b.kind]
  }

  lemma KeyIsColumns(a: Ref, b: Ref)
    ensures SameKey(a, b) <==> SameColumns(a, b)
  {
    assert SameColumns(a, b) ==>
             [a.fromNode, a.name, a.kind][0] == [b.fromNode, b.name, b.kind][0]
             && [a.fromNode, a.name, a.kind][1] == [b.fromNode, b.name, b.kind][1]
             && [a.fromNode, a.name, a.kind][2] == [b.fromNode, b.name, b.kind][2];
  }

  /** Exactly the rows without the key of a given reference stay. */
  lemma WithoutKeysExactly(t: Table, refs: seq<Ref>, r: Ref)
    ensures r in WithoutKeys(t, refs) <==> r in t && !exists q | q in refs :: SameColumns(q, r)
  {
    hide SameKey, SameColumns;
    WithoutKeysHolds(t, refs, r);
    forall q ensures SameKey(q, r) <==> SameColumns(q, r) {
      KeyIsColumns(q, r);
    }
  }

  lemma {:induction false} WithoutKeysHolds(t: Table, refs: seq<Ref>, r: Ref)
    ensures r in WithoutKeys(t, refs) <==> r in t && !exists q | q in refs :: SameKey(q, r)
  {
    if t != [] {
      WithoutKeysHolds(t[1..], refs, r);
      assert t == [t[0]] + t[1..];
    }
  }

  lemma {:induction false} WithoutKeysKeyed(t: Table, refs: seq<Ref>)
    requires Keyed(t)
    ensures Keyed(WithoutKeys(t, refs))
  {
    if t != [] {
      WithoutKeysKeyed(t[1..], refs);
      var rest := WithoutKeys(t[1..], refs);
      forall k | 0 <= k < |rest|
        ensures rest[k].id > t[0].id
      {
        WithoutKeysHolds(t[1..], refs, rest[k]);
      }
      KeyedCons(t[0], rest);
    }
  }

  /** Nothing is left out by a cleanup exactly when it has no sibling among the rows. */
  lemma {:induction false} WithoutKeysAll(t: Table, refs: seq<Ref>)
    ensures |WithoutKeys(t, refs)| == |t| <==> NoSiblings(refs, t)
    ensures NoSiblings(refs, t) ==> WithoutKeys(t, refs) == t
  {
    if t != [] {
      WithoutKeysShrinks(t[1..], refs);
      WithoutKeysAll(t[1..], refs);
      assert NoSiblings(refs, t) <==> NoSiblings(refs, t[1..]) && !exists q | q in refs :: SameKey(q, t[0]) by {
        assert forall j | 0 <= j < |t| - 1 :: t[1..][j] == t[j + 1];
      }
      assert [t[0]] + t[1..] == t;
    }
  }

  ghost predicate NoSiblings(refs: seq<Ref>, t: seq<Ref>) {
    forall i, j | 0 <= i < |refs| && 0 <= j < |t| :: !SameKey(refs[i], t[j])
  }

  /** The page a pending reference is on, as long as nothing is left out before it. */
  function Page(i: nat, batchSize: nat): nat
    requires batchSize > 0
  {
    i / batchSize
  }

  /** Same-key references are always on one page or on neighbouring pages. */
  ghost predicate SiblingsClose(all: seq<Ref>, batchSize: nat)
    requires batchSize > 0
  {
    forall i, j | 0 <= i < j < |all| && SameKey(all[i], all[j]) :: Page(j, batchSize) <= Page(i, batchSize) + 1
  }

  lemma {:induction false} KeyAttemptsLength(batch: seq<Ref>, unread: seq<Ref>, batchSize: nat)
    requires batchSize > 0
    ensures |KeyAttempts(batch, unread, batchSize)| <= |batch| + |unread|
    decreases |batch| + |unread|
  {
    if batch != [] {
      var next := Limit(unread, batchSize);
      WithoutKeysShrinks(unread[|next|..], batch);
      KeyAttemptsLength(next, WithoutKeys(unread[|next|..], batch), batchSize);
    }
  }

  lemma PageNumbers(i: nat, batchSize: nat)
    requires batchSize > 0
    ensures i < batchSize ==> Page(i, batchSize) == 0
    ensures Page(i + batchSize, batchSize) == Page(i, batchSize) + 1
  {
    var q, r := i / batchSize, i % batchSize;
    assert i == batchSize * q + r;
    if i < batchSize {
      SmallQuotient(i, batchSize);
    }
    NextQuotient(q, r, batchSize);
    assert i + batchSize == (q + 1) * batchSize + r;
  }

  lemma SmallQuotient(i: nat, n: nat)
    requires i < n
    ensures i / n == 0
  {
  }

  lemma NextQuotient(q: nat, r: nat, n: nat)
    requires r < n
    ensures ((q + 1) * n + r) / n == q + 1
  {
    var x := (q + 1) * n + r;
    var d := x / n;
    assert x == n * d + x % n;
    assert d <= q ==> n * d <= n * q;
    assert d >= q + 2 ==> n * d >= n * (q + 2);
  }

  function Far(all: seq<Ref>, n: nat): seq<Ref>
    requires 0 < n <= |all|
  {
    all[n..][|Limit(all[n..], n)|..]
  }

  lemma FarAt(all: seq<Ref>, n: nat, j: nat)
    requires 0 < n && 2 * n <= j < |all|
    ensures j - 2 * n < |Far(all, n)| && Far(all, n)[j - 2 * n] == all[j] && Page(j, n) >= 2
  {
    PageNumbers(j - 2 * n, n);
    PageNumbers(j - n, n);
  }

  lemma NoneFar(all: seq<Ref>, n: nat)
    requires 0 < n <= |all| && SiblingsClose(all, n)
    ensures NoSiblings(all[..n], Far(all, n))
  {
    hide Page;
    forall i, j | 0 <= i < n && 0 <= j < |Far(all, n)|
      ensures !SameKey(all[..n][i], Far(all, n)[j])
    {
      FarAt(all, n, 2 * n + j);
      PageNumbers(i, n);
    }
  }

  lemma RestIsClose(all: seq<Ref>, n: nat)
    requires 0 < n <= |all| && SiblingsClose(all, n)
    ensures SiblingsClose(all[n..], n)
  {
    hide Page;
    var rest := all[n..];
    forall i, j | 0 <= i < j < |rest| && SameKey(rest[i], rest[j])
      ensures Page(j, n) <= Page(i, n) + 1
    {
      PageNumbers(i, n);
      PageNumbers(j, n);
      assert rest[i] == all[i + n] && rest[j] == all[j + n];
    }
  }

  lemma SiblingPair(all: seq<Ref>, n: nat, i: nat, j: nat)
    requires 0 < n <= |all| && i < j < |all|
    requires NoSiblings(all[..n], Far(all, n)) && SiblingsClose(all[n..], n)
    ensures SameKey(all[i], all[j]) ==> Page(j, n) <= Page(i, n) + 1
  {
    hide Page, Far;
    var rest := all[n..];
    if i >= n {
      PageNumbers(i - n, n);
      PageNumbers(j - n, n);
      assert rest[i - n] == all[i] && rest[j - n] == all[j];
    } else if j < 2 * n {
      PageNumbers(j, n);
      if j >= n {
        PageNumbers(j - n, n);
      }
    } else {
      FarAt(all, n, j);
      assert all[..n][i] == all[i];
    }
  }

  /** Close siblings, page by page: none of the first page beyond the second, and the rest close again. */
  lemma SiblingsCloseFrom(all: seq<Ref>, n: nat)
    requires 0 < n <= |all|
    ensures SiblingsClose(all, n) <==> NoSiblings(all[..n], Far(all, n)) && SiblingsClose(all[n..], n)
  {
    hide Page, NoSiblings;
    if SiblingsClose(all, n) {
      NoneFar(all, n);
      RestIsClose(all, n);
    }
    if NoSiblings(all[..n], Far(all, n)) && SiblingsClose(all[n..], n) {
      forall i, j | 0 <= i < j < |all|
        ensures SameKey(all[i], all[j]) ==> Page(j, n) <= Page(i, n) + 1
      {
        SiblingPair(all, n, i, j);
      }
    }
  }

  /** One page on: all is attempted when the cleanup finds no sibling beyond the next page and the rest is attempted. */
  lemma {:induction false} AttemptsFrom(first: seq<Ref>, unread: seq<Ref>, batchSize: nat)
    requires batchSize > 0 && first != []
    ensures var next := Limit(unread, batchSize);
            var far := unread[|next|..];
            KeyAttempts(first, unread, batchSize) == first + unread <==>
            NoSiblings(first, far) && KeyAttempts(next, far, batchSize) == unread
  {
    hide KeyAttempts, WithoutKeys, NoSiblings;
    var next := Limit(unread, batchSize);
    var far := unread[|next|..];
    var kept := WithoutKeys(far, first);
    WithoutKeysAll(far, first);
    WithoutKeysShrinks(far, first);
    KeyAttemptsStep(first, unread, batchSize);
    KeyAttemptsLength(next, kept, batchSize);
    SamePrefix(first, KeyAttempts(next, kept, batchSize), unread);
  }

  /** Cleanup by key tuple attempts every reference exactly when same-key references are never two pages apart. */
  lemma {:induction false} KeyCleanupAttemptsAll(all: seq<Ref>, batchSize: nat)
    requires batchSize > 0
    ensures var first := Limit(all, batchSize);
            KeyAttempts(first, all[|first|..], batchSize) == all <==> SiblingsClose(all, batchSize)
    decreases |all|
  {
    hide KeyAttempts, SiblingsClose, NoSiblings;
    if |all| <= batchSize {
      OnePage(all, batchSize);
    } else {
      var first, unread := all[..batchSize], all[batchSize..];
      assert all == first + unread;
      SiblingsCloseFrom(all, batchSize);
      AttemptsFrom(first, unread, batchSize);
      KeyCleanupAttemptsAll(unread, batchSize);
    }
  }

  lemma OnePage(all: seq<Ref>, batchSize: nat)
    requires |all| <= batchSize && batchSize > 0
    ensures Limit(all, batchSize) == all && all[|all|..] == []
    ensures KeyAttempts(all, [], batchSize) == all && SiblingsClose(all, batchSize)
  {
    hide Page, KeyAttempts;
    if all != [] {
      KeyAttemptsStep(all, [], batchSize);
    }
    KeyAttemptsEnd([], batchSize);
    forall i, j | 0 <= i < j < |all|
      ensures Page(j, batchSize) <= Page(i, batchSize) + 1
    {
      PageNumbers(j, batchSize);
    }
  }

  lemma SamePrefix<T>(a: seq<T>, b: seq<T>, c: seq<T>)
    ensures a + b == a + c <==> b == c
  {
    assert (a + b)[|a|..] == b && (a + c)[|a|..] == c;
  }

  /** `UPDATE ... SET status = 'failed' ... WHERE` the same columns, for every reference given. */
  function ParkKeys(t: Table, refs: seq<Ref>): Table {
    if t == [] then []
    else [if exists r | r in refs :: SameKey(r, t[0]) then Parked(t[0]) else t[0]] + ParkKeys(t[1..], refs)
  }

  /** Parking by key, row by row. */
  lemma {:induction false} ParkKeysRows(t: Table, refs: seq<Ref>)
    ensures |ParkKeys(t, refs)| == |t|
    ensures forall i | 0 <= i < |t| ::
              if exists r | r in refs :: SameColumns(r, t[i]) then ParkedFrom(ParkKeys(t, refs)[i], t[i])
              else ParkKeys(t, refs)[i] == t[i]
  {
    if t != [] {
      hide ParkedFrom, SameKey, SameColumns;
      ParkKeysRows(t[1..], refs);
      ParkedIs(t[0]);
      forall r ensures SameKey(r, t[0]) <==> SameColumns(r, t[0]) {
        KeyIsColumns(r, t[0]);
      }
    }
  }

  function CountKey(t: Table, r: Ref): nat {
    if t == [] then 0 else (if SameKey(r, t[0]) then 1 else 0) + CountKey(t[1..], r)
  }

  /** How many rows the updates by key touch, one update after the other. */
  function CountKeys(t: Table, refs: seq<Ref>): nat {
    if refs == [] then 0 else CountKeys(t, refs[..|refs| - 1]) + CountKey(t, refs[|refs| - 1])
  }

  /** The resolved references of a batch deleted, the others parked, both by key tuple. */
  function KeyPersisted(t: Table, batch: seq<Ref>, resolves: Ref -> bool): Table {
    ParkKeys(WithoutKeys(t, Select(batch, resolves, true)), Select(batch, resolves, false))
  }

  lemma {:induction false} WithoutKeysUnion(t: Table, a: seq<Ref>, b: seq<Ref>)
    ensures WithoutKeys(WithoutKeys(t, a), b) == WithoutKeys(t, a + b)
  {
    if t != [] {
      WithoutKeysUnion(t[1..], a, b);
      assert (exists r | r in a + b :: SameKey(r, t[0])) <==>
             (exists r | r in a :: SameKey(r, t[0])) || (exists r | r in b :: SameKey(r, t[0])) by {
        assert forall r :: r in a + b <==> r in a || r in b;
      }
      if !exists r | r in a :: SameKey(r, t[0]) {
        assert WithoutKeys(t, a)[1..] == WithoutKeys(t[1..], a);
      }
    }
  }

  lemma {:induction false} ParkKeysUnion(t: Table, a: seq<Ref>, b: seq<Ref>)
    ensures ParkKeys(ParkKeys(t, a), b) == ParkKeys(t, a + b)
  {
    if t != [] {
      ParkKeysUnion(t[1..], a, b);
      assert ParkKeys(t, a)[1..] == ParkKeys(t[1..], a);
      assert forall r :: r in a + b <==> r in a || r in b;
      assert forall r :: SameKey(r, t[0]) <==> SameKey(r, ParkKeys(t, a)[0]);
      assert (exists r | r in a + b :: SameKey(r, t[0])) <==>
             (exists r | r in a :: SameKey(r, t[0])) || (exists r | r in b :: SameKey(r, t[0]));
    }
  }

  ghost function KeyPlaces(t: Table, r: Ref): set<int> {
    set i | 0 <= i < |t| && SameColumns(r, t[i])
  }

  lemma KeyPlacesMore(t: Table, row: Ref, r: Ref)
    ensures KeyPlaces(t + [row], r) == KeyPlaces(t, r) + if SameColumns(r, row) then {|t|} else {}
    ensures |t| !in KeyPlaces(t, r)
  {
    hide SameColumns;
  }

  /** A reference counts each row with its key. */
  lemma {:induction false} CountKeyIs(t: Table, r: Ref)
    ensures CountKey(t, r) == |KeyPlaces(t, r)|
  {
    if t == [] {
      assert KeyPlaces(t, r) == {};
    } else {
      var last := |t| - 1;
      CountKeySnoc(t, r);
      hide SameKey, SameColumns, CountKey, KeyPlaces;
      CountKeyIs(t[..last], r);
      KeyIsColumns(r, t[last]);
      KeyPlacesMore(t[..last], t[last], r);
      assert t == t[..last] + [t[last]];
    }
  }

  lemma {:induction false} CountKeySnoc(t: Table, r: Ref)
    requires t != []
    ensures CountKey(t, r) == CountKey(t[..|t| - 1], r) + if SameKey(r, t[|t| - 1]) then 1 else 0
  {
    if |t| > 1 {
      CountKeySnoc(t[1..], r);
      assert t[1..][..|t| - 2] == t[..|t| - 1][1..];
    }
  }

  lemma {:induction false} NoKeys(t: Table)
    ensures WithoutKeys(t, []) == t && ParkKeys(t, []) == t
  {
    if t != [] {
      NoKeys(t[1..]);
    }
  }

  lemma {:induction false} ParkKeysKeepsCount(t: Table, refs: seq<Ref>, r: Ref)
    ensures CountKey(ParkKeys(t, refs), r) == CountKey(t, r)
  {
    if t != [] {
      ParkKeysKeepsCount(t[1..], refs, r);
    }
  }

  lemma {:induction false} ParkKeysKeepsCounts(t: Table, parked: seq<Ref>, refs: seq<Ref>)
    ensures CountKeys(ParkKeys(t, parked), refs) == CountKeys(t, refs)
  {
    if refs != [] {
      ParkKeysKeepsCounts(t, parked, refs[..|refs| - 1]);
      ParkKeysKeepsCount(t, parked, refs[|refs| - 1]);
    }
  }

  lemma {:induction false} CountKeysConcat(t: Table, a: seq<Ref>, b: seq<Ref>)
    ensures CountKeys(t, a + b) == CountKeys(t, a) + CountKeys(t, b)
  {
    if b == [] {
      assert a + b == a;
    } else {
      assert (a + b)[..|a + b| - 1] == a + b[..|b| - 1];
      CountKeysConcat(t, a, b[..|b| - 1]);
    }
  }

  lemma {:induction false} CountKeyOne(t: Table, r: Ref, row: Ref)
    requires row in t && SameKey(r, row)
    ensures CountKey(t, r) > 0
  {
    if t[0] != row {
      CountKeyOne(t[1..], r, row);
    }
  }

  lemma {:induction false} CountKeysSome(t: Table, refs: seq<Ref>, r: Ref, row: Ref)
    requires row in t && r in refs && SameKey(r, row)
    ensures CountKeys(t, refs) > 0
  {
    if refs[|refs| - 1] == r {
      CountKeyOne(t, r, row);
    } else {
      assert refs == refs[..|refs| - 1] + [refs[|refs| - 1]];
      CountKeysSome(t, refs[..|refs| - 1], r, row);
    }
  }

  lemma {:induction false} ParkKeysSame(t: Table, refs: seq<Ref>)
    requires forall r, row | r in refs && row in t :: !SameKey(r, row)
    ensures ParkKeys(t, refs) == t
  {
    if t != [] {
      ParkKeysSame(t[1..], refs);
    }
  }

  lemma {:induction false} ParkKeysSeek(t: Table, refs: seq<Ref>, after: nat)
    ensures PendingAfter(ParkKeys(t, refs), after) == WithoutKeys(PendingAfter(t, after), refs)
  {
    if t != [] {
      ParkKeysSeek(t[1..], refs, after);
    }
  }

  lemma {:induction false} ParkKeysIds(t: Table, refs: seq<Ref>)
    ensures |ParkKeys(t, refs)| == |t| && forall i | 0 <= i < |t| :: ParkKeys(t, refs)[i].id == t[i].id
  {
    if t != [] {
      ParkKeysIds(t[1..], refs);
    }
  }

  /** Resolved or not, the same-key siblings of a batch stop being pending with it. */
  lemma KeyPersistedSeek(t: Table, batch: seq<Ref>, resolves: Ref -> bool, after: nat)
    requires Keyed(t)
    ensures PendingAfter(KeyPersisted(t, batch, resolves), after) == WithoutKeys(PendingAfter(t, after), batch)
    ensures Keyed(KeyPersisted(t, batch, resolves))
  {
    var done, parked := Select(batch, resolves, true), Select(batch, resolves, false);
    WithoutKeysKeyed(t, done);
    ParkKeysIds(WithoutKeys(t, done), parked);
    ParkKeysSeek(WithoutKeys(t, done), parked, after);
    WithoutKeysSeek(t, done, after);
    WithoutKeysUnion(PendingAfter(t, after), done, parked);
    SelectMembers(batch, resolves, true);
    SelectMembers(batch, resolves, false);
    SameReferences(PendingAfter(t, after), done + parked, batch);
  }

  lemma {:induction false} SameReferences(t: Table, a: seq<Ref>, b: seq<Ref>)
    requires forall r :: r in a <==> r in b
    ensures WithoutKeys(t, a) == WithoutKeys(t, b)
  {
    if t != [] {
      SameReferences(t[1..], a, b);
    }
  }

  /** A batch whose cleanup touches no row leaves the table as it is; one with a pending row lowers the pending count. */
  lemma KeyProgress(t: Table, batch: seq<Ref>, resolves: Ref -> bool, changed: nat)
    requires var deleted := WithoutKeys(t, Select(batch, resolves, true));
             changed == |t| - |deleted| + CountKeys(deleted, Select(batch, resolves, false))
    ensures changed == 0 ==> KeyPersisted(t, batch, resolves) == t
  {
    var done, parked := Select(batch, resolves, true), Select(batch, resolves, false);
    WithoutKeysAll(t, done);
    WithoutKeysShrinks(t, done);
    if changed == 0 {
      forall r, row | r in parked && row in t
        ensures !SameKey(r, row)
      {
        if SameKey(r, row) {
          CountKeysSome(t, parked, r, row);
        }
      }
      ParkKeysSame(t, parked);
    }
  }

  lemma PendingFalls(t: Table, batch: seq<Ref>, resolves: Ref -> bool)
    requires Keyed(t)
    ensures var before, later := PendingAfter(t, 0), PendingAfter(KeyPersisted(t, batch, resolves), 0);
            |later| <= |before| && (batch != [] && batch[0] in before ==> |later| < |before|)
  {
    var before := PendingAfter(t, 0);
    KeyPersistedSeek(t, batch, resolves, 0);
    WithoutKeysShrinks(before, batch);
    WithoutKeysAll(before, batch);
    if batch != [] && batch[0] in before {
      var j :| 0 <= j < |before| && before[j] == batch[0];
      assert SameKey(batch[0], before[j]);
    }
  }

  class KeyStore {
    var rows: Table

    constructor (rows: Table)
      ensures this.rows == rows
    {
      this.rows := rows;
    }

    method GetUnresolvedReferencesCount() returns (n: nat)
      ensures n == |PendingAfter(rows, 0)|
    {
      n := |PendingAfter(rows, 0)|;
    }

    /** One delete per reference, by key tuple. */
    method DeleteSpecificResolvedReferences(refs: seq<Ref>) returns (changed: nat)
      modifies this
      ensures rows == WithoutKeys(old(rows), refs)
      ensures changed == |old(rows)| - |rows|
    {
      changed := 0;
      NoKeys(rows);
      for k := 0 to |refs|
        invariant rows == WithoutKeys(old(rows), refs[..k])
        invariant changed == |old(rows)| - |rows|
      {
        assert refs[..k] + [refs[k]] == refs[..k + 1];
        WithoutKeysUnion(old(rows), refs[..k], [refs[k]]);
        WithoutKeysShrinks(rows, [refs[k]]);
        changed := changed + |rows| - |WithoutKeys(rows, [refs[k]])|;
        rows := WithoutKeys(rows, [refs[k]]);
      }
      assert refs[..|refs|] == refs;
    }

    /** One update per reference, by key tuple. */
    method MarkReferencesFailed(refs: seq<Ref>) returns (changed: nat)
      modifies this
      ensures rows == ParkKeys(old(rows), refs)
      ensures changed == CountKeys(old(rows), refs)
    {
      changed := 0;
      NoKeys(rows);
      for k := 0 to |refs|
        invariant rows == ParkKeys(old(rows), refs[..k])
        invariant changed == CountKeys(old(rows), refs[..k])
      {
        assert refs[..k] + [refs[k]] == refs[..k + 1];
        assert refs[..k + 1][..k] == refs[..k];
        ParkKeysUnion(old(rows), refs[..k], [refs[k]]);
        ParkKeysKeepsCount(old(rows), refs[..k], refs[k]);
        changed := changed + CountKey(rows, refs[k]);
        rows := ParkKeys(rows, [refs[k]]);
      }
      assert refs[..|refs|] == refs;
    }

    method DeleteInChunks(refs: seq<Ref>) returns (removed: nat)
      modifies this
      ensures rows == WithoutKeys(old(rows), refs)
      ensures removed == |old(rows)| - |rows|
    {
      removed := 0;
      var i := 0;
      NoKeys(rows);
      while i < |refs|
        invariant 0 <= i
        invariant rows == WithoutKeys(old(rows), refs[..if i <= |refs| then i else |refs|])
        invariant removed == |old(rows)| - |rows|
      {
        var end := if i + PERSIST_CHUNK <= |refs| then i + PERSIST_CHUNK else |refs|;
        assert end - i <= 1000;
        WithoutKeysUnion(old(rows), refs[..i], refs[i..end]);
        assert refs[..end] == refs[..i] + refs[i..end];
        var n := DeleteSpecificResolvedReferences(refs[i..end]);
        removed := removed + n;
        i := i + PERSIST_CHUNK;
      }
      assert refs[..|refs|] == refs;
    }

    method ParkInChunks(refs: seq<Ref>) returns (removed: nat)
      modifies this
      ensures rows == ParkKeys(old(rows), refs)
      ensures removed == CountKeys(old(rows), refs)
    {
      removed := 0;
      var i := 0;
      NoKeys(rows);
      while i < |refs|
        invariant 0 <= i
        invariant rows == ParkKeys(old(rows), refs[..if i <= |refs| then i else |refs|])
        invariant removed == CountKeys(old(rows), refs[..if i <= |refs| then i else |refs|])
      {
        var end := if i + PERSIST_CHUNK <= |refs| then i + PERSIST_CHUNK else |refs|;
        assert end - i <= 1000;
        ParkKeysUnion(old(rows), refs[..i], refs[i..end]);
        assert refs[..end] == refs[..i] + refs[i..end];
        CountKeysConcat(old(rows), refs[..i], refs[i..end]);
        ParkKeysKeepsCounts(old(rows), refs[..i], refs[i..end]);
        var n := MarkReferencesFailed(refs[i..end]);
        removed := removed + n;
        i := i + PERSIST_CHUNK;
      }
      assert refs[..|refs|] == refs;
    }

    /** Settles one batch, in sub-transactions of 1000 references. */
    method Persist(batch: seq<Ref>, resolves: Ref -> bool) returns (removed: nat)
      modifies this
      ensures rows == KeyPersisted(old(rows), batch, resolves)
      ensures removed == 0 ==> rows == old(rows)
    {
      removed := DeleteInChunks(Select(batch, resolves, true));
      var parked := ParkInChunks(Select(batch, resolves, false));
      KeyProgress(old(rows), batch, resolves, removed + parked);
      removed := removed + parked;
    }

    /** The same loop with cleanup by key tuple, whatever resolves: the guard never ends it early and nothing is left
        pending, but every reference was attempted exactly when siblings are close. */
    method Drain(resolves: Ref -> bool, batchSize: nat) returns (attempted: seq<Ref>)
      requires Keyed(rows) && batchSize > 0
      modifies this
      ensures PendingAfter(rows, 0) == []
      ensures attempted == PendingAfter(old(rows), 0) <==> SiblingsClose(PendingAfter(old(rows), 0), batchSize)
    {
      hide KeyAttempts, PendingAfter, WithoutKeys, Keyed, SiblingsClose, KeyPersisted, BatchAfter, Advances;
      FirstAdvances(rows, batchSize);
      ghost var all := PendingAfter(rows, 0);
      ghost var first := Limit(all, batchSize);
      attempted := [];
      var prevRemaining := GetUnresolvedReferencesCount();
      var batch := BatchAfter(rows, 0, batchSize);
      Seek(rows, 0, batchSize);
      ghost var unread := all[|batch|..];
      KeyCleanupAttemptsAll(all, batchSize);
      while |batch| > 0
        invariant Keyed(rows)
        invariant attempted + KeyAttempts(batch, unread, batchSize) == KeyAttempts(first, all[|first|..], batchSize)
        invariant |batch| > 0 ==> unread == PendingAfter(rows, batch[|batch| - 1].id)
        invariant |batch| == 0 ==> unread == []
        invariant forall r | r in PendingAfter(rows, 0) :: r in batch || r in unread
        invariant Advances(rows, batch, prevRemaining)
        decreases |batch| + |unread|
      {
        var after := batch[|batch| - 1].id;
        var nextBatch := BatchAfter(rows, after, batchSize);
        Seek(rows, after, batchSize);
        ghost var rest := unread[|nextBatch|..];
        AdvancesOn(rows, batch, prevRemaining, resolves, after, batchSize);
        KeyAttemptsStep(batch, unread, batchSize);
        WithoutKeysShrinks(rest, batch);
        attempted := attempted + batch;
        KeyPersistedSeek(rows, batch, resolves, 0);
        StillPending(PendingAfter(rows, 0), batch, nextBatch, rest);
        if |nextBatch| > 0 {
          KeyPersistedSeek(rows, batch, resolves, nextBatch[|nextBatch| - 1].id);
        }
        var removed := Persist(batch, resolves);
        if removed <= 0 {
          var remaining := GetUnresolvedReferencesCount();
          if remaining >= prevRemaining {
            break;
          }
          prevRemaining := remaining;
        }
        unread := WithoutKeys(rest, batch);
        batch := nextBatch;
      }
      KeyAttemptsEnd(unread, batchSize);
      NoMembers(PendingAfter(rows, 0));
    }
  }

  /** The pending count has fallen since it was last looked at, or the batch at hand will lower it. */
  ghost predicate Advances(rows: Table, batch: seq<Ref>, prevRemaining: nat) {
    var pending := PendingAfter(rows, 0);
    |pending| < prevRemaining || (|pending| == prevRemaining && (batch != [] ==> batch[0] in pending))
  }

  lemma FirstAdvances(rows: Table, batchSize: nat)
    ensures Advances(rows, BatchAfter(rows, 0, batchSize), |PendingAfter(rows, 0)|)
  {
  }

  /** So the pending count is lower after every batch, and a batch that touches no row is followed by a pending one. */
  lemma AdvancesOn(rows: Table, batch: seq<Ref>, prevRemaining: nat, resolves: Ref -> bool, after: nat, batchSize: nat)
    requires Keyed(rows) && batch != [] && Advances(rows, batch, prevRemaining)
    ensures var later, next := KeyPersisted(rows, batch, resolves), BatchAfter(rows, after, batchSize);
            && |PendingAfter(later, 0)| < prevRemaining
            && Advances(later, next, prevRemaining)
            && (later == rows ==> Advances(later, next, |PendingAfter(later, 0)|))
  {
    PendingFalls(rows, batch, resolves);
    NextIsPending(rows, after, batchSize);
  }

  lemma NoMembers<T>(s: seq<T>)
    ensures (forall x :: x !in s) ==> s == []
  {
    assert s != [] ==> s[0] in s;
  }

  lemma NextIsPending(t: Table, after: nat, batchSize: nat)
    ensures forall r | r in BatchAfter(t, after, batchSize) :: r in PendingAfter(t, 0)
  {
    PendingAfterMembers(t, after);
    PendingAfterMembers(t, 0);
  }

  lemma StillPending(pending: seq<Ref>, batch: seq<Ref>, next: seq<Ref>, rest: seq<Ref>)
    requires forall r | r in pending :: r in batch || r in next + rest
    ensures forall r | r in WithoutKeys(pending, batch) :: r in next || r in WithoutKeys(rest, batch)
  {
    forall r | r in WithoutKeys(pending, batch)
      ensures r in next || r in WithoutKeys(rest, batch)
    {
      WithoutKeysHolds(pending, batch, r);
      WithoutKeysHolds(rest, batch, r);
      assert SameKey(r, r);
    }
  }

  lemma KeyAttemptsEnd(unread: seq<Ref>, batchSize: nat)
    requires batchSize > 0
    ensures KeyAttempts([], unread, batchSize) == []
  {
  }

  lemma KeyAttemptsStep(batch: seq<Ref>, unread: seq<Ref>, batchSize: nat)
    requires batchSize > 0 && batch != []
    ensures var next := Limit(unread, batchSize);
            KeyAttempts(batch, unread, batchSize) == batch + KeyAttempts(next, WithoutKeys(unread[|next|..], batch), batchSize)
  {
  }

  /** Seeking past a page leaves what follows it. */
  lemma Seek(t: Table, after: nat, batchSize: nat)
    requires Keyed(t)
    ensures var page, all := BatchAfter(t, after, batchSize), PendingAfter(t, after);
            && page == Limit(all, batchSize)
            && (|page| > 0 ==> PendingAfter(t, page[|page| - 1].id) == all[|page|..])
  {
    var page := BatchAfter(t, after, batchSize);
    if |page| > 0 {
      SeekIsDrop(t, after, |page|);
    }
  }

  /** With pages of one row, the second of two same-key references two pages apart is never attempted. */
  lemma KeyCleanupSkipsSibling(a: Ref, b: Ref, c: Ref)
    requires SameKey(a, c) && !SameKey(a, b)
    ensures KeyAttempts([a], [b, c], 1) == [a, b]
  {
    assert [b, c][..1] == [b] && [b, c][1..] == [c];
    assert WithoutKeys([c], [a]) == [] by {
      assert SameKey([a][0], c);
    }
    KeyAttemptsStep([a], [b, c], 1);
    KeyAttemptsStep([b], [], 1);
    KeyAttemptsEnd([], 1);
    assert [b] + [] == [b];
  }
}
