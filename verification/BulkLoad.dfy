/** The bulk-load window of the full-text index: the triggers that keep it in step with the node table are dropped,
    rows are written, the index is rebuilt and the triggers come back. The process may die between any two statements. */
module BulkLoad {
  import opened Common

  /** A node row's indexed columns. */
  datatype Row = Row(id: string, text: string)

  datatype Trigger = AfterInsert | AfterDelete | AfterUpdate

  const FTS_TRIGGERS: seq<Trigger> := [AfterInsert, AfterDelete, AfterUpdate]
  const ALL_TRIGGERS := {AfterInsert, AfterDelete, AfterUpdate}

  /** A write to the node table; `rowid` is the unused row id the database picks for a new row. */
  datatype Write =
    | InsertOrReplace(row: Row, rowid: nat)
    | Update(id: string, text: string)
    | Delete(id: string)
  {
    function TouchedId(): string {
      if InsertOrReplace? then row.id else id
    }
  }

  datatype Ddl = DropTrigger(trigger: Trigger) | CreateTrigger(trigger: Trigger) | Rebuild

  /** The database file: node rows and index entries by row id, and the triggers in the schema. `recursive` is the
      connection's `recursive_triggers` setting, which the store never turns on: without it, the row that an
      INSERT OR REPLACE displaces fires no delete trigger. */
  datatype Disk = Disk(nodes: map<nat, Row>, fts: map<nat, Row>, triggers: set<Trigger>, recursive: bool) {

    ghost predicate Keyed() {
      forall r, s | r in nodes && s in nodes && nodes[r].id == nodes[s].id :: r == s
    }

    /** The row ids of the rows with a given primary key: none or one. */
    function RowIds(id: string): set<nat> {
      set r | r in nodes && nodes[r].id == id
    }

    function Apply(w: Write): Disk {
      match w
      case InsertOrReplace(row, rowid) =>
        var displaced := RowIds(row.id);
        var kept := if recursive && AfterDelete in triggers then fts - displaced else fts;
        this.(nodes := (nodes - displaced)[rowid := row],
              fts := if AfterInsert in triggers then kept[rowid := row] else kept)
      case Update(id, text) =>
        var changed := map r | r in RowIds(id) :: Row(id, text);
        this.(nodes := nodes + changed, fts := if AfterUpdate in triggers then (fts - RowIds(id)) + changed else fts)
      case Delete(id) =>
        this.(nodes := nodes - RowIds(id), fts := if AfterDelete in triggers then fts - RowIds(id) else fts)
    }

    function Alter(d: Ddl): Disk {
      match d
      case DropTrigger(t) => this.(triggers := triggers - {t})
      case CreateTrigger(t) => this.(triggers := triggers + {t})
      case Rebuild => this.(fts := nodes)
    }

    predicate Maintained() {
      triggers == ALL_TRIGGERS
    }

    /** The write displaces a row whose index entry stays behind. */
    predicate Strands(w: Write) {
      w.InsertOrReplace? && !recursive && RowIds(w.row.id) != {}
    }
  }

  lemma WriteStaysKeyed(d: Disk, w: Write)
    requires d.Keyed() && (w.InsertOrReplace? ==> w.rowid !in d.nodes)
    ensures d.Apply(w).Keyed()
  {
    var d' := d.Apply(w);
    forall r, s | r in d'.nodes && s in d'.nodes && d'.nodes[r].id == d'.nodes[s].id
      ensures r == s
    {
      assert w.InsertOrReplace? && r != w.rowid ==> r !in d.RowIds(w.row.id);
      assert w.InsertOrReplace? && s != w.rowid ==> s !in d.RowIds(w.row.id);
    }
  }

  ghost predicate HasRow(rows: map<nat, Row>, id: string, text: string) {
    exists r :: r in rows && rows[r] == Row(id, text)
  }

  /** What a write does to the stored nodes, by id. */
  lemma WriteMeans(d: Disk, w: Write, id: string, text: string)
    requires d.Keyed() && (w.InsertOrReplace? ==> w.rowid !in d.nodes)
    ensures w.InsertOrReplace? ==>
              (HasRow(d.Apply(w).nodes, id, text) <==> if id == w.row.id then text == w.row.text else HasRow(d.nodes, id, text))
    ensures w.Update? ==>
              (HasRow(d.Apply(w).nodes, id, text) <==>
               if id == w.id then text == w.text && d.RowIds(id) != {} else HasRow(d.nodes, id, text))
    ensures w.Delete? ==>
              (HasRow(d.Apply(w).nodes, id, text) <==> id != w.id && HasRow(d.nodes, id, text))
  {
    var d' := d.Apply(w);
    forall r | r in d.nodes && d.nodes[r].id != w.TouchedId()
      ensures r in d'.nodes && d'.nodes[r] == d.nodes[r]
    {
    }
    if w.InsertOrReplace? {
      assert d'.nodes[w.rowid] == w.row;
    }
    if w.Update? && d.RowIds(w.id) != {} {
      var r :| r in d.RowIds(w.id);
      assert d'.nodes[r] == Row(w.id, w.text);
    }
  }

  /** With the triggers on and the index in step, a write leaves it in step exactly when it is not an INSERT OR REPLACE
      that displaces a row without firing the delete trigger. */
  lemma WriteInStep(d: Disk, w: Write)
    requires d.Maintained() && d.fts == d.nodes && d.Keyed() && (w.InsertOrReplace? ==> w.rowid !in d.nodes)
    ensures d.Apply(w).fts == d.Apply(w).nodes <==> !d.Strands(w)
  {
    var d' := d.Apply(w);
    if d.Strands(w) {
      var r :| r in d.RowIds(w.row.id);
      assert r in d'.fts && r !in d'.nodes;
    } else if w.InsertOrReplace? {
      assert d'.fts == (d.nodes - d.RowIds(w.row.id))[w.rowid := w.row];
    } else if w.Update? {
      assert d'.fts == d'.nodes;
    }
  }

  // ----- What a process sets out to do -----

  /** What one process does after opening the database. */
  datatype Action = InsertNode(row: Row) | UpdateNode(id: string, text: string) | DeleteNode(id: string) | BeginWindow | EndWindow

  /** A statement as it was executed. */
  datatype Stmt = Wrote(write: Write) | Altered(ddl: Ddl) {
    function On(d: Disk): Disk {
      match this
      case Wrote(w) => d.Apply(w)
      case Altered(ddl) => d.Alter(ddl)
    }
  }

  function Execute(d: Disk, stmts: seq<Stmt>): Disk {
    if stmts == [] then d else stmts[|stmts| - 1].On(Execute(d, stmts[..|stmts| - 1]))
  }

  /** A statement as it is planned: the database picks the row id of a new node. */
  datatype Planned = Store(row: Row) | Exactly(stmt: Stmt) {
    ghost predicate Is(s: Stmt) {
      match this
      case Store(row) => s.Wrote? && s.write.InsertOrReplace? && s.write.row == row
      case Exactly(stmt) => s == stmt
    }
  }

  ghost function Dropping(): seq<Planned> {
    [Exactly(Altered(DropTrigger(AfterInsert))), Exactly(Altered(DropTrigger(AfterDelete))),
     Exactly(Altered(DropTrigger(AfterUpdate)))]
  }

  ghost function Closing(): seq<Planned> {
    [Exactly(Altered(Rebuild)), Exactly(Altered(CreateTrigger(AfterInsert))), Exactly(Altered(CreateTrigger(AfterDelete))),
     Exactly(Altered(CreateTrigger(AfterUpdate)))]
  }

  ghost function PlanOf(a: Action): seq<Planned> {
    match a
    case InsertNode(row) => [Store(row)]
    case UpdateNode(id, text) => [Exactly(Wrote(Update(id, text)))]
    case DeleteNode(id) => [Exactly(Wrote(Delete(id)))]
    case BeginWindow => Dropping()
    case EndWindow => Closing()
  }

  ghost function Plan(work: seq<Action>): seq<Planned> {
    if work == [] then [] else Plan(work[..|work| - 1]) + PlanOf(work[|work| - 1])
  }

  /** `done` carries out the plan, in order, as far as it goes. */
  ghost predicate CarriesOut(done: seq<Stmt>, plan: seq<Planned>) {
    |done| <= |plan| && forall i | 0 <= i < |done| :: plan[i].Is(done[i])
  }

  lemma {:induction false} ExecuteMore(d: Disk, a: seq<Stmt>, b: seq<Stmt>)
    ensures Execute(d, a + b) == Execute(Execute(d, a), b)
  {
    if b == [] {
      assert a + b == a;
    } else {
      assert (a + b)[..|a + b| - 1] == a + b[..|b| - 1];
      ExecuteMore(d, a, b[..|b| - 1]);
    }
  }

  lemma ExecuteOne(d: Disk, s: Stmt)
    ensures Execute(d, [s]) == s.On(d) && Execute(d, []) == d
  {
    assert [s][..0] == [];
  }

  /** A process with `n` statements left has carried the plan out as far as these went, from `d` to `d'`. */
  ghost predicate Ran(d: Disk, n: nat, plan: seq<Planned>, d': Disk, left: nat, done: seq<Stmt>) {
    && CarriesOut(done, plan) && d' == Execute(d, done)
    && |done| + left == n && (|done| < |plan| ==> left == 0)
  }

  lemma RanNothing(d: Disk, n: nat)
    ensures Ran(d, n, [], d, n, [])
  {
  }

  /** One statement after all of a plan, if the process is still alive. */
  lemma RanOne(d: Disk, n: nat, plan: seq<Planned>, d': Disk, left: nat, done: seq<Stmt>, next: Planned, s: Stmt)
    requires Ran(d, n, plan, d', left, done) && |done| == |plan| && next.Is(s)
    ensures left > 0 ==> Ran(d, n, plan + [next], s.On(d'), left - 1, done + [s])
    ensures left == 0 ==> Ran(d, n, plan + [next], d', 0, done)
  {
    assert (done + [s])[..|done|] == done;
  }

  /** A whole plan, and then another one. */
  lemma RanBoth(d: Disk, n: nat, plan: seq<Planned>, d': Disk, left: nat, done: seq<Stmt>,
                rest: seq<Planned>, d'': Disk, left': nat, more: seq<Stmt>)
    requires Ran(d, n, plan, d', left, done) && |done| == |plan| && Ran(d', left, rest, d'', left', more)
    ensures Ran(d, n, plan + rest, d'', left', done + more)
  {
    ExecuteMore(d, done, more);
  }

  lemma RanShort(d: Disk, n: nat, plan: seq<Planned>, d': Disk, left: nat, done: seq<Stmt>, rest: seq<Planned>)
    requires Ran(d, n, plan, d', left, done) && left == 0
    ensures Ran(d, n, plan + rest, d', left, done)
  {
  }

  ghost function Opening(d: Disk): seq<Planned> {
    if d.Maintained() then [] else Closing()
  }

  /** A process that opens the database and works. */
  ghost predicate SessionRan(d: Disk, statements: nat, work: seq<Action>, d': Disk) {
    exists left: nat, done :: Ran(d, statements, Opening(d) + Plan(work), d', left, done)
  }

  lemma PlanMore(work: seq<Action>, k: nat)
    requires k < |work|
    ensures Plan(work[..k + 1]) == Plan(work[..k]) + PlanOf(work[k])
  {
    assert work[..k + 1][..k] == work[..k];
  }

  /** The plan of some of the work begins the plan of all of it. */
  lemma {:induction false} PlanBegins(work: seq<Action>, k: nat) returns (rest: seq<Planned>)
    requires k <= |work|
    ensures Plan(work) == Plan(work[..k]) + rest
    decreases |work| - k
  {
    if k == |work| {
      assert work[..k] == work;
      rest := [];
    } else {
      PlanMore(work, k);
      var more := PlanBegins(work, k + 1);
      rest := PlanOf(work[k]) + more;
    }
  }

  class Connection {
    var disk: Disk

    /** How many more statements this process gets to execute before it dies. */
    var life: nat

    /** Some write has stranded an index entry, with the triggers on, since the index was last rebuilt. */
    ghost var stranded: bool

    /** What survives every crash: triggers on means index in step, unless an entry was stranded. */
    ghost predicate Valid()
      reads this
    {
      && disk.Keyed() && disk.triggers <= ALL_TRIGGERS
      && (disk.Maintained() && !stranded ==> disk.fts == disk.nodes)
    }

    /** A freshly initialised database: the schema with its triggers, and no rows. */
    constructor (life: nat)
      ensures Valid() && disk == Disk(map[], map[], ALL_TRIGGERS, false) && !stranded && this.life == life
    {
      disk := Disk(map[], map[], ALL_TRIGGERS, false);
      stranded := false;
      this.life := life;
    }

    /** One schema or rebuild statement; nothing happens when the process is already dead. */
    method Exec(d: Ddl) returns (ran: bool)
      modifies this
      ensures ran <==> old(life) > 0
      ensures life == if ran then old(life) - 1 else 0
      ensures disk == if ran then old(disk).Alter(d) else old(disk)
      ensures stranded <==> old(stranded) && !(ran && d.Rebuild?)
    {
      if life == 0 {
        return false;
      }
      life := life - 1;
      disk := disk.Alter(d);
      if d.Rebuild? {
        stranded := false;
      }
      return true;
    }

    /** One node write, with whatever triggers the schema has at that moment. */
    method WriteNode(w: Write) returns (ran: bool)
      requires Valid() && (w.InsertOrReplace? ==> w.rowid !in disk.nodes)
      modifies this
      ensures Valid() && (ran <==> old(life) > 0)
      ensures life == if ran then old(life) - 1 else 0
      ensures disk == if ran then old(disk).Apply(w) else old(disk)
      ensures stranded <==> old(stranded) || (ran && old(disk).Maintained() && old(disk).Strands(w))
    {
      if life == 0 {
        return false;
      }
      life := life - 1;
      WriteStaysKeyed(disk, w);
      if disk.Maintained() && disk.fts == disk.nodes {
        WriteInStep(disk, w);
      }
      stranded := stranded || (disk.Maintained() && disk.Strands(w));
      disk := disk.Apply(w);
      return true;
    }

    /** Opens the window: drops the triggers one by one. */
    method BeginBulkNodeLoad() returns (ran: bool, ghost done: seq<Stmt>)
      requires Valid()
      modifies this
      ensures Valid() && disk.nodes == old(disk).nodes && stranded == old(stranded)
      ensures if ran then disk.triggers == {} else life == 0
      ensures Ran(old(disk), old(life), Dropping(), disk, life, done) && (ran <==> |done| == |Dropping()|)
    {
      hide Execute;
      done := [];
      RanNothing(disk, life);
      ghost var start, n := disk, life;
      for k := 0 to |FTS_TRIGGERS|
        invariant Valid() && disk.nodes == old(disk).nodes && stranded == old(stranded)
        invariant forall j | 0 <= j < k :: FTS_TRIGGERS[j] !in disk.triggers
        invariant |done| == k && Ran(start, n, Dropping()[..k], disk, life, done)
      {
        ghost var s := Altered(DropTrigger(FTS_TRIGGERS[k]));
        RanOne(start, n, Dropping()[..k], disk, life, done, Dropping()[k], s);
        assert Dropping()[..k] + [Dropping()[k]] == Dropping()[..k + 1];
        assert Dropping()[..k + 1] + Dropping()[k + 1..] == Dropping();
        var alive := Exec(DropTrigger(FTS_TRIGGERS[k]));
        if !alive {
          RanShort(start, n, Dropping()[..k + 1], disk, life, done, Dropping()[k + 1..]);
          return false, done;
        }
        done := done + [s];
      }
      assert Dropping()[..3] == Dropping();
      assert FTS_TRIGGERS[0] !in disk.triggers && FTS_TRIGGERS[1] !in disk.triggers && FTS_TRIGGERS[2] !in disk.triggers;
      return true, done;
    }

    /** Closes it: rebuild first, then the triggers. By the time the last trigger is back the index is in step. */
    method EndBulkNodeLoad() returns (ran: bool, ghost done: seq<Stmt>)
      requires Valid()
      modifies this
      ensures Valid() && disk.nodes == old(disk).nodes && (stranded ==> old(stranded))
      ensures if ran then disk.Maintained() && disk.fts == disk.nodes && !stranded else life == 0
      ensures Ran(old(disk), old(life), Closing(), disk, life, done) && (ran <==> |done| == |Closing()|)
    {
      hide Execute;
      done := [];
      RanNothing(disk, life);
      ghost var start, n := disk, life;
      RanOne(start, n, [], disk, life, done, Closing()[0], Altered(Rebuild));
      assert [] + [Closing()[0]] == Closing()[..1] && Closing()[..1] + Closing()[1..] == Closing();
      var alive := Exec(Rebuild);
      if !alive {
        RanShort(start, n, Closing()[..1], disk, life, done, Closing()[1..]);
        return false, done;
      }
      done := [] + [Altered(Rebuild)];
      for k := 0 to |FTS_TRIGGERS|
        invariant Valid() && disk.nodes == old(disk).nodes && disk.fts == disk.nodes && !stranded
        invariant forall j | 0 <= j < k :: FTS_TRIGGERS[j] in disk.triggers
        invariant |done| == k + 1 && Ran(start, n, Closing()[..k + 1], disk, life, done)
      {
        ghost var s := Altered(CreateTrigger(FTS_TRIGGERS[k]));
        RanOne(start, n, Closing()[..k + 1], disk, life, done, Closing()[k + 1], s);
        assert Closing()[..k + 1] + [Closing()[k + 1]] == Closing()[..k + 2];
        assert Closing()[..k + 2] + Closing()[k + 2..] == Closing();
        alive := Exec(CreateTrigger(FTS_TRIGGERS[k]));
        if !alive {
          RanShort(start, n, Closing()[..k + 2], disk, life, done, Closing()[k + 2..]);
          return false, done;
        }
        done := done + [s];
      }
      assert Closing()[..4] == Closing();
      assert FTS_TRIGGERS[0] in disk.triggers && FTS_TRIGGERS[1] in disk.triggers && FTS_TRIGGERS[2] in disk.triggers;
      return true, done;
    }

    /** Opening the database: a window that never closed shows as a missing trigger and is closed now. What it does not
        notice is a stranded entry behind a complete set of triggers. */
    method HealBulkNodeLoad() returns (ran: bool, ghost done: seq<Stmt>)
      requires Valid()
      modifies this
      ensures Valid() && disk.nodes == old(disk).nodes
      ensures if ran then disk.Maintained() else life == 0
      ensures stranded ==> old(stranded)
      ensures ran ==> (stranded <==> old(disk).Maintained() && old(stranded))
      ensures ran && !stranded ==> disk.fts == disk.nodes
      ensures old(disk).Maintained() ==> ran && disk == old(disk)
      ensures Ran(old(disk), old(life), Opening(old(disk)), disk, life, done)
      ensures ran <==> |done| == |Opening(old(disk))|
    {
      hide Execute;
      TriggerCount(disk.triggers);
      if |disk.triggers| >= |FTS_TRIGGERS| {
        RanNothing(disk, life);
        return true, [];
      }
      ran, done := EndBulkNodeLoad();
    }

    /** Storing a node under an id that is already stored, outside a window, leaves the index out of step, and reopening
        does not repair it. */
    method StrandedSurvivesOpen(w: Write)
      requires Valid() && life > 0 && disk.Maintained() && disk.fts == disk.nodes
      requires disk.Strands(w) && w.rowid !in disk.nodes
      modifies this
      ensures disk == old(disk).Apply(w) && disk.Maintained() && disk.fts != disk.nodes
    {
      WriteInStep(disk, w);
      var _ := WriteNode(w);
      var _, _ := HealBulkNodeLoad();
    }

    /** So it is from a fresh database on, with no window and no crash: one id stored twice, and an open. */
    static method StrandInNewDatabase(id: string, text: string, newText: string) returns (c: Connection)
      ensures fresh(c)
      ensures c.disk.nodes == map[1 := Row(id, newText)] && c.disk.Maintained()
      ensures c.disk.fts == map[0 := Row(id, text), 1 := Row(id, newText)]
    {
      c := new Connection(2);
      var first, again := InsertOrReplace(Row(id, text), 0), InsertOrReplace(Row(id, newText), 1);
      WriteInStep(c.disk, first);
      var _ := c.WriteNode(first);
      assert c.disk.RowIds(id) == {0};
      c.StrandedSurvivesOpen(again);
    }

    /** One action of a process. */
    method Act(a: Action) returns (alive: bool, ghost done: seq<Stmt>)
      requires Valid()
      modifies this
      ensures Valid()
      ensures Ran(old(disk), old(life), PlanOf(a), disk, life, done) && (alive <==> |done| == |PlanOf(a)|)
    {
      hide Execute;
      done := [];
      RanNothing(disk, life);
      ghost var d, n := disk, life;
      match a {
        case InsertNode(row) =>
          FreshKey(disk.nodes.Keys);
          var rowid: nat :| rowid !in disk.nodes;
          alive := WriteNode(InsertOrReplace(row, rowid));
          done := Single(d, n, Store(row), Wrote(InsertOrReplace(row, rowid)));
        case UpdateNode(id, text) =>
          alive := WriteNode(Update(id, text));
          done := Single(d, n, Exactly(Wrote(Update(id, text))), Wrote(Update(id, text)));
        case DeleteNode(id) =>
          alive := WriteNode(Delete(id));
          done := Single(d, n, Exactly(Wrote(Delete(id))), Wrote(Delete(id)));
        case BeginWindow => alive, done := BeginBulkNodeLoad();
        case EndWindow => alive, done := EndBulkNodeLoad();
      }
    }

    /** One process: it opens the database, works, and ends or dies after `statements` statements. It executes exactly
        the statements it sets out to, in order, as far as they go. `atOpen` is the database as the opening left it. */
    method Session(statements: nat, work: seq<Action>)
      returns (isOpen: bool, ghost atOpen: Disk, ghost trusted: bool)
      requires Valid()
      modifies this
      ensures Valid()
      ensures isOpen <==> old(disk).Maintained() || statements >= 4
      ensures isOpen ==> atOpen.Maintained() && atOpen.nodes == old(disk).nodes && (trusted ==> atOpen.fts == atOpen.nodes)
      ensures trusted <==> !(old(disk).Maintained() && old(stranded))
      ensures SessionRan(old(disk), statements, work, disk)
    {
      hide Execute, Ran, Plan, CarriesOut;
      ghost var d := disk;
      life := statements;
      trusted := !(disk.Maintained() && stranded);
      ghost var done;
      isOpen, done := HealBulkNodeLoad();
      atOpen := disk;
      RanBounds(d, statements, Opening(d), disk, life, done);
      if !isOpen {
        RanShort(d, statements, Opening(d), disk, life, done, Plan(work));
        return;
      }
      NoPlan();
      assert Opening(d) + [] == Opening(d) && work[..0] == [];
      for k := 0 to |work|
        invariant Valid()
        invariant Ran(d, statements, Opening(d) + Plan(work[..k]), disk, life, done)
        invariant |done| == |Opening(d) + Plan(work[..k])|
      {
        ghost var before, left := disk, life;
        PlanMore(work, k);
        Grouped(Opening(d), Plan(work[..k]), PlanOf(work[k]));
        var alive;
        ghost var more;
        alive, more := Act(work[k]);
        RanBounds(before, left, PlanOf(work[k]), disk, life, more);
        RanBoth(d, statements, Opening(d) + Plan(work[..k]), before, left, done, PlanOf(work[k]), disk, life, more);
        done := done + more;
        if !alive {
          ghost var rest := PlanBegins(work, k + 1);
          RanShort(d, statements, Opening(d) + Plan(work[..k + 1]), disk, life, done, rest);
          Grouped(Opening(d), Plan(work[..k + 1]), rest);
          return;
        }
      }
      assert work[..|work|] == work;
    }

    /** Any number of processes after one another, each dying where it may: the invariant always holds, so every opening
        that completes finds or puts the index in step with the node table, except where an entry was stranded behind
        a complete set of triggers. `states` is the database before each process and at the end. */
    method Life(sessions: seq<(nat, seq<Action>)>)
      returns (ghost openings: seq<Option<(Disk, bool)>>, ghost states: seq<Disk>)
      requires Valid()
      modifies this
      ensures Valid()
      ensures |openings| == |sessions| && |states| == |sessions| + 1
      ensures states[0] == old(disk) && states[|sessions|] == disk
      ensures forall k | 0 <= k < |sessions| :: SessionRan(states[k], sessions[k].0, sessions[k].1, states[k + 1])
      ensures forall k | 0 <= k < |sessions| ::
                openings[k].Some? <==> states[k].Maintained() || sessions[k].0 >= 4
      ensures forall k | 0 <= k < |openings| && openings[k].Some? ::
                && openings[k].value.0.Maintained() && openings[k].value.0.nodes == states[k].nodes
                && (openings[k].value.1 ==> openings[k].value.0.fts == openings[k].value.0.nodes)
    {
      hide SessionRan;
      openings, states := [], [disk];
      for k := 0 to |sessions|
        invariant Valid() && |openings| == k && |states| == k + 1
        invariant states[0] == old(disk) && states[k] == disk
        invariant forall j | 0 <= j < k :: SessionRan(states[j], sessions[j].0, sessions[j].1, states[j + 1])
        invariant forall j | 0 <= j < k :: openings[j].Some? <==> states[j].Maintained() || sessions[j].0 >= 4
        invariant forall j | 0 <= j < k && openings[j].Some? ::
                    && openings[j].value.0.Maintained() && openings[j].value.0.nodes == states[j].nodes
                    && (openings[j].value.1 ==> openings[j].value.0.fts == openings[j].value.0.nodes)
      {
        var isOpen, atOpen, trusted := Session(sessions[k].0, sessions[k].1);
        openings := openings + [if isOpen then Some((atOpen, trusted)) else None];
        states := states + [disk];
      }
    }
  }

  /** A plan of one statement. */
  ghost function Single(d: Disk, n: nat, next: Planned, s: Stmt): (done: seq<Stmt>)
    requires next.Is(s)
    ensures Ran(d, n, [next], if n > 0 then s.On(d) else d, if n > 0 then n - 1 else 0, done)
    ensures n > 0 <==> |done| == 1
  {
    ExecuteOne(d, s);
    if n > 0 then [s] else []
  }

  lemma RanBounds(d: Disk, n: nat, plan: seq<Planned>, d': Disk, left: nat, done: seq<Stmt>)
    requires Ran(d, n, plan, d', left, done)
    ensures |done| <= |plan| && |done| + left == n && (|done| < |plan| ==> left == 0)
  {
  }

  lemma NoPlan()
    ensures Plan([]) == []
  {
  }

  lemma Grouped(a: seq<Planned>, b: seq<Planned>, c: seq<Planned>)
    ensures a + (b + c) == a + b + c
  {
  }

  lemma TriggerCount(s: set<Trigger>)
    requires s <= ALL_TRIGGERS
    ensures |s| >= |FTS_TRIGGERS| <==> s == ALL_TRIGGERS
  {
    assert |ALL_TRIGGERS| == 3;
    if s != ALL_TRIGGERS {
      var t :| t in ALL_TRIGGERS && t !in s;
      assert s <= ALL_TRIGGERS - {t};
      SubsetCount(s, ALL_TRIGGERS - {t});
    }
  }

  lemma {:induction false} SubsetCount<T>(a: set<T>, b: set<T>)
    requires a <= b
    ensures |a| <= |b|
  {
    assert b == a + (b - a);
  }
}
