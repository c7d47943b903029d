/** The adapter's nested `transaction`: a depth counter decides whether a call issues BEGIN or just runs its callback. */
module Transactions {
  import opened Common

  /** One row written by one statement. */
  type Row = string

  /** How a statement ends: it works; it throws and changes nothing; or it throws and SQLite, on its own account, has
      rolled the open transaction back, as it may on a full disk, an I/O error or OR ROLLBACK. */
  datatype Effect = Works | Throws | EndsTransaction

  datatype Stmt = Stmt(row: Row, effect: Effect)

  /** What a caller does with the connection. `Try` catches whatever its body throws and runs the handler. */
  datatype Program =
    | Skip
    | Write(stmt: Stmt)
    | Then(first: Program, second: Program)
    | Transaction(body: Program)
    | Try(attempt: Program, handler: Program)

  datatype Call = BEGIN | COMMIT | ROLLBACK

  /** How a transaction statement is answered: done; refused, with nothing changed; or refused with the open transaction
      rolled back. Without an open transaction COMMIT and ROLLBACK throw anyway, and with one BEGIN does. */
  datatype Response = Done | Refused | Ended

  /** The database behind the connection: the rows seen through it, the rows at BEGIN while a transaction is open, the
      answers to the coming BEGIN, COMMIT and ROLLBACK statements, and how many ROLLBACKs have thrown. */
  datatype Database = Database(rows: seq<Row>, atBegin: Option<seq<Row>>, responses: seq<Response>, failedRollbacks: nat) {

    function Response(i: nat): Response {
      if i < |responses| then responses[i] else Done
    }

    function Undone(): Database {
      if atBegin.Some? then this.(rows := atBegin.value, atBegin := None) else this
    }

    function Issue(call: Call): (bool, Database) {
      var rest := this.(responses := if |responses| > 0 then responses[1..] else []);
      match call
      case BEGIN =>
        if Response(0).Done? && atBegin.None? then (true, rest.(atBegin := Some(rows))) else (false, rest)
      case COMMIT =>
        if atBegin.None? || Response(0).Refused? then (false, rest)
        else if Response(0).Ended? then (false, rest.Undone())
        else (true, rest.(atBegin := None))
      case ROLLBACK =>
        var failed := rest.(failedRollbacks := failedRollbacks + 1);
        if atBegin.None? || Response(0).Refused? then (false, failed)
        else if Response(0).Ended? then (false, failed.Undone())
        else (true, rest.Undone())
    }

    function Execute(stmt: Stmt): Database {
      match stmt.effect
      case Works => this.(rows := rows + [stmt.row])
      case Throws => this
      case EndsTransaction => Undone()
    }

    function ExecuteAll(stmts: seq<Stmt>): Database
      decreases |stmts|
    {
      if stmts == [] then this else Execute(stmts[0]).ExecuteAll(stmts[1..])
    }

    /** What another connection, or the next one, sees. */
    function Durable(): seq<Row> {
      if atBegin.Some? then atBegin.value else rows
    }
  }

  datatype Outcome = Outcome(ok: bool, db: Database, inside: bool)

  /** What a program means when `inside` says whether the connection believes it is in a transaction already. */
  function Meaning(p: Program, db: Database, inside: bool): Outcome {
    match p
    case Skip => Outcome(true, db, inside)
    case Write(stmt) => Outcome(stmt.effect.Works?, db.Execute(stmt), inside)
    case Then(first, second) =>
      var r := Meaning(first, db, inside);
      if r.ok then Meaning(second, r.db, r.inside) else r
    case Try(attempt, handler) =>
      var r := Meaning(attempt, db, inside);
      if r.ok then r else Meaning(handler, r.db, r.inside)
    case Transaction(body) =>
      if inside then Meaning(body, db, true)
      else
        var (begun, started) := db.Issue(BEGIN);
        if !begun then Outcome(false, started, false)
        else
          var r := Meaning(body, started, true);
          var (committed, closed) := if r.ok then r.db.Issue(COMMIT) else (false, r.db);
          if committed then Outcome(true, closed, false)
          else
            var (undone, restored) := closed.Issue(ROLLBACK);
            Outcome(false, restored, !undone)
  }

  class Adapter {
    var db: Database
    var txDepth: nat

    constructor (rows: seq<Row>, responses: seq<Response>)
      ensures db == Database(rows, None, responses, 0) && txDepth == 0
    {
      db, txDepth := Database(rows, None, responses, 0), 0;
    }

    method Exec(call: Call) returns (ok: bool)
      modifies this`db
      ensures (ok, db) == old(db).Issue(call)
    {
      var (works, after) := db.Issue(call);
      ok, db := works, after;
    }

    /** Runs a program; `ok` is false when it ended with an exception. The counter comes back to where it was, except
        that it stays at one when the outermost ROLLBACK itself threw. */
    method Run(p: Program) returns (ok: bool)
      modifies this
      ensures Outcome(ok, db, txDepth > 0) == Meaning(p, old(db), old(txDepth) > 0)
      ensures txDepth == if db.failedRollbacks == old(db).failedRollbacks then old(txDepth) else 1
      ensures old(txDepth) > 0 ==> txDepth == old(txDepth)
      decreases p, 0
    {
      DepthFollowsRollbacks(p, db, txDepth > 0);
      match p {
        case Skip => ok := true;
        case Write(stmt) =>
          db := db.Execute(stmt);
          ok := stmt.effect.Works?;
        case Then(first, second) =>
          DepthFollowsRollbacks(first, db, txDepth > 0);
          ok := Run(first);
          if ok {
            ok := Run(second);
          }
        case Try(attempt, handler) =>
          DepthFollowsRollbacks(attempt, db, txDepth > 0);
          ok := Run(attempt);
          if !ok {
            ok := Run(handler);
          }
        case Transaction(body) => ok := RunTransaction(body);
      }
    }

    method RunTransaction(body: Program) returns (ok: bool)
      modifies this
      ensures Outcome(ok, db, txDepth > 0) == Meaning(Transaction(body), old(db), old(txDepth) > 0)
      ensures txDepth == if db.failedRollbacks == old(db).failedRollbacks then old(txDepth) else 1
      ensures old(txDepth) > 0 ==> txDepth == old(txDepth)
      decreases body, 1
    {
      InsideStaysInside(body, db);
      InsideStaysInside(body, db.Issue(BEGIN).1);
      if txDepth > 0 {
        txDepth := txDepth + 1;
        ok := Run(body);
        txDepth := txDepth - 1;
        return;
      }
      var begun := Exec(BEGIN);
      if !begun {
        return false;
      }
      txDepth := 1;
      ok := Run(body);
      if ok {
        ok := Exec(COMMIT);
        if ok {
          txDepth := 0;
          return;
        }
      }
      var undone := Exec(ROLLBACK);
      if undone {
        txDepth := 0;
      }
      ok := false;
    }
  }

  // ----- Inside a transaction -----

  /** Whether a program inside a transaction ends normally, and the statements it executes on the way: which ones they
      are depends on nothing but the program. */
  function Reached(p: Program): (bool, seq<Stmt>) {
    match p
    case Skip => (true, [])
    case Write(stmt) => (stmt.effect.Works?, [stmt])
    case Then(first, second) =>
      var (ok, stmts) := Reached(first);
      if ok then (Reached(second).0, stmts + Reached(second).1) else (false, stmts)
    case Try(attempt, handler) =>
      var (ok, stmts) := Reached(attempt);
      if ok then (true, stmts) else (Reached(handler).0, stmts + Reached(handler).1)
    case Transaction(body) => Reached(body)
  }

  lemma {:induction false} ExecuteConcat(db: Database, a: seq<Stmt>, b: seq<Stmt>)
    ensures db.ExecuteAll(a + b) == db.ExecuteAll(a).ExecuteAll(b)
    decreases |a|
  {
    if a == [] {
      assert a + b == b;
    } else {
      assert (a + b)[1..] == a[1..] + b;
      ExecuteConcat(db.Execute(a[0]), a[1..], b);
    }
  }

  lemma {:induction false} ExecuteIssuesNothing(db: Database, stmts: seq<Stmt>)
    ensures var r := db.ExecuteAll(stmts);
            r.responses == db.responses && r.failedRollbacks == db.failedRollbacks
    decreases |stmts|
  {
    if stmts != [] {
      ExecuteIssuesNothing(db.Execute(stmts[0]), stmts[1..]);
    }
  }

  /** Inside a transaction no BEGIN, COMMIT or ROLLBACK is issued at any nesting level: the program executes exactly the
      statements it reaches, even where an inner transaction throws and is caught. */
  lemma {:induction false} InsideStaysInside(p: Program, db: Database)
    ensures Meaning(p, db, true) == Outcome(Reached(p).0, db.ExecuteAll(Reached(p).1), true)
    ensures Meaning(p, db, true).db.failedRollbacks == db.failedRollbacks
  {
    ExecuteIssuesNothing(db, Reached(p).1);
    match p {
      case Skip =>
      case Write(stmt) => assert [stmt][1..] == [];
      case Then(first, second) =>
        var (ok, stmts) := Reached(first);
        InsideStaysInside(first, db);
        InsideStaysInside(second, db.ExecuteAll(stmts));
        ExecuteConcat(db, stmts, Reached(second).1);
      case Try(attempt, handler) =>
        var (ok, stmts) := Reached(attempt);
        InsideStaysInside(attempt, db);
        InsideStaysInside(handler, db.ExecuteAll(stmts));
        ExecuteConcat(db, stmts, Reached(handler).1);
      case Transaction(body) =>
        InsideStaysInside(body, db);
    }
  }

  /** The connection still believes it is in a transaction after the program exactly when a ROLLBACK threw. */
  lemma {:induction false} DepthFollowsRollbacks(p: Program, db: Database, inside: bool)
    ensures var r := Meaning(p, db, inside);
            && r.db.failedRollbacks >= db.failedRollbacks
            && (r.inside == inside <==> r.db.failedRollbacks == db.failedRollbacks)
            && (inside ==> r.inside)
  {
    match p {
      case Skip =>
      case Write(_) =>
      case Then(first, second) =>
        DepthFollowsRollbacks(first, db, inside);
        var r := Meaning(first, db, inside);
        DepthFollowsRollbacks(second, r.db, r.inside);
      case Try(attempt, handler) =>
        DepthFollowsRollbacks(attempt, db, inside);
        var r := Meaning(attempt, db, inside);
        DepthFollowsRollbacks(handler, r.db, r.inside);
      case Transaction(body) =>
        InsideStaysInside(body, db);
        InsideStaysInside(body, db.Issue(BEGIN).1);
    }
  }

  // ----- What becomes durable -----

  function Working(stmts: seq<Stmt>): seq<Row> {
    if stmts == [] then []
    else if stmts[0].effect.Works? then [stmts[0].row] + Working(stmts[1..])
    else Working(stmts[1..])
  }

  predicate EndsAmong(stmts: seq<Stmt>) {
    exists i :: 0 <= i < |stmts| && stmts[i].effect.EndsTransaction?
  }

  /** The rows written after a statement has ended the transaction: each of them commits by itself. */
  function Autocommitted(stmts: seq<Stmt>): seq<Row> {
    if stmts == [] then []
    else if stmts[0].effect.EndsTransaction? then Working(stmts[1..])
    else Autocommitted(stmts[1..])
  }

  lemma EndsAmongRest(stmts: seq<Stmt>)
    requires stmts != []
    ensures EndsAmong(stmts) <==> stmts[0].effect.EndsTransaction? || EndsAmong(stmts[1..])
  {
    if EndsAmong(stmts) && !stmts[0].effect.EndsTransaction? {
      var i :| 0 <= i < |stmts| && stmts[i].effect.EndsTransaction?;
      assert stmts[1..][i - 1].effect.EndsTransaction?;
    }
    if i :| 0 <= i < |stmts[1..]| && stmts[1..][i].effect.EndsTransaction? {
      assert stmts[i + 1].effect.EndsTransaction?;
    }
  }

  /** With no transaction open, every statement that works is durable at once. */
  lemma {:induction false} ExecuteClosed(db: Database, stmts: seq<Stmt>)
    requires db.atBegin.None?
    ensures var r := db.ExecuteAll(stmts);
            r.atBegin.None? && r.rows == db.rows + Working(stmts)
    decreases |stmts|
  {
    if stmts != [] {
      ExecuteClosed(db.Execute(stmts[0]), stmts[1..]);
    }
  }

  /** In an open transaction only what follows an ending statement becomes durable. */
  lemma {:induction false} ExecuteOpen(db: Database, stmts: seq<Stmt>)
    requires db.atBegin.Some?
    ensures var r := db.ExecuteAll(stmts);
            && r.Durable() == db.Durable() + Autocommitted(stmts)
            && r.atBegin == (if EndsAmong(stmts) then None else db.atBegin)
            && (!EndsAmong(stmts) ==> r.rows == db.rows + Working(stmts) && Autocommitted(stmts) == [])
    decreases |stmts|
  {
    if stmts != [] {
      EndsAmongRest(stmts);
      if stmts[0].effect.EndsTransaction? {
        ExecuteClosed(db.Execute(stmts[0]), stmts[1..]);
      } else {
        ExecuteOpen(db.Execute(stmts[0]), stmts[1..]);
      }
    }
  }

  /** A statement that works comes after one that ended the transaction. */
  ghost predicate WorksAfterEnding(stmts: seq<Stmt>) {
    exists i, j :: 0 <= i < j < |stmts| && stmts[i].effect.EndsTransaction? && stmts[j].effect.Works?
  }

  lemma {:induction false} WorkingNone(stmts: seq<Stmt>)
    ensures Working(stmts) == [] <==> forall j | 0 <= j < |stmts| :: !stmts[j].effect.Works?
  {
    if stmts != [] {
      WorkingNone(stmts[1..]);
      assert forall j | 1 <= j < |stmts| :: stmts[j] == stmts[1..][j - 1];
    }
  }

  lemma {:induction false} AutocommittedNone(stmts: seq<Stmt>)
    ensures Autocommitted(stmts) == [] <==> !WorksAfterEnding(stmts)
  {
    if stmts != [] {
      var rest := stmts[1..];
      assert forall j | 1 <= j < |stmts| :: stmts[j] == rest[j - 1];
      WorkingNone(rest);
      AutocommittedNone(rest);
      if i, j :| 0 <= i < j < |rest| && rest[i].effect.EndsTransaction? && rest[j].effect.Works? {
        assert stmts[i + 1].effect.EndsTransaction? && stmts[j + 1].effect.Works?;
        if stmts[0].effect.EndsTransaction? {
          assert !(Working(rest) == []);
        }
      }
      if stmts[0].effect.EndsTransaction? && Working(rest) != [] {
        var j :| 0 <= j < |rest| && rest[j].effect.Works?;
        assert stmts[j + 1].effect.Works?;
      }
    }
  }

  // ----- The outermost transaction -----

  /** On an idle connection: a normal return leaves exactly what the statements reached wrote, committed. An exception
      leaves durable the rows of BEGIN and what was written after a statement had ended the transaction. */
  lemma {:induction false} OutermostLeaves(body: Program, db: Database)
    requires db.atBegin.None?
    ensures var r, (ok, stmts) := Meaning(Transaction(body), db, false), Reached(body);
            && (r.ok ==> ok && !EndsAmong(stmts) && r.db.rows == db.rows + Working(stmts) && r.db.atBegin.None? && !r.inside)
            && (!r.ok ==> r.db.Durable() == db.rows + if db.Response(0).Done? then Autocommitted(stmts) else [])
            && (!r.inside ==> r.db.atBegin.None?)
  {
    hide Reached, Working, Autocommitted, EndsAmong;
    var started := db.Issue(BEGIN).1;
    InsideStaysInside(body, started);
    ExecuteIssuesNothing(started, Reached(body).1);
    if db.Response(0).Done? {
      ExecuteOpen(started, Reached(body).1);
    }
  }

  /** All or nothing: exactly unless a statement that works is reached after one that ended the transaction. */
  lemma {:induction false} OutermostIsAtomic(body: Program, db: Database)
    requires db.atBegin.None?
    ensures var r, stmts := Meaning(Transaction(body), db, false), Reached(body).1;
            r.db.Durable() == (if r.ok then db.rows + Working(stmts) else db.rows) <==>
            !(db.Response(0).Done? && WorksAfterEnding(stmts))
  {
    var stmts := Reached(body).1;
    OutermostLeaves(body, db);
    AutocommittedNone(stmts);
    ExecuteOpen(db.Issue(BEGIN).1.(atBegin := Some(db.rows)), stmts);
    assert |db.rows + Autocommitted(stmts)| == |db.rows| + |Autocommitted(stmts)|;
  }

  /** The counter is left at one exactly when a statement ended the transaction, COMMIT did, or ROLLBACK was not done. */
  lemma {:induction false} StuckExactly(body: Program, db: Database)
    requires db.atBegin.None?
    ensures var (ok, stmts) := Reached(body);
            Meaning(Transaction(body), db, false).inside <==>
            db.Response(0).Done? && (
              || EndsAmong(stmts)
              || (ok && db.Response(1).Ended?)
              || (ok && db.Response(1).Refused? && !db.Response(2).Done?)
              || (!ok && !db.Response(1).Done?))
  {
    var started := db.Issue(BEGIN).1;
    InsideStaysInside(body, started);
    ExecuteIssuesNothing(started, Reached(body).1);
    if db.Response(0).Done? {
      ExecuteOpen(started, Reached(body).1);
    }
  }

  /** With every transaction statement done, it succeeds exactly when its body does and nothing ended the transaction. */
  lemma {:induction false} OutermostSucceeds(body: Program, db: Database)
    requires db.atBegin.None? && forall k | 0 <= k < |db.responses| :: db.responses[k].Done?
    ensures var r, (ok, stmts) := Meaning(Transaction(body), db, false), Reached(body);
            (r.ok <==> ok && !EndsAmong(stmts)) && (r.inside <==> EndsAmong(stmts))
  {
    StuckExactly(body, db);
    var started := db.Issue(BEGIN).1;
    InsideStaysInside(body, started);
    ExecuteIssuesNothing(started, Reached(body).1);
    ExecuteOpen(started, Reached(body).1);
  }

  /** A counter left at one makes every later call count as nested. With the transaction gone, what each statement
      writes is durable at once; with it still open, only what follows an ending statement is. */
  lemma DurableWhenStuck(p: Program, db: Database)
    ensures var r, stmts := Meaning(p, db, true), Reached(p).1;
            r.db.Durable() == db.Durable() + if db.atBegin.None? then Working(stmts) else Autocommitted(stmts)
  {
    InsideStaysInside(p, db);
    if db.atBegin.None? {
      ExecuteClosed(db, Reached(p).1);
    } else {
      ExecuteOpen(db, Reached(p).1);
    }
  }

  lemma ReachedTried(stmt: Stmt)
    requires !stmt.effect.Works?
    ensures Reached(Try(Write(stmt), Skip)) == (true, [stmt])
  {
    assert Reached(Write(stmt)) == (false, [stmt]);
    assert [stmt] + [] == [stmt];
  }

  lemma ReachedTwo(a: Stmt, b: Stmt)
    requires a.effect.Works?
    ensures Reached(Then(Write(a), Write(b))) == (b.effect.Works?, [a, b])
  {
    assert Reached(Write(a)) == (true, [a]) && Reached(Write(b)) == (b.effect.Works?, [b]);
    assert [a] + [b] == [a, b];
  }

  lemma EndedIsClosed(row: Row, db: Database)
    requires db.atBegin.None? && db.responses == []
    ensures var r := Meaning(Transaction(Write(Stmt(row, EndsTransaction))), db, false);
            !r.ok && r.db.atBegin.None? && r.db.rows == db.rows
  {
    var body, started := Write(Stmt(row, EndsTransaction)), db.Issue(BEGIN).1;
    assert Meaning(body, started, true) == Outcome(false, started.Undone(), true);
  }

  /** Within one transaction: a statement ends it, the caller catches the exception and goes on. The transaction throws,
      and what came after is durable. */
  lemma CaughtEndingSplits(lost: Row, kept: Row, db: Database)
    requires db.atBegin.None? && db.responses == []
    ensures var body := Then(Try(Write(Stmt(lost, EndsTransaction)), Skip), Write(Stmt(kept, Works)));
            var r := Meaning(Transaction(body), db, false);
            !r.ok && r.inside && r.db.Durable() == db.rows + [kept]
  {
    var attempt := Try(Write(Stmt(lost, EndsTransaction)), Skip);
    var body := Then(attempt, Write(Stmt(kept, Works)));
    var stmts := [Stmt(lost, EndsTransaction), Stmt(kept, Works)];
    ReachedTried(Stmt(lost, EndsTransaction));
    assert Reached(Write(Stmt(kept, Works))) == (true, [Stmt(kept, Works)]);
    assert Reached(body) == (true, [Stmt(lost, EndsTransaction)] + [Stmt(kept, Works)]);
    assert [Stmt(lost, EndsTransaction)] + [Stmt(kept, Works)] == stmts;
    assert stmts[0].effect.EndsTransaction? && stmts[1..] == [Stmt(kept, Works)] && stmts[1..][1..] == [];
    assert Working(stmts[1..]) == [kept];
    OutermostLeaves(body, db);
    StuckExactly(body, db);
  }

  /** And across two: after a transaction that a statement ended, the next one is no transaction any more. It throws,
      and the row it wrote first is durable. */
  lemma NextTransactionSplits(lost: Row, kept: Row, last: Row, db: Database)
    requires db.atBegin.None? && db.responses == []
    ensures var first := Transaction(Write(Stmt(lost, EndsTransaction)));
            var second := Transaction(Then(Write(Stmt(kept, Works)), Write(Stmt(last, Throws))));
            var r := Meaning(Then(Try(first, Skip), second), db, false);
            !r.ok && r.db.Durable() == db.rows + [kept]
  {
    var body := Write(Stmt(lost, EndsTransaction));
    var second := Transaction(Then(Write(Stmt(kept, Works)), Write(Stmt(last, Throws))));
    var after := Meaning(Transaction(body), db, false);
    assert Reached(body) == (false, [Stmt(lost, EndsTransaction)]);
    OutermostLeaves(body, db);
    StuckExactly(body, db);
    EndedIsClosed(lost, db);
    var stmts := [Stmt(kept, Works), Stmt(last, Throws)];
    ReachedTwo(Stmt(kept, Works), Stmt(last, Throws));
    assert Reached(second) == Reached(second.body);
    assert stmts[1..] == [Stmt(last, Throws)] && stmts[1..][1..] == [];
    assert Working(stmts[1..]) == [];
    DurableWhenStuck(second, after.db);
    InsideStaysInside(second, after.db);
    assert Meaning(Try(Transaction(body), Skip), db, false) == Outcome(true, after.db, true);
  }

  // ----- Transactions without exception handlers -----

  /** The rows a program without exception handling writes when nothing throws. */
  function Rows(p: Program): seq<Row> {
    match p
    case Skip => []
    case Write(stmt) => [stmt.row]
    case Then(first, second) => Rows(first) + Rows(second)
    case Transaction(body) => Rows(body)
    case Try(attempt, _) => Rows(attempt)
  }

  predicate NoHandlers(p: Program) {
    match p
    case Skip => true
    case Write(_) => true
    case Then(first, second) => NoHandlers(first) && NoHandlers(second)
    case Transaction(body) => NoHandlers(body)
    case Try(_, _) => false
  }

  ghost predicate AllButLastWork(stmts: seq<Stmt>) {
    forall i | 0 <= i < |stmts| - 1 :: stmts[i].effect.Works?
  }

  ghost predicate AllWork(stmts: seq<Stmt>) {
    forall i | 0 <= i < |stmts| :: stmts[i].effect.Works?
  }

  lemma {:induction false} WorkingConcat(a: seq<Stmt>, b: seq<Stmt>)
    ensures Working(a + b) == Working(a) + Working(b)
  {
    if a == [] {
      assert a + b == b;
    } else {
      assert (a + b)[1..] == a[1..] + b;
      WorkingConcat(a[1..], b);
    }
  }

  /** Without handlers the first statement that throws is the last one reached. */
  lemma {:induction false} ReachedInLine(p: Program)
    requires NoHandlers(p)
    ensures var (ok, stmts) := Reached(p);
            AllButLastWork(stmts) && (ok ==> AllWork(stmts) && Working(stmts) == Rows(p))
  {
    match p {
      case Skip =>
      case Write(stmt) => assert [stmt][1..] == [];
      case Then(first, second) =>
        ReachedInLine(first);
        ReachedInLine(second);
        WorkingConcat(Reached(first).1, Reached(second).1);
      case Transaction(body) => ReachedInLine(body);
    }
  }

  /** A transaction without exception handlers inside lands all of its rows in order, or none of them - also when the
      statement that throws, or COMMIT or ROLLBACK, ends the transaction. */
  lemma {:induction false} AllRowsOrNone(body: Program, db: Database)
    requires db.atBegin.None? && NoHandlers(body)
    ensures var r := Meaning(Transaction(body), db, false);
            && r.db.Durable() == (if r.ok then db.rows + Rows(body) else db.rows)
            && (r.db.failedRollbacks == db.failedRollbacks ==> r.db.rows == r.db.Durable() && !r.inside)
  {
    ReachedInLine(body);
    OutermostIsAtomic(body, db);
    OutermostLeaves(body, db);
    DepthFollowsRollbacks(Transaction(body), db, false);
  }

  /** An inner transaction is not atomic on its own: if the caller catches its exception, what it wrote stays. */
  lemma CaughtInnerEffectsStay(row: Row, db: Database)
    requires db.atBegin.None? && db.responses == []
    ensures var inner := Transaction(Then(Write(Stmt(row, Works)), Write(Stmt(row, Throws))));
            var r := Meaning(Transaction(Try(inner, Skip)), db, false);
            r.ok && r.db.rows == db.rows + [row]
  {
    var inner := Transaction(Then(Write(Stmt(row, Works)), Write(Stmt(row, Throws))));
    var stmts := [Stmt(row, Works), Stmt(row, Throws)];
    ReachedTwo(Stmt(row, Works), Stmt(row, Throws));
    assert Reached(inner) == Reached(inner.body);
    assert Reached(Try(inner, Skip)) == (true, stmts) by {
      assert stmts + [] == stmts;
    }
    assert stmts[1..] == [Stmt(row, Throws)] && stmts[1..][1..] == [];
    assert Working(stmts[1..]) == [];
    OutermostLeaves(Try(inner, Skip), db);
    OutermostSucceeds(Try(inner, Skip), db);
  }

  // ----- One file's extraction bundle -----

  function Writes(stmts: seq<Stmt>): Program {
    if stmts == [] then Skip else Then(Write(stmts[0]), Writes(stmts[1..]))
  }

  /** `storeFileBundle`: node rows and reference rows are each written by a transaction of their own, nested in the one
      that also writes the edges and the file record. */
  function StoreFileBundle(nodes: seq<Stmt>, edges: seq<Stmt>, refs: seq<Stmt>, file: Stmt): Program {
    Transaction(
      Then(Transaction(Writes(nodes)),
           Then(Writes(edges),
                Then(if |refs| > 0 then Transaction(Writes(refs)) else Skip,
                     Write(file)))))
  }

  function RowsOf(stmts: seq<Stmt>): seq<Row> {
    if stmts == [] then [] else [stmts[0].row] + RowsOf(stmts[1..])
  }

  lemma {:induction false} WritesAreRows(stmts: seq<Stmt>)
    ensures NoHandlers(Writes(stmts)) && Rows(Writes(stmts)) == RowsOf(stmts)
  {
    if stmts != [] {
      WritesAreRows(stmts[1..]);
    }
  }

  lemma {:induction false} BundleRows(nodes: seq<Stmt>, edges: seq<Stmt>, refs: seq<Stmt>, file: Stmt)
    ensures var p := StoreFileBundle(nodes, edges, refs, file);
            NoHandlers(p.body) && Rows(p.body) == RowsOf(nodes) + RowsOf(edges) + RowsOf(refs) + [file.row]
  {
    WritesAreRows(nodes);
    WritesAreRows(edges);
    WritesAreRows(refs);
    var last := Write(file);
    var refPart := if |refs| > 0 then Transaction(Writes(refs)) else Skip;
    assert NoHandlers(refPart) && Rows(refPart) == RowsOf(refs);
    assert NoHandlers(last) && Rows(last) == [file.row];
    assert NoHandlers(Then(refPart, last)) && Rows(Then(refPart, last)) == RowsOf(refs) + [file.row];
    var rest := Then(Writes(edges), Then(refPart, last));
    assert NoHandlers(rest) && Rows(rest) == RowsOf(edges) + (RowsOf(refs) + [file.row]);
    hide RowsOf, Writes;
    assert Rows(Transaction(Writes(nodes))) == RowsOf(nodes);
    assert RowsOf(nodes) + (RowsOf(edges) + (RowsOf(refs) + [file.row])) == RowsOf(nodes) + RowsOf(edges) + RowsOf(refs) + [file.row];
  }

  /** On an idle connection, whichever statement of the bundle throws, whether or not it ends the transaction, and
      however BEGIN, COMMIT and ROLLBACK are answered: the bundle's rows are all there, in order, or the table is as
      before. What is durable never is a part of the bundle. */
  lemma BundleLandsWholeOrNot(nodes: seq<Stmt>, edges: seq<Stmt>, refs: seq<Stmt>, file: Stmt, db: Database)
    requires db.atBegin.None?
    ensures var r := Meaning(StoreFileBundle(nodes, edges, refs, file), db, false);
            var bundle := RowsOf(nodes) + RowsOf(edges) + RowsOf(refs) + [file.row];
            && r.db.Durable() == (if r.ok then db.rows + bundle else db.rows)
            && (r.db.failedRollbacks == db.failedRollbacks ==> r.db.rows == r.db.Durable() && !r.inside)
  {
    BundleRows(nodes, edges, refs, file);
    AllRowsOrNone(StoreFileBundle(nodes, edges, refs, file).body, db);
  }

  /** Once the counter is stuck with the transaction gone, a bundle lands exactly as far as it gets. */
  lemma {:induction false} BundleSplitsWhenStuck(nodes: seq<Stmt>, edges: seq<Stmt>, refs: seq<Stmt>, file: Stmt, db: Database)
    requires db.atBegin.None?
    ensures var p := StoreFileBundle(nodes, edges, refs, file);
            var r := Meaning(p, db, true);
            && r.db.Durable() == db.rows + Working(Reached(p).1)
            && (r.ok ==> r.db.Durable() == db.rows + (RowsOf(nodes) + RowsOf(edges) + RowsOf(refs) + [file.row]))
  {
    var p := StoreFileBundle(nodes, edges, refs, file);
    DurableWhenStuck(p, db);
    BundleRows(nodes, edges, refs, file);
    ReachedInLine(p);
    InsideStaysInside(p, db);
  }
}
