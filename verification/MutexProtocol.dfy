/** The async mutex as the interleaved steps of its callers: a caller runs from one `await` to the next without
    interruption, and a newcomer may take the lock ahead of a waiter that has been woken but has not run yet. */
module MutexProtocol {

  /** Where one `withLock` call is: not called yet; its resolver in the wait queue; resolver called but the caller not
      resumed; between `acquire` and release; returned. */
  datatype Phase = Idle | Queued | Woken | Holding | Done

  datatype Action = Start(caller: nat) | Resume(caller: nat) | Finish(caller: nat)

  datatype Machine = Machine(locked: bool, waitQueue: seq<nat>, callers: seq<Phase>)

  function Initial(n: nat): Machine {
    Machine(false, [], seq(n, _ => Idle))
  }

  /** One turn of the `while (this.locked)` loop: queue up, or take the lock. */
  function TryAcquire(m: Machine, c: nat): Machine
    requires c < |m.callers|
  {
    if m.locked then Machine(true, m.waitQueue + [c], m.callers[c := Queued])
    else Machine(true, m.waitQueue, m.callers[c := Holding])
  }

  /** The release closure: unlock, then call the first resolver in the queue. */
  function Release(m: Machine): Machine {
    if m.waitQueue == [] then m.(locked := false)
    else Machine(false, m.waitQueue[1..], Wake(m.callers, m.waitQueue[0]))
  }

  function Wake(callers: seq<Phase>, c: nat): seq<Phase> {
    if c < |callers| then callers[c := Woken] else callers
  }

  predicate Enabled(m: Machine, a: Action) {
    && a.caller < |m.callers|
    && match a
       case Start(c) => m.callers[c] == Idle
       case Resume(c) => m.callers[c] == Woken
       case Finish(c) => m.callers[c] == Holding
  }

  function Step(m: Machine, a: Action): Machine
    requires Enabled(m, a)
  {
    match a
    case Start(c) => TryAcquire(m, c)
    case Resume(c) => TryAcquire(m, c)
    case Finish(c) => Release(m.(callers := m.callers[c := Done]))
  }

  ghost predicate Exclusive(m: Machine) {
    forall c, d | 0 <= c < |m.callers| && 0 <= d < |m.callers| && m.callers[c] == Holding && m.callers[d] == Holding :: c == d
  }

  ghost predicate SomeoneIs(m: Machine, p: Phase) {
    exists c :: 0 <= c < |m.callers| && m.callers[c] == p
  }

  /** What every step keeps: `locked` says there is a holder and there is never more than one; the queue lists each
      waiting caller once; and an unlocked mutex with waiters has a woken one, so no wake-up is lost. */
  ghost predicate Inv(m: Machine) {
    && Exclusive(m)
    && (m.locked <==> SomeoneIs(m, Holding))
    && (forall i, j | 0 <= i < j < |m.waitQueue| :: m.waitQueue[i] != m.waitQueue[j])
    && (forall i | 0 <= i < |m.waitQueue| :: m.waitQueue[i] < |m.callers| && m.callers[m.waitQueue[i]] == Queued)
    && (forall c | 0 <= c < |m.callers| && m.callers[c] == Queued :: c in m.waitQueue)
    && (!m.locked && m.waitQueue != [] ==> SomeoneIs(m, Woken))
  }

  lemma InitialInv(n: nat)
    ensures Inv(Initial(n))
  {
  }

  lemma TryAcquireKeepsInv(m: Machine, c: nat)
    requires Inv(m) && c < |m.callers| && m.callers[c] in {Idle, Woken}
    ensures Inv(TryAcquire(m, c))
  {
    var m' := TryAcquire(m, c);
    assert m'.callers[c] == if m.locked then Queued else Holding;
    if m.locked {
      var h :| 0 <= h < |m.callers| && m.callers[h] == Holding;
      assert m'.callers[h] == Holding;
      assert m'.waitQueue[|m.waitQueue|] == c;
    }
  }

  lemma FinishKeepsInv(m: Machine, c: nat)
    requires Inv(m) && c < |m.callers| && m.callers[c] == Holding
    ensures Inv(Release(m.(callers := m.callers[c := Done])))
  {
    var m' := Release(m.(callers := m.callers[c := Done]));
    if m.waitQueue != [] {
      var w := m.waitQueue[0];
      assert w in m.waitQueue && m.callers[w] == Queued;
      assert m'.callers[w] == Woken;
      assert m.waitQueue == [w] + m.waitQueue[1..];
    }
  }

  lemma {:induction false} StepKeepsInv(m: Machine, a: Action)
    requires Inv(m) && Enabled(m, a)
    ensures Inv(Step(m, a))
  {
    match a {
      case Start(c) => TryAcquireKeepsInv(m, c);
      case Resume(c) => TryAcquireKeepsInv(m, c);
      case Finish(c) => FinishKeepsInv(m, c);
    }
  }

  /** No deadlock: as long as some caller is not done, some step can be taken. */
  lemma SomeStepEnabled(m: Machine)
    requires Inv(m) && exists c :: 0 <= c < |m.callers| && m.callers[c] != Done
    ensures exists a :: Enabled(m, a)
  {
    var c :| 0 <= c < |m.callers| && m.callers[c] != Done;
    match m.callers[c] {
      case Idle => assert Enabled(m, Start(c));
      case Woken => assert Enabled(m, Resume(c));
      case Holding => assert Enabled(m, Finish(c));
      case Queued =>
        assert c in m.waitQueue;
        if m.locked {
          var h :| 0 <= h < |m.callers| && m.callers[h] == Holding;
          assert Enabled(m, Finish(h));
        } else {
          var w :| 0 <= w < |m.callers| && m.callers[w] == Woken;
          assert Enabled(m, Resume(w));
        }
    }
  }

  // ----- Termination -----

  /** How many steps a caller still has ahead of it at most, counting the wake-up its own release may cause. */
  function Weight(p: Phase): nat {
    match p
    case Idle => 3
    case Woken => 3
    case Queued => 2
    case Holding => 2
    case Done => 0
  }

  function Remaining(callers: seq<Phase>): nat {
    if callers == [] then 0 else Weight(callers[0]) + Remaining(callers[1..])
  }

  lemma {:induction false} RemainingUpdate(callers: seq<Phase>, c: nat, p: Phase)
    requires c < |callers|
    ensures Remaining(callers[c := p]) == Remaining(callers) - Weight(callers[c]) + Weight(p)
  {
    if c > 0 {
      assert callers[c := p][1..] == callers[1..][c - 1 := p];
      RemainingUpdate(callers[1..], c - 1, p);
    } else {
      assert callers[c := p][1..] == callers[1..];
    }
  }

  /** Every step brings the end nearer, also one in which a newcomer takes the lock and sends a woken waiter back to
      the queue. */
  lemma StepDecreases(m: Machine, a: Action)
    requires Inv(m) && Enabled(m, a)
    ensures Remaining(Step(m, a).callers) < Remaining(m.callers)
  {
    match a {
      case Start(c) =>
        RemainingUpdate(m.callers, c, if m.locked then Queued else Holding);
      case Resume(c) =>
        RemainingUpdate(m.callers, c, if m.locked then Queued else Holding);
      case Finish(c) =>
        RemainingUpdate(m.callers, c, Done);
        if m.waitQueue != [] {
          assert m.waitQueue[0] in m.waitQueue;
          RemainingUpdate(m.callers[c := Done], m.waitQueue[0], Woken);
        }
    }
  }

  /** `actions` can be taken one after the other from `m`. */
  ghost predicate IsRun(m: Machine, actions: seq<Action>)
    decreases |actions|
  {
    actions == [] || (Enabled(m, actions[0]) && IsRun(Step(m, actions[0]), actions[1..]))
  }

  ghost function After(m: Machine, actions: seq<Action>): Machine
    requires IsRun(m, actions)
    decreases |actions|
  {
    if actions == [] then m else After(Step(m, actions[0]), actions[1..])
  }

  lemma {:induction false} RunIsBounded(m: Machine, actions: seq<Action>)
    requires Inv(m) && IsRun(m, actions)
    ensures Inv(After(m, actions)) && |After(m, actions).callers| == |m.callers|
    ensures |actions| + Remaining(After(m, actions).callers) <= Remaining(m.callers)
    decreases |actions|
  {
    if actions != [] {
      StepKeepsInv(m, actions[0]);
      StepDecreases(m, actions[0]);
      RunIsBounded(Step(m, actions[0]), actions[1..]);
    }
  }

  lemma {:induction false} RemainingInitial(n: nat)
    ensures Remaining(Initial(n).callers) == 3 * n
  {
    if n > 0 {
      assert Initial(n).callers[1..] == Initial(n - 1).callers;
      RemainingInitial(n - 1);
    }
  }

  /** However `n` calls of `withLock` are interleaved: never two holders, at most 3n steps, and a run that cannot go on
      has every call done and the mutex unlocked with an empty queue. */
  lemma EveryRunCompletes(n: nat, actions: seq<Action>)
    requires IsRun(Initial(n), actions)
    ensures var m := After(Initial(n), actions);
            && Exclusive(m) && |actions| <= 3 * n && |m.callers| == n
            && ((forall a :: !Enabled(m, a)) ==>
                  !m.locked && m.waitQueue == [] && forall c | 0 <= c < n :: m.callers[c] == Done)
  {
    InitialInv(n);
    RunIsBounded(Initial(n), actions);
    RemainingInitial(n);
    var m := After(Initial(n), actions);
    assert m.waitQueue != [] ==> m.waitQueue[0] in m.waitQueue;
    if forall a :: !Enabled(m, a) {
      if c :| 0 <= c < |m.callers| && m.callers[c] != Done {
        SomeStepEnabled(m);
        assert false;
      }
    }
  }

  // ----- First come, first woken -----

  ghost predicate TurnsTo(m: Machine, a: Action, c: nat, p: Phase)
    requires Enabled(m, a)
  {
    c < |m.callers| && c < |Step(m, a).callers| && m.callers[c] != p && Step(m, a).callers[c] == p
  }

  /** Who a step sends to the queue, and whom it wakes: nobody or one caller. */
  ghost function Turned(m: Machine, a: Action, p: Phase): seq<nat>
    requires Enabled(m, a)
  {
    if c: nat :| TurnsTo(m, a, c, p) then [c] else []
  }

  ghost function AllTurned(m: Machine, actions: seq<Action>, p: Phase): seq<nat>
    requires IsRun(m, actions)
    decreases |actions|
  {
    if actions == [] then [] else Turned(m, actions[0], p) + AllTurned(Step(m, actions[0]), actions[1..], p)
  }

  lemma StepTurns(m: Machine, a: Action)
    requires Inv(m) && Enabled(m, a)
    ensures m.waitQueue + Turned(m, a, Queued) == Turned(m, a, Woken) + Step(m, a).waitQueue
  {
    var m' := Step(m, a);
    if a.Finish? {
      assert Turned(m, a, Queued) == [];
      if m.waitQueue != [] {
        var w := m.waitQueue[0];
        assert w in m.waitQueue && m.callers[w] == Queued;
        assert TurnsTo(m, a, w, Woken);
        assert Turned(m, a, Woken) == [w];
        assert m.waitQueue == [w] + m.waitQueue[1..];
      } else {
        assert Turned(m, a, Woken) == [];
      }
    } else {
      assert Turned(m, a, Woken) == [];
      if m.locked {
        assert TurnsTo(m, a, a.caller, Queued);
        assert Turned(m, a, Queued) == [a.caller];
      } else {
        assert Turned(m, a, Queued) == [];
      }
    }
  }

  /** Over every run, callers are woken in the order in which they queued up: those queued at the start and then those
      that joined are, in this order, those woken and then those still waiting. */
  lemma {:induction false} WokenInOrder(m: Machine, actions: seq<Action>)
    requires Inv(m) && IsRun(m, actions)
    ensures m.waitQueue + AllTurned(m, actions, Queued) == AllTurned(m, actions, Woken) + After(m, actions).waitQueue
    decreases |actions|
  {
    if actions != [] {
      hide Turned;
      var a, m' := actions[0], Step(m, actions[0]);
      StepKeepsInv(m, a);
      hide Step, Inv;
      StepTurns(m, a);
      WokenInOrder(m', actions[1..]);
      var joined, woken := AllTurned(m', actions[1..], Queued), AllTurned(m', actions[1..], Woken);
      Regroup(m.waitQueue, Turned(m, a, Queued), joined);
      Regroup(Turned(m, a, Woken), m'.waitQueue, joined);
      Regroup(Turned(m, a, Woken), woken, After(m, actions).waitQueue);
    }
  }

  lemma Regroup(a: seq<nat>, b: seq<nat>, c: seq<nat>)
    ensures a + b + c == a + (b + c)
  {
  }

  // ----- Calling a release closure twice -----

  /** `withLock` calls its release closure once. A caller of `acquire` could call it again later; that keeps the
      invariant exactly when the mutex is not locked at that moment. */
  lemma StrayRelease(m: Machine)
    requires Inv(m)
    ensures Inv(Release(m)) <==> !m.locked
  {
    var m' := Release(m);
    if m.waitQueue != [] {
      var w := m.waitQueue[0];
      assert w in m.waitQueue && m.callers[w] == Queued;
      assert m'.callers[w] == Woken;
      assert m.waitQueue == [w] + m.waitQueue[1..];
    }
    if h :| 0 <= h < |m.callers| && m.callers[h] == Holding {
      assert m'.callers[h] == Holding;
    }
  }

  /** And where it does not, the next caller to start holds the lock together with the present holder. */
  lemma StrayReleaseBreaksExclusion(m: Machine, c: nat)
    requires Inv(m) && m.locked && c < |m.callers| && m.callers[c] == Idle
    ensures Enabled(Release(m), Start(c)) && !Exclusive(TryAcquire(Release(m), c))
  {
    var h :| 0 <= h < |m.callers| && m.callers[h] == Holding;
    var m' := Release(m);
    assert m.waitQueue != [] ==> m.waitQueue[0] in m.waitQueue;
    assert m'.callers[h] == Holding && m'.callers[c] == Idle;
    var m'' := TryAcquire(m', c);
    assert m''.callers[h] == Holding && m''.callers[c] == Holding;
  }

  // ----- The object -----

  /** The mutex object together with the progress of the calls made on it. */
  class Mutex {
    var locked: bool
    var waitQueue: seq<nat>
    var callers: seq<Phase>

    ghost function View(): Machine
      reads this
    {
      Machine(locked, waitQueue, callers)
    }

    ghost predicate Valid()
      reads this
    {
      Inv(View())
    }

    constructor (n: nat)
      ensures Valid() && View() == Initial(n)
    {
      locked, waitQueue, callers := false, [], seq(n, _ => Idle);
    }

    /** A caller entering `acquire` or resumed inside it, up to its next suspension. */
    method Acquire(c: nat) returns (acquired: bool)
      requires Valid() && (Enabled(View(), Start(c)) || Enabled(View(), Resume(c)))
      modifies this
      ensures Valid() && View() == TryAcquire(old(View()), c)
      ensures acquired <==> !old(locked)
      ensures acquired ==> forall d | 0 <= d < |callers| :: callers[d] == Holding <==> d == c
    {
      TryAcquireKeepsInv(View(), c);
      acquired := !locked;
      if locked {
        waitQueue := waitQueue + [c];
        callers := callers[c := Queued];
        return;
      }
      locked := true;
      callers := callers[c := Holding];
    }

    /** The release closure, called by the holder. */
    method ReleaseBy(c: nat)
      requires Valid() && Enabled(View(), Finish(c))
      modifies this
      ensures Valid() && View() == Step(old(View()), Finish(c))
      ensures !locked
    {
      FinishKeepsInv(View(), c);
      callers := callers[c := Done];
      locked := false;
      if waitQueue != [] {
        var next := waitQueue[0];
        waitQueue := waitQueue[1..];
        callers := callers[next := Woken];
      }
    }
  }
}
