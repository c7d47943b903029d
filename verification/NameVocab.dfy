/** The name-segment vocabulary and the bounded memo that spares the store from segmenting a name twice. */
module NameVocab {
  import opened Common

  type Entry = (string, string)

  const MAX_SEGMENTED_NAMES := 65536

  function Segments(split: string -> seq<string>, name: string): set<Entry> {
    set s | s in split(name) :: (s, name)
  }

  predicate IsSegmentableKind(kind: string) {
    kind != "file" && kind != "import"
  }

  /** The writes that reach the vocabulary - a stored or renamed node, one name of a batch, the wipe - and the
      transaction statements around them. */
  datatype Op =
    | WriteNode(kind: string, name: string)
    | WriteName(name: string)
    | Clear
    | Begin
    | Commit
    | Rollback
  {
    predicate Names() {
      WriteName? || (WriteNode? && kind !in ["file", "import"])
    }
  }

  /** The operations that have not been rolled back, and those of them that precede the open transaction, if any. */
  datatype Log = Log(kept: seq<Op>, atBegin: Option<seq<Op>>) {
    function After(op: Op): Log {
      match op
      case Begin => if atBegin.Some? then this else Log(kept, Some(kept))
      case Commit => Log(kept, None)
      case Rollback => if atBegin.Some? then Log(atBegin.value, None) else this
      case _ => this.(kept := kept + [op])
    }
  }

  function LogAfter(log: Log, ops: seq<Op>): Log
    decreases |ops|
  {
    if ops == [] then log else LogAfter(log.After(ops[0]), ops[1..])
  }

  const START := Log([], None)

  /** No transaction that is rolled back has written an entry that was not there before it. */
  predicate RollsBackCleanly(split: string -> seq<string>, log: Log, ops: seq<Op>)
    decreases |ops|
  {
    ops == [] || (
      && (ops[0].Rollback? && log.atBegin.Some? ==> Unmemoised(split, log.kept) <= Unmemoised(split, log.atBegin.value))
      && RollsBackCleanly(split, log.After(ops[0]), ops[1..]))
  }

  /** The vocabulary a writer without a memo would leave. */
  function Unmemoised(split: string -> seq<string>, ops: seq<Op>): set<Entry> {
    if ops == [] then {}
    else
      var before, op := Unmemoised(split, ops[..|ops| - 1]), ops[|ops| - 1];
      if op.Clear? then {} else if op.Names() then before + Segments(split, op.name) else before
  }

  lemma UnmemoisedMore(split: string -> seq<string>, ops: seq<Op>, op: Op)
    ensures Unmemoised(split, ops + [op])
         == if op.Clear? then {}
            else if op.Names() then Unmemoised(split, ops) + Segments(split, op.name)
            else Unmemoised(split, ops)
  {
    assert (ops + [op])[..|ops|] == ops;
  }

  /** `name` has been written at some point after the last wipe. */
  ghost predicate WrittenSinceClear(ops: seq<Op>, name: string) {
    exists i :: 0 <= i < |ops| && ops[i].Names() && ops[i].name == name && NoClearFrom(ops, i)
  }

  ghost predicate NoClearFrom(ops: seq<Op>, i: nat) {
    forall j | i <= j < |ops| :: !ops[j].Clear?
  }

  lemma WrittenStep(ops: seq<Op>, op: Op, name: string)
    ensures WrittenSinceClear(ops + [op], name) <==>
            !op.Clear? && (WrittenSinceClear(ops, name) || (op.Names() && op.name == name))
  {
    var more := ops + [op];
    if WrittenSinceClear(more, name) {
      var i :| 0 <= i < |more| && more[i].Names() && more[i].name == name && NoClearFrom(more, i);
      assert more[|ops|] == op;
      if i < |ops| {
        assert ops[i] == more[i];
        assert NoClearFrom(ops, i) by {
          assert forall j | i <= j < |ops| :: more[j] == ops[j];
        }
      }
    }
    if WrittenSinceClear(ops, name) && !op.Clear? {
      var i :| 0 <= i < |ops| && ops[i].Names() && ops[i].name == name && NoClearFrom(ops, i);
      assert more[i] == ops[i] && NoClearFrom(more, i);
    }
    if op.Names() && op.name == name {
      assert more[|ops|] == op && NoClearFrom(more, |ops|);
    }
  }

  /** The vocabulary is exactly the segments of the names written since the last wipe. */
  lemma {:induction false} VocabularyIsNamesSinceClear(split: string -> seq<string>, ops: seq<Op>, e: Entry)
    ensures e in Unmemoised(split, ops) <==> WrittenSinceClear(ops, e.1) && e.0 in split(e.1)
  {
    if ops != [] {
      var before, op := ops[..|ops| - 1], ops[|ops| - 1];
      assert ops == before + [op];
      VocabularyIsNamesSinceClear(split, before, e);
      WrittenStep(before, op, e.1);
    }
  }

  class Vocabulary {
    const split: string -> seq<string>
    var segmentedNames: set<string>
    var vocab: set<Entry>

    /** The table at the BEGIN of the open transaction. */
    var saved: Option<set<Entry>>

    /** Every memoised name has all its segments in the table, which is what makes skipping it harmless. */
    ghost predicate Valid()
      reads this
    {
      && |segmentedNames| <= 65536
      && forall n | n in segmentedNames :: Segments(split, n) <= vocab
    }

    /** The table is what a writer without a memo would have left. */
    ghost predicate Holds(log: Log)
      reads this
    {
      && vocab == Unmemoised(split, log.kept)
      && saved == if log.atBegin.Some? then Some(Unmemoised(split, log.atBegin.value)) else None
    }

    constructor (split: string -> seq<string>)
      ensures this.split == split && Valid() && vocab == {} && segmentedNames == {} && saved == None
    {
      this.split := split;
      segmentedNames, vocab, saved := {}, {}, None;
    }

    /** Skips a memoised name, otherwise inserts its segments, emptying a full memo first. With a memo that can be
        trusted, the table gains the name's segments and nothing else in every case. */
    method InsertNameSegments(name: string)
      modifies this`segmentedNames, this`vocab
      ensures vocab == if name in old(segmentedNames) then old(vocab) else old(vocab) + Segments(split, name)
      ensures old(Valid()) ==> Valid() && vocab == old(vocab) + Segments(split, name)
      ensures segmentedNames ==
              if name in old(segmentedNames) then old(segmentedNames)
              else if |old(segmentedNames)| >= 65536 then {name} else old(segmentedNames) + {name}
    {
      if name in segmentedNames {
        return;
      }
      if |segmentedNames| >= MAX_SEGMENTED_NAMES {
        segmentedNames := {};
      }
      ghost var memo := segmentedNames;
      segmentedNames := segmentedNames + {name};
      var segments := split(name);
      for k := 0 to |segments|
        invariant segmentedNames == memo + {name}
        invariant vocab == old(vocab) + set s | s in segments[..k] :: (s, name)
      {
        assert segments[..k + 1] == segments[..k] + [segments[k]];
        vocab := vocab + {(segments[k], name)};
      }
      assert segments[..|segments|] == segments;
    }

    method ClearNameSegmentVocab()
      modifies this`segmentedNames, this`vocab
      ensures Valid() && vocab == {} && segmentedNames == {}
    {
      vocab := {};
      segmentedNames := {};
    }

    method Begin()
      modifies this`saved
      ensures saved == if old(saved).Some? then old(saved) else Some(vocab)
    {
      if saved.None? {
        saved := Some(vocab);
      }
    }

    method Commit()
      modifies this`saved
      ensures saved == None
    {
      saved := None;
    }

    /** A rollback takes table rows back and leaves the memo alone. The memo can still be trusted exactly when the
        transaction has written no new entry for a name that is memoised. */
    method Rollback()
      requires Valid()
      modifies this`vocab, this`saved
      ensures saved == None && vocab == if old(saved).Some? then old(saved).value else old(vocab)
      ensures Valid() <==>
              forall e | e in old(vocab) - vocab :: e.1 !in segmentedNames || e.0 !in split(e.1)
    {
      if saved.Some? {
        vocab, saved := saved.value, None;
        if n :| n in segmentedNames && !(Segments(split, n) <= vocab) {
          var e :| e in Segments(split, n) && e !in vocab;
          assert e in old(vocab) - vocab;
        }
      }
    }

    /** The other half: whenever the transaction has written a new entry for a memoised name, rolling back and writing
        that name again leaves the entry out. */
    method LostAfterRollback(e: Entry)
      requires Valid() && saved.Some? && e in vocab - saved.value && e.1 in segmentedNames && e.0 in split(e.1)
      modifies this
      ensures vocab == old(saved).value && e !in vocab
      ensures vocab != old(saved).value + Segments(split, e.1)
    {
      Rollback();
      InsertNameSegments(e.1);
      assert e in Segments(split, e.1);
    }

    method Perform(op: Op, ghost log: Log)
      requires Valid() && Holds(log)
      requires op.Rollback? && log.atBegin.Some? ==> Unmemoised(split, log.kept) <= Unmemoised(split, log.atBegin.value)
      modifies this
      ensures Valid() && Holds(log.After(op))
    {
      UnmemoisedMore(split, log.kept, op);
      hide Segments, Unmemoised;
      match op {
        case WriteNode(kind, name) =>
          if IsSegmentableKind(kind) {
            InsertNameSegments(name);
          }
        case WriteName(name) => InsertNameSegments(name);
        case Clear => ClearNameSegmentVocab();
        case Begin => Begin();
        case Commit => Commit();
        case Rollback => Rollback();
      }
    }

    /** Over every run of writes, wipes and transactions in which no rolled-back transaction has written anything new,
        the memo is invisible: the table is what a writer without a memo leaves after the operations not rolled back. */
    method Run(ops: seq<Op>)
      requires Valid() && vocab == {} && saved == None && RollsBackCleanly(split, START, ops)
      modifies this
      ensures Valid() && Holds(LogAfter(START, ops))
    {
      ghost var log := START;
      for k := 0 to |ops|
        invariant Valid() && Holds(log) && RollsBackCleanly(split, log, ops[k..])
        invariant LogAfter(log, ops[k..]) == LogAfter(START, ops)
      {
        assert ops[k..][0] == ops[k] && ops[k..][1..] == ops[k + 1..];
        Perform(ops[k], log);
        log := log.After(ops[k]);
      }
    }
  }

  /** From a new store: a name first written in a transaction that is rolled back, and then written again, is not in
      the vocabulary, though it has segments. */
  method NameLostInNewStore(split: string -> seq<string>, name: string) returns (vocab: set<Entry>)
    requires split(name) != []
    ensures var log := LogAfter(START, [Begin, WriteName(name), Rollback, WriteName(name)]);
            log.kept == [WriteName(name)] && vocab == {} != Unmemoised(split, log.kept)
  {
    var v := new Vocabulary(split);
    v.Begin();
    v.InsertNameSegments(name);
    assert (split(name)[0], name) in Segments(split, name);
    v.LostAfterRollback((split(name)[0], name));
    vocab := v.vocab;
    FourSteps(name);
    assert [WriteName(name)][..0] == [];
  }

  lemma FourSteps(name: string)
    ensures LogAfter(START, [Begin, WriteName(name), Rollback, WriteName(name)]) == Log([WriteName(name)], None)
  {
    var w := WriteName(name);
    assert [Begin, w, Rollback, w][1..] == [w, Rollback, w];
    assert [w, Rollback, w][1..] == [Rollback, w] && [Rollback, w][1..] == [w] && [w][1..] == [];
    assert [] + [w] == [w];
    assert LogAfter(Log([], None), [w]) == Log([w], None);
    assert LogAfter(Log([w], Some([])), [Rollback, w]) == LogAfter(Log([], None), [w]);
    assert LogAfter(Log([], Some([])), [w, Rollback, w]) == LogAfter(Log([w], Some([])), [Rollback, w]);
  }
}
