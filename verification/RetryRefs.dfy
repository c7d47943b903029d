/** Which failed references a sync retries: two chunked passes over the reference table that must agree with one
    unchunked query. */
module RetryRefs {

  const CHUNK := 500

  /** `tail` is the name tail the row is indexed by. */
  datatype Row = Row(id: nat, tail: string, failed: bool)

  ghost predicate DistinctRows(rows: seq<Row>) {
    forall i, j | 0 <= i < j < |rows| :: rows[i] != rows[j]
  }

  ghost predicate DistinctNames(names: seq<string>) {
    forall i, j | 0 <= i < j < |names| :: names[i] != names[j]
  }

  /** The failed rows with one of the given tails, each once, however often a tail is listed. */
  function FailedWith(rows: seq<Row>, tails: seq<string>): seq<Row> {
    if rows == [] then []
    else if rows[0].failed && rows[0].tail in tails then [rows[0]] + FailedWith(rows[1..], tails)
    else FailedWith(rows[1..], tails)
  }

  function Population(rows: seq<Row>, tail: string): nat {
    |FailedWith(rows, [tail])|
  }

  /** The tails of a chunk that have failed rows, one group each, and not too many rows. */
  function Groups(rows: seq<Row>, chunk: seq<string>, ceiling: int): seq<string> {
    if chunk == [] then []
    else
      var rest := Groups(rows, chunk[..|chunk| - 1], ceiling);
      var last := chunk[|chunk| - 1];
      if last !in rest && 0 < Population(rows, last) <= ceiling then rest + [last] else rest
  }

  /** What the answer should hold. */
  ghost predicate Retryable(rows: seq<Row>, names: seq<string>, ceiling: int, row: Row) {
    row in rows && row.failed && row.tail in names && Population(rows, row.tail) <= ceiling
  }

  lemma {:induction false} FailedHolds(rows: seq<Row>, tails: seq<string>, row: Row)
    ensures row in FailedWith(rows, tails) <==> row in rows && row.failed && row.tail in tails
  {
    if rows != [] {
      FailedHolds(rows[1..], tails, row);
      assert rows == [rows[0]] + rows[1..];
    }
  }

  lemma {:induction false} FailedDistinct(rows: seq<Row>, tails: seq<string>)
    requires DistinctRows(rows)
    ensures DistinctRows(FailedWith(rows, tails))
  {
    if rows != [] {
      FailedDistinct(rows[1..], tails);
      FailedHolds(rows[1..], tails, rows[0]);
      assert rows[0] !in rows[1..];
    }
  }

  lemma {:induction false} GroupsHold(rows: seq<Row>, chunk: seq<string>, ceiling: int, tail: string)
    ensures tail in Groups(rows, chunk, ceiling) <==> tail in chunk && 0 < Population(rows, tail) <= ceiling
  {
    if chunk != [] {
      GroupsHold(rows, chunk[..|chunk| - 1], ceiling, tail);
      assert chunk == chunk[..|chunk| - 1] + [chunk[|chunk| - 1]];
    }
  }

  lemma {:induction false} GroupsDistinct(rows: seq<Row>, chunk: seq<string>, ceiling: int)
    ensures DistinctNames(Groups(rows, chunk, ceiling))
  {
    if chunk != [] {
      GroupsDistinct(rows, chunk[..|chunk| - 1], ceiling);
    }
  }

  // ----- The passes, chunk by chunk -----

  function First<T>(s: seq<T>): seq<T> {
    if |s| <= 500 then s else s[..500]
  }

  function Rest<T>(s: seq<T>): seq<T> {
    if |s| <= 500 then [] else s[500..]
  }

  function RetryNames(rows: seq<Row>, names: seq<string>, ceiling: int): seq<string>
    decreases |names|
  {
    if names == [] then [] else Groups(rows, First(names), ceiling) + RetryNames(rows, Rest(names), ceiling)
  }

  function Load(rows: seq<Row>, tails: seq<string>): seq<Row>
    decreases |tails|
  {
    if tails == [] then [] else FailedWith(rows, First(tails)) + Load(rows, Rest(tails))
  }

  /** How many chunks of a list hold a name. */
  function ChunksHolding(names: seq<string>, name: string): nat
    decreases |names|
  {
    if names == [] then 0 else (if name in First(names) then 1 else 0) + ChunksHolding(Rest(names), name)
  }

  lemma {:induction false} HeldIfListed(names: seq<string>, name: string)
    ensures ChunksHolding(names, name) > 0 <==> name in names
    decreases |names|
  {
    if names != [] {
      assert names == First(names) + Rest(names);
      HeldIfListed(Rest(names), name);
    }
  }

  /** Where the chunks of the counting pass fall does not matter to which tails survive. */
  lemma {:induction false} RetryNamesHold(rows: seq<Row>, names: seq<string>, ceiling: int, tail: string)
    ensures tail in RetryNames(rows, names, ceiling) <==> tail in names && 0 < Population(rows, tail) <= ceiling
    decreases |names|
  {
    if names != [] {
      assert names == First(names) + Rest(names);
      GroupsHold(rows, First(names), ceiling, tail);
      RetryNamesHold(rows, Rest(names), ceiling, tail);
    }
  }

  /** A surviving tail is listed once for every chunk of the counting pass that names it. */
  lemma {:induction false} SurvivorsPerChunk(rows: seq<Row>, names: seq<string>, ceiling: int, tail: string)
    requires 0 < Population(rows, tail) <= ceiling
    ensures multiset(RetryNames(rows, names, ceiling))[tail] == ChunksHolding(names, tail)
    decreases |names|
  {
    if names != [] {
      GroupsHold(rows, First(names), ceiling, tail);
      GroupsDistinct(rows, First(names), ceiling);
      OnceIfDistinct(Groups(rows, First(names), ceiling), tail);
      SurvivorsPerChunk(rows, Rest(names), ceiling, tail);
    }
  }

  lemma {:induction false} OnceIfDistinct<T>(s: seq<T>, x: T)
    requires forall i, j | 0 <= i < j < |s| :: s[i] != s[j]
    ensures multiset(s)[x] == if x in s then 1 else 0
  {
    if s != [] {
      assert s == [s[0]] + s[1..];
      OnceIfDistinct(s[1..], x);
    }
  }

  lemma {:induction false} DistinctIfOnce<T>(s: seq<T>)
    requires forall x | x in s :: multiset(s)[x] == 1
    ensures forall i, j | 0 <= i < j < |s| :: s[i] != s[j]
  {
    if s != [] {
      assert s == [s[0]] + s[1..];
      assert multiset(s)[s[0]] == 1 + multiset(s[1..])[s[0]];
      forall x | x in s[1..]
        ensures multiset(s[1..])[x] == 1
      {
        assert x in multiset(s[1..]) && multiset(s)[x] == 1;
      }
      DistinctIfOnce(s[1..]);
    }
  }

  /** A failed row is returned once for every chunk of the loading pass that lists its tail. */
  lemma {:induction false} ReturnedPerChunk(rows: seq<Row>, tails: seq<string>, row: Row)
    requires DistinctRows(rows)
    ensures multiset(Load(rows, tails))[row] == if row in rows && row.failed then ChunksHolding(tails, row.tail) else 0
    decreases |tails|
  {
    if tails != [] {
      FailedHolds(rows, First(tails), row);
      FailedDistinct(rows, First(tails));
      OnceIfDistinct(FailedWith(rows, First(tails)), row);
      ReturnedPerChunk(rows, Rest(tails), row);
    }
  }

  /** No row comes back twice exactly when no tail with failed rows is listed in two chunks of the loading pass. */
  lemma {:induction false} EachOnce(rows: seq<Row>, tails: seq<string>)
    requires DistinctRows(rows)
    ensures DistinctRows(Load(rows, tails)) <==> forall row | row in rows && row.failed :: ChunksHolding(tails, row.tail) <= 1
  {
    hide Load, ChunksHolding;
    var loaded := Load(rows, tails);
    if DistinctRows(loaded) {
      forall row | row in rows && row.failed
        ensures ChunksHolding(tails, row.tail) <= 1
      {
        ReturnedPerChunk(rows, tails, row);
        OnceIfDistinct(loaded, row);
      }
    }
    if forall row | row in rows && row.failed :: ChunksHolding(tails, row.tail) <= 1 {
      forall row | row in loaded
        ensures multiset(loaded)[row] == 1
      {
        assert row in multiset(loaded);
        ReturnedPerChunk(rows, tails, row);
      }
      DistinctIfOnce(loaded);
    }
  }

  lemma {:induction false} DistinctHeldOnce(names: seq<string>, name: string)
    requires DistinctNames(names)
    ensures ChunksHolding(names, name) <= 1
    decreases |names|
  {
    if names != [] {
      assert names == First(names) + Rest(names);
      assert forall i | 0 <= i < |Rest(names)| :: Rest(names)[i] == names[500 + i];
      DistinctHeldOnce(Rest(names), name);
      HeldIfListed(Rest(names), name);
    }
  }

  lemma PopulatedByItself(rows: seq<Row>, row: Row)
    requires row in rows && row.failed
    ensures Population(rows, row.tail) > 0
  {
    FailedHolds(rows, [row.tail], row);
  }

  lemma {:induction false} LoadHolds(rows: seq<Row>, tails: seq<string>, row: Row)
    ensures row in Load(rows, tails) <==> row in rows && row.failed && row.tail in tails
    decreases |tails|
  {
    if tails != [] {
      assert tails == First(tails) + Rest(tails);
      FailedHolds(rows, First(tails), row);
      LoadHolds(rows, Rest(tails), row);
    }
  }

  /** The answer holds exactly the failed rows whose tail is named and not too common. */
  lemma AnswerHolds(rows: seq<Row>, names: seq<string>, ceiling: int, row: Row)
    ensures row in Load(rows, RetryNames(rows, names, ceiling)) <==> Retryable(rows, names, ceiling, row)
  {
    LoadHolds(rows, RetryNames(rows, names, ceiling), row);
    RetryNamesHold(rows, names, ceiling, row.tail);
    if row in rows && row.failed {
      PopulatedByItself(rows, row);
    }
  }

  lemma {:induction false} SurvivorsDistinct(rows: seq<Row>, names: seq<string>, ceiling: int)
    requires DistinctNames(names)
    ensures DistinctNames(RetryNames(rows, names, ceiling))
  {
    var retry := RetryNames(rows, names, ceiling);
    forall tail | tail in retry
      ensures multiset(retry)[tail] == 1
    {
      RetryNamesHold(rows, names, ceiling, tail);
      SurvivorsPerChunk(rows, names, ceiling, tail);
      DistinctHeldOnce(names, tail);
      assert tail in multiset(retry);
    }
    DistinctIfOnce(retry);
  }

  /** Exactly the failed rows whose tail is named and not too common. A row comes back once for every chunk of the
      loading pass that lists its tail, so once in particular when no name is listed twice. */
  method GetRetryableFailedReferences(rows: seq<Row>, names: seq<string>, perNameCeiling: int) returns (retryable: seq<Row>)
    requires DistinctRows(rows)
    ensures forall row :: row in retryable <==> Retryable(rows, names, perNameCeiling, row)
    ensures forall row | row in retryable ::
              multiset(retryable)[row] == ChunksHolding(RetryNames(rows, names, perNameCeiling), row.tail)
    ensures DistinctNames(names) ==> DistinctRows(retryable)
  {
    hide RetryNames, Load, ChunksHolding, DistinctRows, DistinctNames;
    var retryNames := FirstPass(rows, names, perNameCeiling);
    retryable := SecondPass(rows, retryNames);
    forall row
      ensures row in retryable <==> Retryable(rows, names, perNameCeiling, row)
      ensures row in retryable ==> multiset(retryable)[row] == ChunksHolding(retryNames, row.tail)
    {
      AnswerHolds(rows, names, perNameCeiling, row);
      ReturnedPerChunk(rows, retryNames, row);
    }
    if DistinctNames(names) {
      OnceEach(rows, names, perNameCeiling);
    }
  }

  lemma OnceEach(rows: seq<Row>, names: seq<string>, ceiling: int)
    requires DistinctRows(rows) && DistinctNames(names)
    ensures DistinctRows(Load(rows, RetryNames(rows, names, ceiling)))
  {
    var retry := RetryNames(rows, names, ceiling);
    SurvivorsDistinct(rows, names, ceiling);
    forall row | row in rows && row.failed
      ensures ChunksHolding(retry, row.tail) <= 1
    {
      DistinctHeldOnce(retry, row.tail);
    }
    EachOnce(rows, retry);
  }

  method FirstPass(rows: seq<Row>, names: seq<string>, perNameCeiling: int) returns (retryNames: seq<string>)
    ensures retryNames == RetryNames(rows, names, perNameCeiling)
  {
    hide Groups;
    retryNames := [];
    var i := 0;
    while i < |names|
      invariant 0 <= i
      invariant retryNames + RetryNames(rows, if i <= |names| then names[i..] else [], perNameCeiling)
             == RetryNames(rows, names, perNameCeiling)
    {
      var chunk := names[i..if i + CHUNK < |names| then i + CHUNK else |names|];
      assert chunk == First(names[i..]);
      assert Rest(names[i..]) == if i + CHUNK <= |names| then names[i + CHUNK..] else [];
      retryNames := retryNames + Groups(rows, chunk, perNameCeiling);
      i := i + CHUNK;
    }
  }

  method SecondPass(rows: seq<Row>, retryNames: seq<string>) returns (loaded: seq<Row>)
    ensures loaded == Load(rows, retryNames)
  {
    hide FailedWith;
    loaded := [];
    var i := 0;
    while i < |retryNames|
      invariant 0 <= i
      invariant loaded + Load(rows, if i <= |retryNames| then retryNames[i..] else []) == Load(rows, retryNames)
    {
      var chunk := retryNames[i..if i + CHUNK < |retryNames| then i + CHUNK else |retryNames|];
      assert chunk == First(retryNames[i..]);
      assert Rest(retryNames[i..]) == if i + CHUNK <= |retryNames| then retryNames[i + CHUNK..] else [];
      loaded := loaded + FailedWith(rows, chunk);
      i := i + CHUNK;
    }
  }
}
