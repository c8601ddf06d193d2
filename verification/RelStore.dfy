/** The relational store behind raft: a table of log entries keyed by index, and a table of key/value rows
    in which nothing but the way Set works keeps keys unique. */
module RelStore {
  import opened Bytes
  import opened Wrappers

  type Key = seq<byte>

  datatype Entry = Entry(index: nat, term: nat, kind: int, data: seq<byte>)

  /** One row of the key/value table; `id` is its primary key. */
  datatype Row = Row(id: nat, key: Key, value: seq<byte>)

  /** Where a transaction goes wrong, if it does. `FailsAt` counts the steps after the first statement has been
      prepared; from there on the transaction is rolled back. When preparing the first statement fails, the
      transaction is neither rolled back nor committed. */
  datatype Fault = NoFault | BeginFails | PrepareFails | FailsAt(step: nat) | CommitFails

  /** How a change ends. A change or a query that finds the only connection taken never ends: it is blocked. */
  datatype Outcome = Done | Failed | Blocked

  datatype Reply<T> = Got(value: T) | QueryFailed | QueryBlocked

  datatype Fetched = Found(entry: Entry) | ErrLogNotFound

  datatype Number = Number(value: bv64) | TooShort

  // ---------------------------------------------------------------------------------------------
  // Eight little-endian bytes

  function PutUint64(v: bv64): (b: seq<byte>)
    ensures |b| == 8
  {
    [(v & 0xFF) as byte, ((v >> 8) & 0xFF) as byte, ((v >> 16) & 0xFF) as byte, ((v >> 24) & 0xFF) as byte,
     ((v >> 32) & 0xFF) as byte, ((v >> 40) & 0xFF) as byte, ((v >> 48) & 0xFF) as byte, ((v >> 56) & 0xFF) as byte]
  }

  function Uint64(b: seq<byte>): bv64
    requires |b| >= 8
  {
    (b[0] as bv64) | ((b[1] as bv64) << 8) | ((b[2] as bv64) << 16) | ((b[3] as bv64) << 24)
    | ((b[4] as bv64) << 32) | ((b[5] as bv64) << 40) | ((b[6] as bv64) << 48) | ((b[7] as bv64) << 56)
  }

  /** The lowest eight bits come first, and then the bytes of what is above them. */
  lemma LittleEndian(v: bv64)
    ensures PutUint64(v)[0] as bv64 == v & 0xFF
    ensures PutUint64(v)[1..] == PutUint64(v >> 8)[..7]
  {
    assert PutUint64(v)[1..] == PutUint64(v >> 8)[..7] by {
      Shifts(v);
    }
  }

  lemma Shifts(v: bv64)
    ensures (v >> 8) >> 8 == v >> 16 && (v >> 8) >> 16 == v >> 24 && (v >> 8) >> 24 == v >> 32
    ensures (v >> 8) >> 32 == v >> 40 && (v >> 8) >> 40 == v >> 48 && (v >> 8) >> 48 == v >> 56
  {
  }

  lemma Uint64RoundTrip(v: bv64)
    ensures Uint64(PutUint64(v)) == v
  {
  }

  // ---------------------------------------------------------------------------------------------
  // The key/value table

  ghost predicate UniqueKeys(rows: seq<Row>) {
    forall i, j :: 0 <= i < j < |rows| ==> rows[i].key != rows[j].key
  }

  /** The rows as a dictionary. */
  ghost function Contents(rows: seq<Row>): map<Key, seq<byte>> {
    if rows == [] then map[] else Contents(rows[..|rows| - 1])[rows[|rows| - 1].key := rows[|rows| - 1].value]
  }

  /** delete from raft_store where store_key = ? */
  function DeleteKey(rows: seq<Row>, key: Key): seq<Row> {
    if rows == [] then []
    else DeleteKey(rows[..|rows| - 1], key) + if rows[|rows| - 1].key == key then [] else [rows[|rows| - 1]]
  }

  predicate BytesLess(a: seq<byte>, b: seq<byte>) {
    b != [] && (a == [] || a[0] < b[0] || (a[0] == b[0] && BytesLess(a[1..], b[1..])))
  }

  /** select min(store_value) from raft_store where store_key = ?; NULL when no row matches. */
  function MinValue(rows: seq<Row>, key: Key): Option<seq<byte>> {
    if rows == [] then None
    else
      var before := MinValue(rows[..|rows| - 1], key);
      var last := rows[|rows| - 1];
      if last.key != key then before
      else if before.Some? && !BytesLess(last.value, before.value) then before
      else Some(last.value)
  }

  lemma {:induction false} ContentsKeys(rows: seq<Row>, key: Key)
    ensures key in Contents(rows) <==> exists i :: 0 <= i < |rows| && rows[i].key == key
  {
    if rows != [] {
      ContentsKeys(rows[..|rows| - 1], key);
    }
  }

  lemma UniqueFront(rows: seq<Row>)
    requires rows != [] && UniqueKeys(rows)
    ensures UniqueKeys(rows[..|rows| - 1]) && rows[|rows| - 1].key !in Contents(rows[..|rows| - 1])
  {
    ContentsKeys(rows[..|rows| - 1], rows[|rows| - 1].key);
  }

  /** With unique keys the aggregate has only one value to choose from. */
  lemma {:induction false} MinValueIsContents(rows: seq<Row>, key: Key)
    requires UniqueKeys(rows)
    ensures MinValue(rows, key) == if key in Contents(rows) then Some(Contents(rows)[key]) else None
  {
    if rows != [] {
      UniqueFront(rows);
      MinValueIsContents(rows[..|rows| - 1], key);
    }
  }

  lemma ContentsSnoc(rows: seq<Row>, r: Row)
    ensures Contents(rows + [r]) == Contents(rows)[r.key := r.value]
    ensures UniqueKeys(rows) && (forall x :: x in rows ==> x.key != r.key) ==> UniqueKeys(rows + [r])
  {
    assert (rows + [r])[..|rows|] == rows;
  }

  lemma {:induction false} DeleteKeyMembers(rows: seq<Row>, key: Key)
    ensures forall r :: r in DeleteKey(rows, key) <==> r in rows && r.key != key
  {
    if rows != [] {
      DeleteKeyMembers(rows[..|rows| - 1], key);
      assert rows == rows[..|rows| - 1] + [rows[|rows| - 1]];
    }
  }

  lemma {:induction false} DeleteKeyContents(rows: seq<Row>, key: Key)
    requires UniqueKeys(rows)
    ensures UniqueKeys(DeleteKey(rows, key))
    ensures Contents(DeleteKey(rows, key)) == Contents(rows) - {key}
  {
    if rows != [] {
      UniqueFront(rows);
      DeleteKeyContents(rows[..|rows| - 1], key);
      DeleteKeyStep(rows, key);
    }
  }

  lemma RemoveUpdated<K, V>(m: map<K, V>, k: K, other: K, v: V)
    ensures m[k := v] - {k} == m - {k}
    ensures other != k ==> m[other := v] - {k} == (m - {k})[other := v]
  {
  }

  lemma DeleteKeyStep(rows: seq<Row>, key: Key)
    requires rows != [] && UniqueKeys(rows)
    requires var d := DeleteKey(rows[..|rows| - 1], key);
             UniqueKeys(d) && Contents(d) == Contents(rows[..|rows| - 1]) - {key}
    ensures UniqueKeys(DeleteKey(rows, key))
    ensures Contents(DeleteKey(rows, key)) == Contents(rows) - {key}
  {
    var front, last := rows[..|rows| - 1], rows[|rows| - 1];
    RemoveUpdated(Contents(front), key, last.key, last.value);
    if last.key == key {
      assert DeleteKey(rows, key) == DeleteKey(front, key);
    } else {
      DeleteKeyMembers(front, key);
      assert forall x :: x in front ==> x.key != last.key;
      ContentsSnoc(DeleteKey(front, key), last);
    }
  }

  /** One Set as a transaction on the rows. */
  function SetRows(rows: seq<Row>, id: nat, key: Key, val: seq<byte>): seq<Row> {
    DeleteKey(rows, key) + [Row(id, key, val)]
  }

  lemma SetRowsContents(rows: seq<Row>, id: nat, key: Key, val: seq<byte>)
    requires UniqueKeys(rows)
    ensures UniqueKeys(SetRows(rows, id, key, val))
    ensures Contents(SetRows(rows, id, key, val)) == Contents(rows)[key := val]
  {
    DeleteKeyContents(rows, key);
    DeleteKeyMembers(rows, key);
    ContentsSnoc(DeleteKey(rows, key), Row(id, key, val));
  }

  // ---------------------------------------------------------------------------------------------
  // The log table

  type Log = map<nat, Entry>

  ghost predicate Keyed(log: Log) {
    forall i :: i in log ==> log[i].index == i
  }

  /** replace into raft_log, entry by entry */
  function Replace(log: Log, batch: seq<Entry>): Log {
    if batch == [] then log
    else Replace(log, batch[..|batch| - 1])[batch[|batch| - 1].index := batch[|batch| - 1]]
  }

  function Between(log: Log, min: nat, max: nat): set<nat> {
    set i | i in log && min <= i <= max
  }

  /** The smallest stored index, or 0. */
  ghost predicate IsFirst(log: Log, idx: nat) {
    if log == map[] then idx == 0 else idx in log && forall i :: i in log ==> idx <= i
  }

  /** The largest stored index, or 0. */
  ghost predicate IsLast(log: Log, idx: nat) {
    if log == map[] then idx == 0 else idx in log && forall i :: i in log ==> i <= idx
  }

  /** The last entry of a batch with a given index. */
  function LastAt(batch: seq<Entry>, i: nat): (r: Option<Entry>)
    ensures r.Some? ==> exists j :: 0 <= j < |batch| && batch[j] == r.value && r.value.index == i
                                    && forall k :: j < k < |batch| ==> batch[k].index != i
    ensures r.None? ==> forall e :: e in batch ==> e.index != i
  {
    if batch == [] then None
    else if batch[|batch| - 1].index == i then Some(batch[|batch| - 1])
    else
      assert batch == batch[..|batch| - 1] + [batch[|batch| - 1]];
      LastAt(batch[..|batch| - 1], i)
  }

  /** Later entries of a batch win over earlier ones, and all of them over what was stored before. */
  lemma {:induction false} ReplaceLastWins(log: Log, batch: seq<Entry>, i: nat)
    ensures i in Replace(log, batch) <==> LastAt(batch, i).Some? || i in log
    ensures i in Replace(log, batch) ==> Replace(log, batch)[i] == if LastAt(batch, i).Some? then LastAt(batch, i).value else log[i]
  {
    if batch != [] {
      ReplaceLastWins(log, batch[..|batch| - 1], i);
    }
  }

  function Indices(batch: seq<Entry>): set<nat> {
    set e | e in batch :: e.index
  }

  lemma {:induction false} ReplaceKeyed(log: Log, batch: seq<Entry>)
    requires Keyed(log)
    ensures Keyed(Replace(log, batch))
    ensures Replace(log, batch).Keys == log.Keys + Indices(batch)
  {
    if batch != [] {
      ReplaceKeyed(log, batch[..|batch| - 1]);
      assert batch == batch[..|batch| - 1] + [batch[|batch| - 1]];
    }
  }

  // ---------------------------------------------------------------------------------------------
  // The store

  datatype LogOp = Append(batch: seq<Entry>, committed: bool) | Delete(min: nat, max: nat)

  function ApplyLogOp(log: Log, op: LogOp): Log {
    match op
    case Append(batch, committed) => if committed then Replace(log, batch) else log
    case Delete(min, max) => log - Between(log, min, max)
  }

  function RunLogFrom(log: Log, ops: seq<LogOp>): Log {
    if ops == [] then log else ApplyLogOp(RunLogFrom(log, ops[..|ops| - 1]), ops[|ops| - 1])
  }

  lemma {:induction false} RunKeepsKeyed(log: Log, ops: seq<LogOp>)
    requires Keyed(log)
    ensures Keyed(RunLogFrom(log, ops))
  {
    if ops != [] {
      RunKeepsKeyed(log, ops[..|ops| - 1]);
      match ops[|ops| - 1]
      case Append(batch, _) => ReplaceKeyed(RunLogFrom(log, ops[..|ops| - 1]), batch);
      case Delete(_, _) =>
    }
  }

  /** A transaction with `steps` steps after the first statement has been prepared does not commit. */
  predicate Breaks(fault: Fault, steps: nat) {
    fault != NoFault && (fault.FailsAt? ==> fault.step < steps)
  }

  /** The end of a change that starts while a transaction is left open or not. */
  function End(pending: bool, breaks: bool): Outcome {
    if pending then Blocked else if breaks then Failed else Done
  }

  /** What happens around the three statements of DeleteAll: which of them fail, and what others do between them. */
  datatype Surroundings = Surroundings(firstFails: bool, beforeLast: seq<LogOp>, lastFails: bool,
                                       beforeDelete: seq<LogOp>, deleteFails: bool)

  const UNDISTURBED := Surroundings(false, [], false, [], false)

  class RelationalStore {
    var log: Log
    var rows: seq<Row>
    var nextId: nat

    /** A transaction has been left open and holds the only connection. */
    var pending: bool

    ghost predicate Valid()
      reads this
    {
      Keyed(log) && UniqueKeys(rows)
    }

    constructor ()
      ensures Valid() && log == map[] && rows == [] && !pending
    {
      log, rows, nextId, pending := map[], [], 1, false;
    }

    /** Deletes and inserts in one transaction. */
    method Set(key: Key, val: seq<byte>, fault: Fault) returns (r: Outcome)
      requires Valid()
      modifies this`rows, this`nextId, this`pending
      ensures Valid()
      ensures r == End(old(pending), Breaks(fault, 3))
      ensures r.Blocked? <==> old(pending)
      ensures r.Done? <==> !old(pending) && (fault.NoFault? || (fault.FailsAt? && fault.step > 2))
      ensures pending <==> old(pending) || fault.PrepareFails?
      ensures Contents(rows) == if r.Done? then Contents(old(rows))[key := val] else Contents(old(rows))
      ensures !r.Done? ==> rows == old(rows)
    {
      if pending {
        return Blocked;
      }
      if fault.BeginFails? {
        return Failed;
      }
      if fault.PrepareFails? {
        pending := true;
        return Failed;
      }
      // delete, prepare, insert
      if fault == FailsAt(0) {
        return Failed;
      }
      var tx := DeleteKey(rows, key);
      if fault == FailsAt(1) {
        return Failed;
      }
      if fault == FailsAt(2) {
        return Failed;
      }
      tx := tx + [Row(nextId, key, val)];
      if fault.CommitFails? {
        return Failed;
      }
      SetRowsContents(rows, nextId, key, val);
      rows := tx;
      nextId := nextId + 1;
      r := Done;
    }

    /** The value of a key; None stands for the nil slice that a missing key scans into. */
    method Get(key: Key, fails: bool) returns (r: Reply<Option<seq<byte>>>)
      requires Valid()
      ensures r.QueryBlocked? <==> pending
      ensures r.QueryFailed? <==> !pending && fails
      ensures r.Got? ==> r.value == if key in Contents(rows) then Some(Contents(rows)[key]) else None
    {
      if pending {
        return QueryBlocked;
      }
      if fails {
        return QueryFailed;
      }
      MinValueIsContents(rows, key);
      r := Got(MinValue(rows, key));
    }

    method SetUint64(key: Key, v: bv64, fault: Fault) returns (r: Outcome)
      requires Valid()
      modifies this`rows, this`nextId, this`pending
      ensures Valid()
      ensures r == End(old(pending), Breaks(fault, 3))
      ensures pending <==> old(pending) || fault.PrepareFails?
      ensures Contents(rows) == if r.Done? then Contents(old(rows))[key := PutUint64(v)] else Contents(old(rows))
    {
      r := Set(key, PutUint64(v), fault);
    }

    /** The number stored under a key, or 0 if there is none. Reading fewer than eight bytes as a number goes
        out of bounds. */
    method GetUint64(key: Key, fails: bool) returns (r: Reply<Number>)
      requires Valid()
      ensures r.QueryBlocked? <==> pending
      ensures r.QueryFailed? <==> !pending && fails
      ensures r.Got? && key !in Contents(rows) ==> r.value == Number(0)
      ensures r.Got? && key in Contents(rows) ==>
                var b := Contents(rows)[key];
                && (r.value.TooShort? <==> 0 < |b| < 8)
                && (|b| == 0 ==> r.value == Number(0))
                && (|b| >= 8 ==> r.value == Number(Uint64(b)))
    {
      var read := Get(key, fails);
      match read {
        case QueryBlocked => r := QueryBlocked;
        case QueryFailed => r := QueryFailed;
        case Got(b) =>
          if b.None? || |b.value| == 0 {
            r := Got(Number(0));
          } else if |b.value| < 8 {
            r := Got(TooShort);
          } else {
            r := Got(Number(Uint64(b.value)));
          }
      }
    }

    method FirstIndex(fails: bool) returns (r: Reply<nat>)
      ensures r.QueryBlocked? <==> pending
      ensures r.QueryFailed? <==> !pending && fails
      ensures r.Got? ==> IsFirst(log, r.value)
      ensures r.Got? ==> if log == map[] then r.value == 0 else r.value in log && forall i :: i in log ==> r.value <= i
    {
      if pending {
        return QueryBlocked;
      }
      if fails {
        return QueryFailed;
      }
      var idx := Least();
      r := Got(idx);
    }

    /** select ifnull(min(log_index), 0) from raft_log */
    method Least() returns (idx: nat)
      ensures IsFirst(log, idx)
    {
      var keys := log.Keys;
      if keys == {} {
        return 0;
      }
      idx :| idx in keys;
      keys := keys - {idx};
      while keys != {}
        invariant keys <= log.Keys && idx in log && idx !in keys
        invariant forall i :: i in log && i !in keys ==> idx <= i
        decreases keys
      {
        var i :| i in keys;
        keys := keys - {i};
        if i < idx {
          idx := i;
        }
      }
    }

    method LastIndex(fails: bool) returns (r: Reply<nat>)
      ensures r.QueryBlocked? <==> pending
      ensures r.QueryFailed? <==> !pending && fails
      ensures r.Got? ==> IsLast(log, r.value)
      ensures r.Got? ==> if log == map[] then r.value == 0 else r.value in log && forall i :: i in log ==> i <= r.value
    {
      if pending {
        return QueryBlocked;
      }
      if fails {
        return QueryFailed;
      }
      var idx := Greatest();
      r := Got(idx);
    }

    /** select ifnull(max(log_index), 0) from raft_log */
    method Greatest() returns (idx: nat)
      ensures IsLast(log, idx)
    {
      var keys := log.Keys;
      idx := 0;
      while keys != {}
        invariant keys <= log.Keys
        invariant forall i :: i in log && i !in keys ==> i <= idx
        invariant idx == 0 || (idx in log && idx !in keys)
        invariant keys == log.Keys || idx in log
        decreases keys
      {
        var i :| i in keys;
        keys := keys - {i};
        if i >= idx {
          idx := i;
        }
      }
    }

    method GetLog(index: nat, fails: bool) returns (r: Reply<Fetched>)
      requires Valid()
      ensures r.QueryBlocked? <==> pending
      ensures r.QueryFailed? <==> !pending && fails
      ensures r.Got? ==> r.value == if index in log then Found(log[index]) else ErrLogNotFound
      ensures r.Got? && r.value.Found? ==> r.value.entry.index == index
    {
      if pending {
        return QueryBlocked;
      }
      if fails {
        return QueryFailed;
      }
      r := Got(if index in log then Found(log[index]) else ErrLogNotFound);
    }

    /** Stores a batch in one transaction: all of it or nothing. */
    method StoreLogs(logs: seq<Entry>, fault: Fault) returns (r: Outcome)
      requires Valid()
      modifies this`log, this`pending
      ensures Valid()
      ensures r == End(old(pending), Breaks(fault, |logs|))
      ensures r.Blocked? <==> old(pending)
      ensures r.Done? <==> !old(pending) && (fault.NoFault? || (fault.FailsAt? && fault.step >= |logs|))
      ensures pending <==> old(pending) || fault.PrepareFails?
      ensures log == if r.Done? then Replace(old(log), logs) else old(log)
    {
      if pending {
        return Blocked;
      }
      if fault.BeginFails? {
        return Failed;
      }
      if fault.PrepareFails? {
        pending := true;
        return Failed;
      }
      var tx := log;
      for i := 0 to |logs|
        invariant tx == Replace(log, logs[..i])
        invariant fault.FailsAt? ==> i <= fault.step
      {
        assert logs[..i + 1][..i] == logs[..i];
        if fault == FailsAt(i) {
          return Failed;
        }
        tx := tx[logs[i].index := logs[i]];
      }
      assert logs[..|logs|] == logs;
      if fault.CommitFails? {
        return Failed;
      }
      ReplaceKeyed(log, logs);
      log := tx;
      r := Done;
    }

    /** Deletes the entries from `min` to `max`, both included. */
    method DeleteRange(min: nat, max: nat, fails: bool) returns (r: Outcome)
      requires Valid()
      modifies this`log
      ensures Valid() && r == End(pending, fails)
      ensures log == if r.Done? then old(log) - Between(old(log), min, max) else old(log)
      ensures r.Done? <==> !pending && !fails
      ensures r.Done? ==> forall i :: (i in log <==> i in old(log) && !(min <= i <= max)) && (i in log ==> log[i] == old(log)[i])
    {
      if pending {
        return Blocked;
      }
      if fails {
        return Failed;
      }
      log := log - Between(log, min, max);
      r := Done;
    }

    /** What others do to the log in the meantime. */
    method Interfere(ops: seq<LogOp>)
      requires Valid()
      modifies this`log
      ensures Valid() && log == RunLogFrom(old(log), ops)
    {
      ghost var start := log;
      RunKeepsKeyed(start, ops);
      for i := 0 to |ops|
        invariant log == RunLogFrom(start, ops[..i])
      {
        assert ops[..i + 1][..i] == ops[..i];
        log := ApplyLogOp(log, ops[i]);
      }
      assert ops[..|ops|] == ops;
    }

    /** Deletes from the first to the last index, reading the one, then the other, then deleting. Undisturbed it
        empties the log; otherwise what others have stored outside these bounds in the meantime stays. */
    method DeleteAll(x: Surroundings) returns (r: Outcome)
      requires Valid()
      modifies this`log
      ensures Valid()
      ensures r == End(pending, x.firstFails || x.lastFails || x.deleteFails)
      ensures r.Done? ==>
                var before := RunLogFrom(old(log), x.beforeLast);
                var left := RunLogFrom(before, x.beforeDelete);
                forall first, last :: IsFirst(old(log), first) && IsLast(before, last) ==> log == left - Between(left, first, last)
      ensures x == UNDISTURBED && r.Done? ==> log == map[]
      ensures !r.Done? ==>
                log == if pending || x.firstFails then old(log)
                       else if x.lastFails then RunLogFrom(old(log), x.beforeLast)
                       else RunLogFrom(RunLogFrom(old(log), x.beforeLast), x.beforeDelete)
    {
      var firstIndex := FirstIndex(x.firstFails);
      if !firstIndex.Got? {
        return if pending then Blocked else Failed;
      }
      Interfere(x.beforeLast);
      var lastIndex := LastIndex(x.lastFails);
      if !lastIndex.Got? {
        return Failed;
      }
      ghost var before := log;
      Interfere(x.beforeDelete);
      r := DeleteRange(firstIndex.value, lastIndex.value, x.deleteFails);
      if x == UNDISTURBED {
        assert before == old(log);
        assert forall i :: i in old(log) ==> firstIndex.value <= i <= lastIndex.value;
      }
      forall first, last | IsFirst(old(log), first) && IsLast(before, last)
        ensures first == firstIndex.value && last == lastIndex.value
      {
      }
    }
  }

  // ---------------------------------------------------------------------------------------------
  // Runs

  datatype SetOp = SetOp(key: Key, val: seq<byte>, committed: bool)

  datatype SetCall = SetCall(key: Key, val: seq<byte>, fault: Fault)

  /** Which calls of a run commit: those that do not break, up to the first that leaves its transaction open. */
  function Committing(calls: seq<SetCall>, pending: bool): seq<SetOp> {
    if calls == [] then []
    else [SetOp(calls[0].key, calls[0].val, End(pending, Breaks(calls[0].fault, 3)).Done?)]
         + Committing(calls[1..], pending || calls[0].fault.PrepareFails?)
  }

  /** After a transaction has been left open no call commits any more. */
  lemma {:induction false} NothingCommitsWhilePending(calls: seq<SetCall>, pending: bool, i: nat)
    requires i < |calls| && (pending || exists j :: 0 <= j < i && calls[j].fault.PrepareFails?)
    ensures |Committing(calls, pending)| == |calls| && !Committing(calls, pending)[i].committed
  {
    CommittingSize(calls, pending);
    if i > 0 {
      if !pending && !calls[0].fault.PrepareFails? {
        var j :| 0 <= j < i && calls[j].fault.PrepareFails?;
        assert calls[1..][j - 1] == calls[j];
      }
      NothingCommitsWhilePending(calls[1..], pending || calls[0].fault.PrepareFails?, i - 1);
    }
  }

  lemma {:induction false} CommittingSize(calls: seq<SetCall>, pending: bool)
    ensures |Committing(calls, pending)| == |calls|
  {
    if calls != [] {
      CommittingSize(calls[1..], pending || calls[0].fault.PrepareFails?);
    }
  }

  /** Each key reads as the last value that was committed to it. */
  ghost predicate ReadsLast(contents: map<Key, seq<byte>>, ops: seq<SetOp>) {
    && (forall key :: key in contents <==> LastCommitted(ops, key).Some?)
    && (forall key :: key in contents ==> LastCommitted(ops, key) == Some(contents[key]))
  }

  lemma ReadsLastStep(contents: map<Key, seq<byte>>, ops: seq<SetOp>, op: SetOp)
    requires ReadsLast(contents, ops)
    ensures ReadsLast(if op.committed then contents[op.key := op.val] else contents, ops + [op])
  {
    forall key
      ensures LastCommitted(ops + [op], key)
              == if op.committed && op.key == key then Some(op.val) else LastCommitted(ops, key)
    {
      assert (ops + [op])[..|ops|] == ops;
    }
  }

  lemma {:induction false} CommittingPrefix(calls: seq<SetCall>, pending: bool, i: nat)
    requires i < |calls|
    ensures Committing(calls[..i + 1], pending)
            == Committing(calls[..i], pending)
               + [SetOp(calls[i].key, calls[i].val, End(Stuck(calls[..i], pending), Breaks(calls[i].fault, 3)).Done?)]
  {
    if i == 0 {
      assert calls[..1][1..] == [] && calls[..0] == [];
    } else {
      assert calls[..i + 1][1..] == calls[1..][..i] && calls[..i][1..] == calls[1..][..i - 1];
      CommittingPrefix(calls[1..], pending || calls[0].fault.PrepareFails?, i - 1);
    }
  }

  /** Whether a transaction is open after these calls. */
  function Stuck(calls: seq<SetCall>, pending: bool): (r: bool)
    ensures r <==> pending || exists c :: c in calls && c.fault.PrepareFails?
  {
    if calls == [] then pending else Stuck(calls[1..], pending || calls[0].fault.PrepareFails?)
  }

  lemma StuckPrefix(calls: seq<SetCall>, pending: bool, i: nat)
    requires i < |calls|
    ensures Stuck(calls[..i + 1], pending) <==> Stuck(calls[..i], pending) || calls[i].fault.PrepareFails?
  {
    assert calls[..i + 1] == calls[..i] + [calls[i]];
  }

  /** Runs a series of sets on a fresh store: each key reads as the last value that was committed to it, and the
      store is stuck exactly when some call has left its transaction open. */
  method RunCalls(calls: seq<SetCall>) returns (store: RelationalStore)
    ensures store.Valid() && ReadsLast(Contents(store.rows), Committing(calls, false))
    ensures store.pending <==> exists c :: c in calls && c.fault.PrepareFails?
  {
    store := new RelationalStore();
    assert calls[..0] == [];
    for i := 0 to |calls|
      invariant fresh(store) && store.Valid() && store.pending == Stuck(calls[..i], false)
      invariant ReadsLast(Contents(store.rows), Committing(calls[..i], false))
    {
      var op := SetOp(calls[i].key, calls[i].val, End(store.pending, Breaks(calls[i].fault, 3)).Done?);
      ReadsLastStep(Contents(store.rows), Committing(calls[..i], false), op);
      CommittingPrefix(calls, false, i);
      StuckPrefix(calls, false, i);
      var _ := store.Set(calls[i].key, calls[i].val, calls[i].fault);
    }
    assert calls[..|calls|] == calls;
  }

  /** The rows after a run of Set and SetUint64, some of them rolled back. */
  function RunSets(rows: seq<Row>, id: nat, ops: seq<SetOp>): seq<Row> {
    if ops == [] then rows
    else
      var before := RunSets(rows, id, ops[..|ops| - 1]);
      var op := ops[|ops| - 1];
      if op.committed then SetRows(before, id + |ops|, op.key, op.val) else before
  }

  /** The value last committed for a key, if any. */
  function LastCommitted(ops: seq<SetOp>, key: Key): Option<seq<byte>> {
    if ops == [] then None
    else if ops[|ops| - 1].committed && ops[|ops| - 1].key == key then Some(ops[|ops| - 1].val)
    else LastCommitted(ops[..|ops| - 1], key)
  }

  /** After any run, each key has at most one row, and the aggregate query returns the last value committed. */
  lemma {:induction false} LastCommittedIsRead(id: nat, ops: seq<SetOp>, key: Key)
    ensures UniqueKeys(RunSets([], id, ops))
    ensures MinValue(RunSets([], id, ops), key) == LastCommitted(ops, key)
  {
    if ops != [] {
      var front, op := ops[..|ops| - 1], ops[|ops| - 1];
      LastCommittedIsRead(id, front, key);
      var before := RunSets([], id, front);
      if op.committed {
        SetRowsContents(before, id + |ops|, op.key, op.val);
        MinValueIsContents(before, key);
        MinValueIsContents(SetRows(before, id + |ops|, op.key, op.val), key);
      }
    }
  }

  /** The stored indices are all those from `first` to `last`. */
  ghost predicate Exactly(log: Log, first: nat, last: nat) {
    forall i :: i in log <==> first <= i <= last
  }

  ghost predicate Contiguous(log: Log) {
    log == map[] || exists first: nat, last: nat :: first <= last && Exactly(log, first, last)
  }

  /** Raft stores batches of consecutive entries. */
  predicate Consecutive(batch: seq<Entry>) {
    forall k :: 0 < k < |batch| ==> batch[k].index == batch[0].index + k
  }

  lemma BatchIndices(batch: seq<Entry>)
    requires batch != [] && Consecutive(batch)
    ensures forall i :: i in Indices(batch) <==> batch[0].index <= i < batch[0].index + |batch|
  {
    forall i: nat | batch[0].index <= i < batch[0].index + |batch|
      ensures i in Indices(batch)
    {
      var e := batch[i - batch[0].index];
      assert e in batch && e.index == i;
    }
  }

  /** The batch overlaps the entries from `first` to `last` or touches them. */
  predicate Joins(batch: seq<Entry>, first: nat, last: nat)
    requires batch != []
  {
    batch[0].index <= last + 1 && first <= batch[0].index + |batch|
  }

  /** A batch leaves no gap if and only if it overlaps or touches what is stored. */
  lemma AppendKeepsContiguous(log: Log, batch: seq<Entry>, first: nat, last: nat)
    requires Keyed(log) && first <= last && Exactly(log, first, last) && batch != [] && Consecutive(batch)
    ensures Contiguous(Replace(log, batch)) <==> Joins(batch, first, last)
  {
    ReplaceKeyed(log, batch);
    BatchIndices(batch);
    var next := Replace(log, batch);
    var start: nat, end: nat := batch[0].index, batch[0].index + |batch| - 1;
    assert first in next && last in next && start in next && end in next;
    if Joins(batch, first, last) {
      var low: nat, high: nat := if first < start then first else start, if last > end then last else end;
      assert Exactly(next, low, high);
    } else {
      var missing: nat := if start > last + 1 then last + 1 else end + 1;
      assert missing !in next;
    }
  }

  /** The deletion takes nothing, a prefix, or a suffix of the entries from `first` to `last`. */
  predicate TakesEnd(min: nat, max: nat, first: nat, last: nat) {
    max < min || min <= first || last <= max
  }

  /** A deletion leaves no gap if and only if it does not cut out the middle. */
  lemma DeleteKeepsContiguous(log: Log, min: nat, max: nat, first: nat, last: nat)
    requires first <= last && Exactly(log, first, last)
    ensures Contiguous(log - Between(log, min, max)) <==> TakesEnd(min, max, first, last)
  {
    var next := log - Between(log, min, max);
    assert first in log && last in log;
    if !TakesEnd(min, max, first, last) {
      assert first in next && last in next && min !in next;
    } else if next != map[] {
      var i :| i in next;
      if max < min {
        assert Exactly(next, first, last);
      } else if min <= first {
        var start: nat := if max < first then first else max + 1;
        assert Exactly(next, start, last) && start <= last;
      } else {
        var end: nat := if min > last then last else min - 1;
        assert Exactly(next, first, end) && first <= end;
      }
    }
  }

  predicate LeavesNoGap(op: LogOp, first: nat, last: nat) {
    match op
    case Append(batch, committed) => committed && batch != [] ==> Joins(batch, first, last)
    case Delete(min, max) => TakesEnd(min, max, first, last)
  }

  /** The operation keeps a log without gaps that way; on an empty one anything does. */
  ghost predicate Fits(log: Log, op: LogOp) {
    log != map[] ==> forall first: nat, last: nat :: IsFirst(log, first) && IsLast(log, last) ==> LeavesNoGap(op, first, last)
  }

  lemma EndsOfExactly(log: Log, first: nat, last: nat)
    requires first <= last && Exactly(log, first, last)
    ensures log != map[]
    ensures forall a: nat :: IsFirst(log, a) <==> a == first
    ensures forall b: nat :: IsLast(log, b) <==> b == last
  {
    assert first in log && last in log;
  }

  lemma StepKeepsContiguous(log: Log, op: LogOp)
    requires Keyed(log) && Contiguous(log) && (op.Append? ==> Consecutive(op.batch))
    ensures Contiguous(ApplyLogOp(log, op)) <==> Fits(log, op)
  {
    if log == map[] {
      match op
      case Append(batch, committed) =>
        if committed && batch != [] {
          ReplaceKeyed(log, batch);
          BatchIndices(batch);
          var end: nat := batch[0].index + |batch| - 1;
          assert Exactly(Replace(log, batch), batch[0].index, end);
        }
      case Delete(min, max) => assert log - Between(log, min, max) == map[];
    } else {
      var first: nat, last: nat :| first <= last && Exactly(log, first, last);
      EndsOfExactly(log, first, last);
      assert IsFirst(log, first) && IsLast(log, last);
      assert Fits(log, op) <==> LeavesNoGap(op, first, last);
      match op
      case Append(batch, committed) =>
        if committed && batch != [] {
          AppendKeepsContiguous(log, batch, first, last);
        }
      case Delete(min, max) => DeleteKeepsContiguous(log, min, max, first, last);
    }
  }

  function RunLog(ops: seq<LogOp>): Log {
    RunLogFrom(map[], ops)
  }

  ghost predicate AllConsecutive(ops: seq<LogOp>) {
    forall n :: 0 <= n < |ops| ==> ops[n].Append? ==> Consecutive(ops[n].batch)
  }

  ghost predicate EachFits(ops: seq<LogOp>) {
    forall n :: 0 <= n < |ops| ==> Fits(RunLog(ops[..n]), ops[n])
  }

  lemma RunNext(ops: seq<LogOp>, n: nat)
    requires n < |ops|
    ensures RunLog(ops[..n + 1]) == ApplyLogOp(RunLog(ops[..n]), ops[n])
  {
    assert ops[..n + 1][..n] == ops[..n];
  }

  lemma {:induction false} FittingPrefixContiguous(ops: seq<LogOp>, n: nat)
    requires AllConsecutive(ops) && EachFits(ops) && n <= |ops|
    ensures Contiguous(RunLog(ops[..n]))
  {
    if n > 0 {
      FittingPrefixContiguous(ops, n - 1);
      RunKeepsKeyed(map[], ops[..n - 1]);
      RunNext(ops, n - 1);
      assert Fits(RunLog(ops[..n - 1]), ops[n - 1]);
      StepKeepsContiguous(RunLog(ops[..n - 1]), ops[n - 1]);
    }
  }

  /** Over any run that stores consecutive batches, the log never has a gap if and only if every batch overlaps or
      touches what is stored at the time and no deletion cuts out the middle. */
  lemma LogStaysContiguous(ops: seq<LogOp>)
    requires AllConsecutive(ops)
    ensures (forall n :: 0 <= n <= |ops| ==> Contiguous(RunLog(ops[..n]))) <==> EachFits(ops)
  {
    if forall n :: 0 <= n <= |ops| ==> Contiguous(RunLog(ops[..n])) {
      forall n | 0 <= n < |ops|
        ensures Fits(RunLog(ops[..n]), ops[n])
      {
        RunKeepsKeyed(map[], ops[..n]);
        assert Contiguous(RunLog(ops[..n])) && Contiguous(RunLog(ops[..n + 1]));
        RunNext(ops, n);
        StepKeepsContiguous(RunLog(ops[..n]), ops[n]);
      }
    }
    if EachFits(ops) {
      forall n | 0 <= n <= |ops|
        ensures Contiguous(RunLog(ops[..n]))
      {
        FittingPrefixContiguous(ops, n);
      }
    }
  }

  /** A log without gaps is one in which exactly the indices from the first to the last are found. */
  lemma FoundBetweenFirstAndLast(log: Log, first: nat, last: nat)
    requires log != map[] && IsFirst(log, first) && IsLast(log, last)
    ensures Contiguous(log) <==> forall index: nat :: index in log <==> first <= index <= last
  {
    if Contiguous(log) {
      var a: nat, b: nat :| a <= b && Exactly(log, a, b);
      EndsOfExactly(log, a, b);
    } else {
      assert first in log && first <= last;
      assert !Exactly(log, first, last);
    }
  }

  // ---------------------------------------------------------------------------------------------
  // A follower that was sent a snapshot

  /** `n` consecutive entries. */
  function Entries(from: nat, n: nat): (batch: seq<Entry>)
    ensures |batch| == n && Consecutive(batch) && forall k :: 0 <= k < n ==> batch[k].index == from + k
  {
    seq(n, k requires 0 <= k < n => Entry(from + k, 1, 0, []))
  }

  /** A follower may keep its old entries when it installs a snapshot, and the next batch starts after the snapshot.
      If that lies beyond the entry after its last one, the indices in between are missing from then on. */
  lemma GapAfterSnapshot(last: nat, next: nat, n: nat)
    requires last + 1 < next && 0 < last && 0 < n
    ensures var log := RunLog([Append(Entries(1, last), true), Append(Entries(next, n), true)]);
            && IsFirst(log, 1) && IsLast(log, next + n - 1) && !Contiguous(log)
            && forall index: nat :: index in log <==> 1 <= index <= last || next <= index < next + n
  {
    var first, second := Append(Entries(1, last), true), Append(Entries(next, n), true);
    var ops := [first, second];
    var before := Replace(map[], Entries(1, last));
    RunNext(ops, 0);
    RunNext(ops, 1);
    assert ops[..0] == [] && ops[..2] == ops;
    assert RunLog(ops[..1]) == before;
    ReplaceKeyed(map[], Entries(1, last));
    BatchIndices(Entries(1, last));
    assert Exactly(before, 1, last);
    ReplaceKeyed(before, Entries(next, n));
    BatchIndices(Entries(next, n));
    AppendKeepsContiguous(before, Entries(next, n), 1, last);
    assert RunLog(ops) == Replace(before, Entries(next, n));
  }
}
