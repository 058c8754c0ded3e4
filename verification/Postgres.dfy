/** The transaction protocol of the Postgres event store: begin, lock, read the head, insert, commit or roll back. */
module Postgres {
  import opened ByteStrings
  import opened Store
  import opened Encoding
  import opened Tables
  import Paging

  datatype Phase =
    | Open
    | HeadRead(prevHash: Bytes)
    | Executed(row: Option<Event>)  // None: ON CONFLICT (id) DO NOTHING

  /** A call of InsertChained in progress.  Its reads see the committed rows of its snapshot. */
  datatype Tx = Tx(e: Event, snapshot: Option<Table>, phase: Phase)

  /** `log` lists the committed calls in commit order, together with the flag updates between them. */
  datatype Database = Database(rows: Table, holder: Option<nat>, txs: map<nat, Tx>, log: seq<Step>)

  const EMPTY := Database([], None, map[], [])

  datatype Move =
    | Begin(x: nat, e: Event)
    | Acquire(x: nat)
    | TakeSnapshot(x: nat)
    | ReadHead(x: nat)
    | Execute(x: nat)
    | Commit(x: nat)
    | Rollback(x: nat)
    | Flag(s: Step)

  predicate Holds(db: Database, x: nat) {
    db.holder == Some(x) && x in db.txs
  }

  function End(db: Database, x: nat): Database {
    db.(txs := db.txs - {x}, holder := if db.holder == Some(x) then None else db.holder)
  }

  /** Disabled moves do nothing: a blocked statement waits.  The lock is exclusive and ends with its transaction. */
  function Next(rowHash: RowHash, db: Database, m: Move): Database {
    match m
    case Begin(x, e) => if x in db.txs then db else db.(txs := db.txs[x := Tx(e, None, Open)])
    case Acquire(x) => if x in db.txs && db.holder.None? then db.(holder := Some(x)) else db
    case TakeSnapshot(x) =>
      if x in db.txs && db.txs[x].snapshot.None? then
        db.(txs := db.txs[x := db.txs[x].(snapshot := Some(db.rows))])
      else db
    case ReadHead(x) =>
      if Holds(db, x) && db.txs[x].phase.Open? && db.txs[x].snapshot.Some? then
        db.(txs := db.txs[x := db.txs[x].(phase := HeadRead(HeadHash(db.txs[x].snapshot.value)))])
      else db
    case Execute(x) =>
      if Holds(db, x) && db.txs[x].phase.HeadRead? then
        var e, prev := db.txs[x].e, db.txs[x].phase.prevHash;
        var row := e.(core := e.core.(prevHash := prev, thisHash := BoundHash(rowHash, e.core)(prev)));
        db.(txs := db.txs[x := db.txs[x].(phase := Executed(if HasId(db.rows, e.core.id) then None else Some(row)))])
      else db
    case Commit(x) =>
      if Holds(db, x) && db.txs[x].phase.Executed? then
        var row := db.txs[x].phase.row;
        if row.Some? && HasId(db.rows, row.value.core.id) then End(db, x)
        else
          End(db, x).(rows := if row.Some? then InsertSorted(db.rows, row.value) else db.rows,
                      log := db.log + [Insert(db.txs[x].e)])
      else db
    case Rollback(x) => End(db, x)
    case Flag(s) =>
      if s.Insert? then db else db.(rows := Apply(rowHash, db.rows, s), log := db.log + [s])
  }

  function RunMoves(rowHash: RowHash, db: Database, moves: seq<Move>): Database
    decreases |moves|
  {
    if moves == [] then db else RunMoves(rowHash, Next(rowHash, db, moves[0]), moves[1..])
  }

  // ---------------------------------------------------------------- serial order

  /** The head the transaction saw is still the head; rows below it may have been committed since. */
  ghost predicate Current(db: Database, x: nat)
    requires x in db.txs
  {
    db.txs[x].snapshot.Some? && HeadHash(db.txs[x].snapshot.value) == HeadHash(db.rows)
  }

  /** The move makes a new row visible. */
  predicate AddsRow(db: Database, m: Move) {
    && m.Commit? && Holds(db, m.x)
    && db.txs[m.x].phase.Executed? && db.txs[m.x].phase.row.Some?
    && !HasId(db.rows, db.txs[m.x].e.core.id)
  }

  /** An assumption on the database: a transaction whose head read is no longer true does not add a row. */
  ghost predicate CommitsCurrent(rowHash: RowHash, db: Database, moves: seq<Move>)
    decreases |moves|
  {
    moves == []
    || ((AddsRow(db, moves[0]) ==> Current(db, moves[0].x))
        && CommitsCurrent(rowHash, Next(rowHash, db, moves[0]), moves[1..]))
  }

  /** The table is what the committed calls give when they are made one after the other in commit order. */
  ghost predicate Serial(rowHash: RowHash, db: Database) {
    db.rows == Run(rowHash, [], db.log)
  }

  ghost predicate AlwaysSerial(rowHash: RowHash, db: Database, moves: seq<Move>)
    decreases |moves|
  {
    Serial(rowHash, db) && (moves == [] || AlwaysSerial(rowHash, Next(rowHash, db, moves[0]), moves[1..]))
  }

  ghost predicate TxSound(rowHash: RowHash, rows: Table, tx: Tx) {
    && (tx.snapshot.Some? ==> WellFormed(tx.snapshot.value) && Cores(tx.snapshot.value) <= Cores(rows))
    && match tx.phase
       case Open => true
       case HeadRead(prev) => tx.snapshot.Some? && prev == HeadHash(tx.snapshot.value)
       case Executed(row) =>
         && tx.snapshot.Some?
         && (row.None? ==> HasId(rows, tx.e.core.id))
         && (row.Some? ==> row.value == Link(tx.snapshot.value, tx.e, BoundHash(rowHash, tx.e.core)))
  }

  ghost predicate AllSound(rowHash: RowHash, rows: Table, txs: map<nat, Tx>) {
    forall x :: x in txs ==> TxSound(rowHash, rows, txs[x])
  }

  ghost predicate Sound(rowHash: RowHash, db: Database) {
    WellFormed(db.rows) && AllSound(rowHash, db.rows, db.txs)
  }

  lemma HasIdGrows(t: Table, u: Table, id: Bytes)
    requires Cores(t) <= Cores(u) && HasId(t, id)
    ensures HasId(u, id)
  {
    var i :| 0 <= i < |t| && t[i].core.id == id;
    assert t[i].core in Cores(u);
  }

  lemma SoundGrows(rowHash: RowHash, rows: Table, rows': Table, tx: Tx)
    requires TxSound(rowHash, rows, tx) && Cores(rows) <= Cores(rows')
    ensures TxSound(rowHash, rows', tx)
  {
    if tx.phase.Executed? && tx.phase.row.None? {
      HasIdGrows(rows, rows', tx.e.core.id);
    }
  }

  lemma AllSoundGrows(rowHash: RowHash, rows: Table, rows': Table, txs: map<nat, Tx>, txs': map<nat, Tx>)
    requires AllSound(rowHash, rows, txs) && Cores(rows) <= Cores(rows')
    requires forall x :: x in txs' ==> x in txs && txs'[x] == txs[x]
    ensures AllSound(rowHash, rows', txs')
  {
    forall x | x in txs' ensures TxSound(rowHash, rows', txs'[x]) {
      SoundGrows(rowHash, rows, rows', txs[x]);
    }
  }

  /** A new row does to the table what InsertChained does exactly when it was linked to the present head. */
  lemma FreshInsertIsSerialIff(rowHash: RowHash, rows: Table, snapshot: Table, e: Event)
    requires !HasId(rows, e.core.id)
    ensures InsertSorted(rows, Link(snapshot, e, BoundHash(rowHash, e.core))) == Apply(rowHash, rows, Insert(e))
            <==> HeadHash(snapshot) == HeadHash(rows)
  {
  }

  /** Whether or not the calls are serial, the rows stay sorted with unique ids and every read stays true of them. */
  lemma MoveKeepsSound(rowHash: RowHash, db: Database, m: Move)
    requires Sound(rowHash, db)
    ensures Sound(rowHash, Next(rowHash, db, m))
    ensures Cores(db.rows) <= Cores(Next(rowHash, db, m).rows)
  {
    var u := Next(rowHash, db, m);
    if m.Commit? {
      if AddsRow(db, m) {
        assert TxSound(rowHash, db.rows, db.txs[m.x]);
        InsertSortedWellFormed(db.rows, db.txs[m.x].phase.row.value);
      }
      AllSoundGrows(rowHash, db.rows, u.rows, db.txs, u.txs);
    } else if m.Flag? {
      if !m.s.Insert? {
        ApplyKeeps(rowHash, db.rows, m.s);
        AllSoundGrows(rowHash, db.rows, u.rows, db.txs, u.txs);
      }
    } else {
      LocalKeepsSound(rowHash, db, m);
    }
  }

  /** Moves that leave the committed rows alone touch one transaction. */
  lemma LocalKeepsSound(rowHash: RowHash, db: Database, m: Move)
    requires Sound(rowHash, db) && !m.Commit? && !m.Flag?
    ensures Sound(rowHash, Next(rowHash, db, m))
    ensures Next(rowHash, db, m).rows == db.rows && Next(rowHash, db, m).log == db.log
  {
  }

  /** The calls that a move adds to the log. */
  function Logged(db: Database, m: Move): seq<Step> {
    match m
    case Commit(x) =>
      if Holds(db, x) && db.txs[x].phase.Executed?
         && !(db.txs[x].phase.row.Some? && HasId(db.rows, db.txs[x].phase.row.value.core.id))
      then [Insert(db.txs[x].e)] else []
    case Flag(s) => if s.Insert? then [] else [s]
    case _ => []
  }

  lemma MoveLogs(rowHash: RowHash, db: Database, m: Move)
    ensures Next(rowHash, db, m).log == db.log + Logged(db, m)
    ensures Run(rowHash, [], Next(rowHash, db, m).log)
         == if Logged(db, m) == [] then Run(rowHash, [], db.log)
            else Apply(rowHash, Run(rowHash, [], db.log), Logged(db, m)[0])
  {
    if Logged(db, m) == [] {
      assert db.log + [] == db.log;
    } else {
      RunAppend(rowHash, [], db.log, Logged(db, m)[0]);
    }
  }

  lemma OneMove(rowHash: RowHash, db: Database, m: Move)
    requires Sound(rowHash, db) && Serial(rowHash, db)
    ensures Serial(rowHash, Next(rowHash, db, m)) <==> (AddsRow(db, m) ==> Current(db, m.x))
  {
    MoveLogs(rowHash, db, m);
    if m.Commit? && Holds(db, m.x) {
      assert TxSound(rowHash, db.rows, db.txs[m.x]);
      if AddsRow(db, m) {
        FreshInsertIsSerialIff(rowHash, db.rows, db.txs[m.x].snapshot.value, db.txs[m.x].e);
      }
    }
  }

  // ---------------------------------------------------------------- a fork stays

  ghost predicate SameIdOtherRow(t: Table, u: Table, c: Core, d: Core) {
    c in Cores(t) && d in Cores(u) && c.id == d.id && c != d
  }

  /** The table has a row that the sequential calls have with other links. */
  ghost predicate Forked(rowHash: RowHash, db: Database) {
    exists c, d :: SameIdOtherRow(db.rows, Run(rowHash, [], db.log), c, d)
  }

  lemma StaleCommitForks(rowHash: RowHash, db: Database, m: Move)
    requires Sound(rowHash, db) && Serial(rowHash, db) && AddsRow(db, m) && !Current(db, m.x)
    ensures Forked(rowHash, Next(rowHash, db, m))
  {
    var tx, u := db.txs[m.x], Next(rowHash, db, m);
    var hashFn := BoundHash(rowHash, tx.e.core);
    assert TxSound(rowHash, db.rows, tx);
    var row, linked := Link(tx.snapshot.value, tx.e, hashFn), Link(db.rows, tx.e, hashFn);
    InsertSortedCores(db.rows, row);
    InsertSortedCores(db.rows, linked);
    MoveLogs(rowHash, db, m);
    assert SameIdOtherRow(u.rows, Run(rowHash, [], u.log), row.core, linked.core);
  }

  lemma SerialTableWellFormed(rowHash: RowHash, db: Database)
    ensures WellFormed(Run(rowHash, [], db.log))
  {
    RunIsAppendOnly(rowHash, [], db.log);
  }

  lemma ForkStays(rowHash: RowHash, db: Database, m: Move)
    requires Sound(rowHash, db) && Forked(rowHash, db)
    ensures Forked(rowHash, Next(rowHash, db, m))
  {
    var u, before := Next(rowHash, db, m), Run(rowHash, [], db.log);
    var c, d :| SameIdOtherRow(db.rows, before, c, d);
    MoveKeepsSound(rowHash, db, m);
    MoveLogs(rowHash, db, m);
    SerialTableWellFormed(rowHash, db);
    if Logged(db, m) != [] {
      ApplyKeeps(rowHash, before, Logged(db, m)[0]);
    }
    assert SameIdOtherRow(u.rows, Run(rowHash, [], u.log), c, d);
  }

  lemma {:induction false} ForkIsForever(rowHash: RowHash, db: Database, moves: seq<Move>)
    requires Sound(rowHash, db) && Forked(rowHash, db)
    ensures !Serial(rowHash, RunMoves(rowHash, db, moves))
    decreases |moves|
  {
    if moves == [] {
      var c, d :| SameIdOtherRow(db.rows, Run(rowHash, [], db.log), c, d);
    } else {
      MoveKeepsSound(rowHash, db, moves[0]);
      ForkStays(rowHash, db, moves[0]);
      ForkIsForever(rowHash, Next(rowHash, db, moves[0]), moves[1..]);
    }
  }

  /**
   * Any number of concurrent calls: the table is in the end, and was at every moment, the result of calling
   * InsertChained one after the other in commit order, with the flag updates where they fell, exactly when no row
   * was added under a head that was no longer the one its transaction read.
   */
  lemma {:induction false} SerialIffCommitsCurrent(rowHash: RowHash, db: Database, moves: seq<Move>)
    requires Sound(rowHash, db) && Serial(rowHash, db)
    ensures Serial(rowHash, RunMoves(rowHash, db, moves)) <==> CommitsCurrent(rowHash, db, moves)
    ensures AlwaysSerial(rowHash, db, moves) <==> CommitsCurrent(rowHash, db, moves)
    decreases |moves|
  {
    if moves == [] {
    } else {
      var m, u := moves[0], Next(rowHash, db, moves[0]);
      OneMove(rowHash, db, m);
      MoveKeepsSound(rowHash, db, m);
      if Serial(rowHash, u) {
        SerialIffCommitsCurrent(rowHash, u, moves[1..]);
      } else {
        StaleCommitForks(rowHash, db, m);
        ForkIsForever(rowHash, u, moves[1..]);
      }
    }
  }

  // ---------------------------------------------------------------- the lock gives current commits

  /**
   * A transaction that already has its snapshot when it gets the lock (the statement that waits for the lock takes
   * one) finds the head it saw still in place.
   */
  ghost predicate LockFindsHead(db: Database, m: Move) {
    m.Acquire? && m.x in db.txs && db.holder.None? && db.txs[m.x].snapshot.Some? ==> Current(db, m.x)
  }

  ghost predicate LocksFindHeads(rowHash: RowHash, db: Database, moves: seq<Move>)
    decreases |moves|
  {
    moves == []
    || (LockFindsHead(db, moves[0]) && LocksFindHeads(rowHash, Next(rowHash, db, moves[0]), moves[1..]))
  }

  /** What the lock holder saw is still the head; the others may have looked at any time. */
  ghost predicate Exclusive(db: Database) {
    forall x :: x in db.txs && db.holder == Some(x) && db.txs[x].snapshot.Some? ==> Current(db, x)
  }

  lemma MoveKeepsExclusive(rowHash: RowHash, db: Database, m: Move)
    requires Sound(rowHash, db) && Exclusive(db) && LockFindsHead(db, m)
    ensures Exclusive(Next(rowHash, db, m))
    ensures AddsRow(db, m) ==> Current(db, m.x)
  {
    if m.Flag? && !m.s.Insert? {
      match m.s
      case Hold(id, hold) => SameCoresKeep(db.rows, SetHold(db.rows, id, hold));
      case MarkUpTo(k) => SameCoresKeep(db.rows, Mark(db.rows, k));
    } else if AddsRow(db, m) {
      assert TxSound(rowHash, db.rows, db.txs[m.x]);
    }
  }

  lemma {:induction false} LockMakesCommitsCurrent(rowHash: RowHash, db: Database, moves: seq<Move>)
    requires Sound(rowHash, db) && Serial(rowHash, db) && Exclusive(db) && LocksFindHeads(rowHash, db, moves)
    ensures CommitsCurrent(rowHash, db, moves)
    decreases |moves|
  {
    if moves == [] {
    } else {
      OneMove(rowHash, db, moves[0]);
      MoveKeepsSound(rowHash, db, moves[0]);
      MoveKeepsExclusive(rowHash, db, moves[0]);
      LockMakesCommitsCurrent(rowHash, Next(rowHash, db, moves[0]), moves[1..]);
    }
  }

  /** With the exclusive lock, concurrent calls are sequential calls as long as each lock finds its head in place. */
  lemma LockedCallsAreSerial(rowHash: RowHash, moves: seq<Move>)
    requires LocksFindHeads(rowHash, EMPTY, moves)
    ensures AlwaysSerial(rowHash, EMPTY, moves)
  {
    LockMakesCommitsCurrent(rowHash, EMPTY, moves);
    SerialIffCommitsCurrent(rowHash, EMPTY, moves);
  }

  // ---------------------------------------------------------------- snapshots taken under the lock

  predicate SnapshotUnderLock(db: Database, m: Move) {
    m.TakeSnapshot? ==> db.holder == Some(m.x)
  }

  /** The head read of every transaction sees the rows committed before it got the lock. */
  predicate SnapshotsUnderLock(rowHash: RowHash, db: Database, moves: seq<Move>)
    decreases |moves|
  {
    moves == []
    || (SnapshotUnderLock(db, moves[0]) && SnapshotsUnderLock(rowHash, Next(rowHash, db, moves[0]), moves[1..]))
  }

  ghost predicate OnlyHolderLooked(db: Database) {
    forall x :: x in db.txs && db.txs[x].snapshot.Some? ==> db.holder == Some(x)
  }

  /** Then no transaction has a snapshot when it gets the lock. */
  lemma {:induction false} SnapshotsUnderLockFindHeads(rowHash: RowHash, db: Database, moves: seq<Move>)
    requires OnlyHolderLooked(db) && SnapshotsUnderLock(rowHash, db, moves)
    ensures LocksFindHeads(rowHash, db, moves)
    decreases |moves|
  {
    if moves == [] {
    } else {
      SnapshotsUnderLockFindHeads(rowHash, Next(rowHash, db, moves[0]), moves[1..]);
    }
  }

  // ---------------------------------------------------------------- the lock alone is not enough

  /** Lock, head read, insert and commit of a transaction that already has its snapshot. */
  lemma FourMoves(rowHash: RowHash, db: Database, x: nat, e: Event, snapshot: Table, rest: seq<Move>)
    requires db.holder.None? && x in db.txs && db.txs[x] == Tx(e, Some(snapshot), Open)
    requires !HasId(db.rows, e.core.id)
    ensures var row := Link(snapshot, e, BoundHash(rowHash, e.core));
            RunMoves(rowHash, db, [Acquire(x), ReadHead(x), Execute(x), Commit(x)] + rest)
            == RunMoves(rowHash, Database(InsertSorted(db.rows, row), None, db.txs - {x}, db.log + [Insert(e)]), rest)
  {
    var row := Link(snapshot, e, BoundHash(rowHash, e.core));
    var d1 := db.(holder := Some(x));
    var d2 := d1.(txs := db.txs[x := Tx(e, Some(snapshot), HeadRead(HeadHash(snapshot)))]);
    var d3 := d1.(txs := db.txs[x := Tx(e, Some(snapshot), Executed(Some(row)))]);
    assert Next(rowHash, db, Acquire(x)) == d1;
    assert Next(rowHash, d1, ReadHead(x)) == d2;
    assert Next(rowHash, d2, Execute(x)) == d3;
    assert d3.txs - {x} == db.txs - {x};
    assert Next(rowHash, d3, Commit(x))
        == Database(InsertSorted(db.rows, row), None, db.txs - {x}, db.log + [Insert(e)]);
    RunCons(rowHash, db, Acquire(x), [ReadHead(x), Execute(x), Commit(x)] + rest);
    RunCons(rowHash, d1, ReadHead(x), [Execute(x), Commit(x)] + rest);
    RunCons(rowHash, d2, Execute(x), [Commit(x)] + rest);
    RunCons(rowHash, d3, Commit(x), rest);
    assert [Acquire(x), ReadHead(x), Execute(x), Commit(x)] + rest
        == [Acquire(x)] + ([ReadHead(x), Execute(x), Commit(x)] + rest);
    assert [ReadHead(x), Execute(x), Commit(x)] + rest == [ReadHead(x)] + ([Execute(x), Commit(x)] + rest);
    assert [Execute(x), Commit(x)] + rest == [Execute(x)] + ([Commit(x)] + rest);
  }

  lemma RunCons(rowHash: RowHash, db: Database, m: Move, rest: seq<Move>)
    ensures RunMoves(rowHash, db, [m] + rest) == RunMoves(rowHash, Next(rowHash, db, m), rest)
  {
  }

  function CallMoves(x: nat): seq<Move> {
    [Acquire(x), ReadHead(x), Execute(x), Commit(x)]
  }

  /** Two calls that both looked before either got the lock. */
  function StaleRun(a: Event, b: Event): seq<Move> {
    [Begin(1, a), Begin(2, b), TakeSnapshot(1), TakeSnapshot(2)] + (CallMoves(1) + (CallMoves(2) + []))
  }

  lemma FirstCall(rowHash: RowHash, a: Event, b: Event, rest: seq<Move>)
    ensures var db := Database([], None, map[1 := Tx(a, Some([]), Open), 2 := Tx(b, Some([]), Open)], []);
            RunMoves(rowHash, db, CallMoves(1) + rest)
            == RunMoves(rowHash, Database([Link([], a, BoundHash(rowHash, a.core))], None,
                                          map[2 := Tx(b, Some([]), Open)], [Insert(a)]), rest)
  {
    var db := Database([], None, map[1 := Tx(a, Some([]), Open), 2 := Tx(b, Some([]), Open)], []);
    var row := Link([], a, BoundHash(rowHash, a.core));
    FourMoves(rowHash, db, 1, a, [], rest);
    assert InsertSorted([], row) == [row];
    assert db.txs - {1} == map[2 := Tx(b, Some([]), Open)];
    assert db.log + [Insert(a)] == [Insert(a)];
  }

  lemma SecondCall(rowHash: RowHash, rowA: Event, b: Event, log: seq<Step>)
    requires KeyLt(KeyOf(rowA.core), KeyOf(b.core)) && rowA.core.id != b.core.id
    ensures var db := Database([rowA], None, map[2 := Tx(b, Some([]), Open)], log);
            RunMoves(rowHash, db, CallMoves(2) + []).rows == [rowA, Link([], b, BoundHash(rowHash, b.core))]
  {
    var db := Database([rowA], None, map[2 := Tx(b, Some([]), Open)], log);
    var row := Link([], b, BoundHash(rowHash, b.core));
    FourMoves(rowHash, db, 2, b, [], []);
    assert Slot([rowA], KeyOf(row.core)) == 1;
    assert InsertSorted([rowA], row) == [rowA, row];
  }

  /**
   * If a transaction's snapshot may be older than its lock (it was taken by the statement that waited for the lock)
   * and nothing else rejects it, two in-order calls fork the chain: both rows claim the genesis hash.
   */
  lemma StaleSnapshotForks(rowHash: RowHash, a: Event, b: Event)
    requires KeyLt(KeyOf(a.core), KeyOf(b.core)) && a.core.id != b.core.id
    ensures var rows := RunMoves(rowHash, EMPTY, StaleRun(a, b)).rows;
            && |rows| == 2
            && rows[0].core.id == a.core.id && rows[1].core.id == b.core.id
            && rows[0].core.prevHash == ZERO_HASH && rows[1].core.prevHash == ZERO_HASH
  {
    TwoSnapshots(rowHash, a, b, CallMoves(1) + (CallMoves(2) + []));
    FirstCall(rowHash, a, b, CallMoves(2) + []);
    SecondCall(rowHash, Link([], a, BoundHash(rowHash, a.core)), b, [Insert(a)]);
  }

  lemma TwoSnapshots(rowHash: RowHash, a: Event, b: Event, rest: seq<Move>)
    ensures RunMoves(rowHash, EMPTY, [Begin(1, a), Begin(2, b), TakeSnapshot(1), TakeSnapshot(2)] + rest)
         == RunMoves(rowHash, Database([], None, map[1 := Tx(a, Some([]), Open), 2 := Tx(b, Some([]), Open)], []), rest)
  {
    var d1 := EMPTY.(txs := map[1 := Tx(a, None, Open)]);
    var d2 := EMPTY.(txs := map[1 := Tx(a, None, Open), 2 := Tx(b, None, Open)]);
    var d3 := EMPTY.(txs := map[1 := Tx(a, Some([]), Open), 2 := Tx(b, None, Open)]);
    var d4 := EMPTY.(txs := map[1 := Tx(a, Some([]), Open), 2 := Tx(b, Some([]), Open)]);
    assert Next(rowHash, EMPTY, Begin(1, a)) == d1;
    assert Next(rowHash, d1, Begin(2, b)) == d2;
    assert Next(rowHash, d2, TakeSnapshot(1)) == d3;
    assert Next(rowHash, d3, TakeSnapshot(2)) == d4;
    RunCons(rowHash, EMPTY, Begin(1, a), [Begin(2, b), TakeSnapshot(1), TakeSnapshot(2)] + rest);
    RunCons(rowHash, d1, Begin(2, b), [TakeSnapshot(1), TakeSnapshot(2)] + rest);
    RunCons(rowHash, d2, TakeSnapshot(1), [TakeSnapshot(2)] + rest);
    RunCons(rowHash, d3, TakeSnapshot(2), rest);
    assert [Begin(1, a), Begin(2, b), TakeSnapshot(1), TakeSnapshot(2)] + rest
        == [Begin(1, a)] + ([Begin(2, b), TakeSnapshot(1), TakeSnapshot(2)] + rest);
    assert [Begin(2, b), TakeSnapshot(1), TakeSnapshot(2)] + rest
        == [Begin(2, b)] + ([TakeSnapshot(1), TakeSnapshot(2)] + rest);
    assert [TakeSnapshot(1), TakeSnapshot(2)] + rest == [TakeSnapshot(1)] + ([TakeSnapshot(2)] + rest);
  }

  // ---------------------------------------------------------------- one call alone

  lemma RunThree(rowHash: RowHash, db: Database, a: Move, b: Move, c: Move, rest: seq<Move>)
    ensures RunMoves(rowHash, db, [a, b, c] + rest)
         == RunMoves(rowHash, Next(rowHash, Next(rowHash, Next(rowHash, db, a), b), c), rest)
  {
    RunCons(rowHash, db, a, [b, c] + rest);
    RunCons(rowHash, Next(rowHash, db, a), b, [c] + rest);
    RunCons(rowHash, Next(rowHash, Next(rowHash, db, a), b), c, rest);
    assert [a, b, c] + rest == [a] + ([b, c] + rest) && [b, c] + rest == [b] + ([c] + rest);
  }

  /** Begin, lock, look, insert and commit, undisturbed: InsertChained, for a known id too, and nothing left behind. */
  lemma CallAlone(rowHash: RowHash, db: Database, x: nat, e: Event)
    requires db.holder.None? && x !in db.txs
    ensures RunMoves(rowHash, db, [Begin(x, e), Acquire(x), TakeSnapshot(x)] + [ReadHead(x), Execute(x), Commit(x)])
         == Database(InsertLinked(db.rows, e, BoundHash(rowHash, e.core)), None, db.txs, db.log + [Insert(e)])
  {
    var rest := [ReadHead(x), Execute(x), Commit(x)];
    var looked := Database(db.rows, Some(x), db.txs[x := Tx(e, Some(db.rows), Open)], db.log);
    RunThree(rowHash, db, Begin(x, e), Acquire(x), TakeSnapshot(x), rest);
    assert Next(rowHash, Next(rowHash, Next(rowHash, db, Begin(x, e)), Acquire(x)), TakeSnapshot(x)) == looked;
    RunThree(rowHash, looked, ReadHead(x), Execute(x), Commit(x), []);
    assert rest + [] == rest;
    InsertAndCommit(rowHash, db, x, e);
  }

  lemma InsertAndCommit(rowHash: RowHash, db: Database, x: nat, e: Event)
    requires db.holder.None? && x !in db.txs
    ensures var looked := Database(db.rows, Some(x), db.txs[x := Tx(e, Some(db.rows), Open)], db.log);
            Next(rowHash, Next(rowHash, Next(rowHash, looked, ReadHead(x)), Execute(x)), Commit(x))
            == Database(InsertLinked(db.rows, e, BoundHash(rowHash, e.core)), None, db.txs, db.log + [Insert(e)])
  {
    var row := Link(db.rows, e, BoundHash(rowHash, e.core));
    var answer := if HasId(db.rows, e.core.id) then None else Some(row);
    var read := Database(db.rows, Some(x), db.txs[x := Tx(e, Some(db.rows), HeadRead(HeadHash(db.rows)))], db.log);
    var done := Database(db.rows, Some(x), db.txs[x := Tx(e, Some(db.rows), Executed(answer))], db.log);
    assert Next(rowHash, Database(db.rows, Some(x), db.txs[x := Tx(e, Some(db.rows), Open)], db.log), ReadHead(x))
        == read;
    assert Next(rowHash, read, Execute(x)) == done;
    assert done.txs - {x} == db.txs;
  }

  /** A rolled-back call leaves the rows alone and lets the lock go. */
  lemma RollbackLeaves(rowHash: RowHash, db: Database, x: nat)
    ensures var u := Next(rowHash, db, Rollback(x));
            && u.rows == db.rows && u.log == db.log && u.txs == db.txs - {x}
            && u.holder == if db.holder == Some(x) then None else db.holder
  {
  }

  // ---------------------------------------------------------------- listing

  /** `answer` is what the query returns: the selected rows in order, one more than the page holds. */
  method List(t: Table, f: Filter, answer: seq<Event>) returns (res: ListResult)
    requires answer == Paging.Take(Paging.Select(t, f), Paging.Clamp(f.limit) + 1)
    ensures res == Paging.Page(Paging.LimitPlusOne, t, f)
  {
    var limit := f.limit;
    if limit <= 0 || limit > 1000 {
      limit := 1000;
    }
    var out: seq<Event> := [];
    var i := 0;
    while i < |answer|
      invariant 0 <= i <= |answer| && out == answer[..i]
    {
      out := out + [answer[i]];
      i := i + 1;
    }
    assert out == answer;
    res := ListResult(out, NO_CURSOR);
    if |out| > limit {
      var last := out[limit - 1];
      res := ListResult(out[..limit], KeyOf(last.core));
    }
  }
}
