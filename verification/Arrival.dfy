/**
 * When does the verifier accept what the store built?  InsertChained links to the row with the largest key,
 * while the verifier expects each row to link to its predecessor in key order.
 */
module Arrival {
  import opened ByteStrings
  import opened Store
  import opened Encoding
  import opened Chain
  import opened Tables

  predicate AboveHead(t: Table, c: Core) {
    t == [] || KeyLt(KeyOf(t[|t| - 1].core), KeyOf(c))
  }

  predicate ArrivesInOrder(t: Table, s: Step) {
    s.Insert? && !HasId(t, s.e.core.id) ==> AboveHead(t, s.e.core)
  }

  /** Every accepted event of the run had a larger key than the head it found. */
  predicate InOrder(rowHash: RowHash, t: Table, steps: seq<Step>)
    decreases |steps|
  {
    steps == [] || (ArrivesInOrder(t, steps[0]) && InOrder(rowHash, Apply(rowHash, t, steps[0]), steps[1..]))
  }

  ghost predicate Genuine(rowHash: RowHash, t: Table) {
    forall c :: c in Cores(t) ==> SelfConsistent(rowHash, c)
  }

  /** Every prev_hash is the genesis hash or the this_hash of a row. */
  ghost predicate PrevClosed(t: Table) {
    forall c :: c in Cores(t) ==> c.prevHash == ZERO_HASH || HasHash(t, c.prevHash)
  }

  ghost predicate HasHash(t: Table, h: Bytes) {
    exists c :: c in Cores(t) && c.thisHash == h
  }

  /** No two different rows hash alike and none hashes to the genesis value. */
  ghost predicate NoClash(rowHash: RowHash, cs: set<Core>) {
    && (forall c, d :: c in cs && d in cs && HashedOf(c) != HashedOf(d) ==>
          EventHash(rowHash, c) != EventHash(rowHash, d))
    && (forall c :: c in cs ==> EventHash(rowHash, c) != ZERO_HASH)
  }

  /** A row below the head that no row continues. */
  ghost predicate Orphan(t: Table, c: Core) {
    && c in Cores(t)
    && c != t[|t| - 1].core
    && forall d :: d in Cores(t) ==> d.prevHash != c.thisHash
  }

  // ---------------------------------------------------------------- one insertion

  /** The row an accepted event becomes. */
  function NewRow(rowHash: RowHash, t: Table, e: Event): Event {
    Link(t, e, BoundHash(rowHash, e.core))
  }

  lemma NewRowIsGenuine(rowHash: RowHash, t: Table, e: Event)
    ensures SelfConsistent(rowHash, NewRow(rowHash, t, e).core)
    ensures NewRow(rowHash, t, e).core.prevHash == HeadHash(t)
    ensures KeyOf(NewRow(rowHash, t, e).core) == KeyOf(e.core)
  {
    var c := NewRow(rowHash, t, e).core;
    assert HashedOf(c) == HashedOf(e.core.(prevHash := HeadHash(t)));
  }

  lemma InsertAtEnd(t: Table, e: Event)
    requires Sorted(t) && AboveHead(t, e.core)
    ensures InsertSorted(t, e) == t + [e]
  {
    var s := Slot(t, KeyOf(e.core));
    if s < |t| - 1 {
      KeyLtTransitive(KeyOf(t[s].core), KeyOf(t[|t| - 1].core), KeyOf(e.core));
    }
    assert s == |t|;
  }

  lemma LastStaysLast(t: Table, e: Event)
    requires Sorted(t) && t != [] && !AboveHead(t, e.core)
    ensures var r := InsertSorted(t, e); r[|r| - 1] == t[|t| - 1]
  {
  }

  lemma HeadIsARow(t: Table)
    requires t != []
    ensures t[|t| - 1].core in Cores(t)
  {
  }

  lemma AppendIntact(rowHash: RowHash, t: Table, e: Event)
    requires Intact(rowHash, t)
    requires SelfConsistent(rowHash, e.core) && e.core.prevHash == HeadHash(t)
    ensures Intact(rowHash, t + [e])
  {
    var r := t + [e];
    forall i | 0 <= i < |r| ensures SoundAt(rowHash, r, i) {
      if i < |t| {
        assert SoundAt(rowHash, t, i);
      }
    }
  }

  lemma SameCoresIntact(rowHash: RowHash, t: Table, u: Table)
    requires SameCores(t, u) && Intact(rowHash, t)
    ensures Intact(rowHash, u)
  {
    forall i | 0 <= i < |u| ensures SoundAt(rowHash, u, i) {
      assert SoundAt(rowHash, t, i);
    }
  }

  lemma InOrderStepKeepsIntact(rowHash: RowHash, t: Table, s: Step)
    requires WellFormed(t) && Intact(rowHash, t) && ArrivesInOrder(t, s)
    ensures Intact(rowHash, Apply(rowHash, t, s))
  {
    match s
    case Insert(e) =>
      if !HasId(t, e.core.id) {
        NewRowIsGenuine(rowHash, t, e);
        InsertAtEnd(t, NewRow(rowHash, t, e));
        AppendIntact(rowHash, t, NewRow(rowHash, t, e));
      }
    case Hold(id, hold) => SameCoresIntact(rowHash, t, SetHold(t, id, hold));
    case MarkUpTo(k) => SameCoresIntact(rowHash, t, Mark(t, k));
  }

  ghost predicate Built(rowHash: RowHash, t: Table) {
    WellFormed(t) && Genuine(rowHash, t) && PrevClosed(t)
  }

  lemma InsertKeepsPrevClosed(t: Table, e: Event)
    requires PrevClosed(t) && e.core.prevHash == HeadHash(t)
    ensures PrevClosed(InsertSorted(t, e))
  {
    InsertSortedCores(t, e);
    var r := InsertSorted(t, e);
    forall c | c in Cores(r) ensures c.prevHash == ZERO_HASH || HasHash(r, c.prevHash) {
      if c in Cores(t) && c.prevHash != ZERO_HASH {
        var d :| d in Cores(t) && d.thisHash == c.prevHash;
        assert d in Cores(r);
      } else if c == e.core && t != [] {
        HeadIsARow(t);
        assert t[|t| - 1].core in Cores(r);
      }
    }
  }

  lemma StepKeepsBuilt(rowHash: RowHash, t: Table, s: Step)
    requires Built(rowHash, t)
    ensures Built(rowHash, Apply(rowHash, t, s))
  {
    ApplyKeeps(rowHash, t, s);
    match s
    case Insert(e) =>
      if !HasId(t, e.core.id) {
        var row := NewRow(rowHash, t, e);
        NewRowIsGenuine(rowHash, t, e);
        InsertSortedCores(t, row);
        InsertKeepsPrevClosed(t, row);
      }
    case Hold(id, hold) =>
      SameCoresKeep(t, SetHold(t, id, hold));
      SameCoresPrevClosed(t, SetHold(t, id, hold));
    case MarkUpTo(k) =>
      SameCoresKeep(t, Mark(t, k));
      SameCoresPrevClosed(t, Mark(t, k));
  }

  lemma SameCoresPrevClosed(t: Table, u: Table)
    requires Cores(t) == Cores(u) && PrevClosed(t)
    ensures PrevClosed(u)
  {
  }

  // ---------------------------------------------------------------- a late event leaves an orphan for ever

  /** Without clashes, different rows have different this_hash. */
  lemma RowsHashApart(rowHash: RowHash, t: Table, c: Core, d: Core)
    requires WellFormed(t) && Genuine(rowHash, t) && NoClash(rowHash, Cores(t))
    requires c in Cores(t) && d in Cores(t) && c != d
    ensures c.thisHash != d.thisHash
  {
  }

  lemma NotARow(t: Table, c: Core, id: Bytes)
    requires c in Cores(t) && !HasId(t, id)
    ensures c.id != id
  {
  }

  lemma NoClashSubset(rowHash: RowHash, cs: set<Core>, ds: set<Core>)
    requires cs <= ds && NoClash(rowHash, ds)
    ensures NoClash(rowHash, cs)
  {
  }

  lemma OrphanFails(rowHash: RowHash, t: Table, c: Core)
    requires Orphan(t, c)
    ensures !Intact(rowHash, t)
  {
    var i :| 0 <= i < |t| && t[i].core == c;
    assert i < |t| - 1;
    assert t[i + 1].core in Cores(t);
    assert !SoundAt(rowHash, t, i + 1);
  }

  lemma LateEventIsOrphan(rowHash: RowHash, t: Table, e: Event)
    requires Built(rowHash, t) && !HasId(t, e.core.id) && !AboveHead(t, e.core)
    requires NoClash(rowHash, Cores(InsertSorted(t, NewRow(rowHash, t, e))))
    ensures Orphan(InsertSorted(t, NewRow(rowHash, t, e)), NewRow(rowHash, t, e).core)
  {
    var row := NewRow(rowHash, t, e);
    var r := InsertSorted(t, row);
    NewRowIsGenuine(rowHash, t, e);
    InsertSortedWellFormed(t, row);
    LastStaysLast(t, row);
    HeadIsARow(t);
    assert row.core != t[|t| - 1].core;
    forall d | d in Cores(r) ensures d.prevHash != row.core.thisHash {
      PrevIsOld(rowHash, t, row, d);
    }
  }

  /** Every prev_hash in the new table is the genesis hash or was stored before the new row. */
  lemma PrevIsOld(rowHash: RowHash, t: Table, row: Event, d: Core)
    requires Built(rowHash, t) && t != [] && !HasId(t, row.core.id)
    requires SelfConsistent(rowHash, row.core) && row.core.prevHash == HeadHash(t)
    requires NoClash(rowHash, Cores(InsertSorted(t, row)))
    requires d in Cores(InsertSorted(t, row))
    ensures d.prevHash != row.core.thisHash
  {
    var r := InsertSorted(t, row);
    InsertSortedWellFormed(t, row);
    assert row.core in Cores(r);
    assert Genuine(rowHash, r);
    if d.prevHash != ZERO_HASH {
      var h: Core;
      if d in Cores(t) {
        h :| h in Cores(t) && h.thisHash == d.prevHash;
      } else {
        HeadIsARow(t);
        h := t[|t| - 1].core;
      }
      NotARow(t, h, row.core.id);
      RowsHashApart(rowHash, r, h, row.core);
    } else {
      assert EventHash(rowHash, row.core) != ZERO_HASH;
    }
  }

  lemma OrphanStays(rowHash: RowHash, t: Table, s: Step, c: Core)
    requires Built(rowHash, t) && Orphan(t, c)
    requires NoClash(rowHash, Cores(Apply(rowHash, t, s)))
    ensures Orphan(Apply(rowHash, t, s), c)
  {
    match s
    case Insert(e) =>
      if !HasId(t, e.core.id) {
        OrphanStaysOnInsert(rowHash, t, e, c);
      }
    case Hold(id, hold) => SameCoresKeep(t, SetHold(t, id, hold));
    case MarkUpTo(k) => SameCoresKeep(t, Mark(t, k));
  }

  lemma OrphanStaysOnInsert(rowHash: RowHash, t: Table, e: Event, c: Core)
    requires Built(rowHash, t) && Orphan(t, c) && !HasId(t, e.core.id)
    requires NoClash(rowHash, Cores(InsertSorted(t, NewRow(rowHash, t, e))))
    ensures Orphan(InsertSorted(t, NewRow(rowHash, t, e)), c)
  {
    var row := NewRow(rowHash, t, e);
    var r := InsertSorted(t, row);
    NewRowIsGenuine(rowHash, t, e);
    InsertSortedCores(t, row);
    HeadIsARow(t);
    NoClashSubset(rowHash, Cores(t), Cores(r));
    RowsHashApart(rowHash, t, t[|t| - 1].core, c);
    NotARow(t, c, row.core.id);
    if AboveHead(t, row.core) {
      InsertAtEnd(t, row);
    } else {
      LastStaysLast(t, row);
    }
  }

  // ---------------------------------------------------------------- whole runs

  /** In-order arrival is enough, whatever the hash function does. */
  lemma {:induction false} InOrderVerifies(rowHash: RowHash, t: Table, steps: seq<Step>)
    requires WellFormed(t) && Intact(rowHash, t) && InOrder(rowHash, t, steps)
    ensures Intact(rowHash, Run(rowHash, t, steps))
    decreases |steps|
  {
    if steps == [] {
    } else {
      ApplyKeeps(rowHash, t, steps[0]);
      InOrderStepKeepsIntact(rowHash, t, steps[0]);
      InOrderVerifies(rowHash, Apply(rowHash, t, steps[0]), steps[1..]);
    }
  }

  lemma {:induction false} OrphanIsForever(rowHash: RowHash, t: Table, steps: seq<Step>, c: Core)
    requires Built(rowHash, t) && Orphan(t, c)
    requires NoClash(rowHash, Cores(Run(rowHash, t, steps)))
    ensures Orphan(Run(rowHash, t, steps), c)
    decreases |steps|
  {
    if steps == [] {
    } else {
      var u := Apply(rowHash, t, steps[0]);
      StepKeepsBuilt(rowHash, t, steps[0]);
      RunIsAppendOnly(rowHash, u, steps[1..]);
      NoClashSubset(rowHash, Cores(u), Cores(Run(rowHash, t, steps)));
      OrphanStays(rowHash, t, steps[0], c);
      OrphanIsForever(rowHash, u, steps[1..], c);
    }
  }

  lemma {:induction false} LateEventIsSeen(rowHash: RowHash, t: Table, steps: seq<Step>)
    requires Built(rowHash, t) && !InOrder(rowHash, t, steps)
    requires NoClash(rowHash, Cores(Run(rowHash, t, steps)))
    ensures !Intact(rowHash, Run(rowHash, t, steps))
    decreases |steps|
  {
    var u := Apply(rowHash, t, steps[0]);
    StepKeepsBuilt(rowHash, t, steps[0]);
    if ArrivesInOrder(t, steps[0]) {
      LateEventIsSeen(rowHash, u, steps[1..]);
    } else {
      var e := steps[0].e;
      RunIsAppendOnly(rowHash, u, steps[1..]);
      NoClashSubset(rowHash, Cores(u), Cores(Run(rowHash, t, steps)));
      LateEventIsOrphan(rowHash, t, e);
      OrphanIsForever(rowHash, u, steps[1..], NewRow(rowHash, t, e).core);
      OrphanFails(rowHash, Run(rowHash, t, steps), NewRow(rowHash, t, e).core);
    }
  }

  /** The verifier accepts an untampered store exactly when no accepted event arrived late. */
  lemma VerifiesIffInOrder(rowHash: RowHash, steps: seq<Step>)
    requires NoClash(rowHash, Cores(Run(rowHash, [], steps)))
    ensures Intact(rowHash, Run(rowHash, [], steps)) <==> InOrder(rowHash, [], steps)
  {
    assert Built(rowHash, []);
    if InOrder(rowHash, [], steps) {
      InOrderVerifies(rowHash, [], steps);
    } else {
      LateEventIsSeen(rowHash, [], steps);
    }
  }

  lemma {:induction false} RunStaysBuilt(rowHash: RowHash, t: Table, steps: seq<Step>)
    requires Built(rowHash, t)
    ensures Built(rowHash, Run(rowHash, t, steps))
    decreases |steps|
  {
    if steps == [] {
    } else {
      StepKeepsBuilt(rowHash, t, steps[0]);
      RunStaysBuilt(rowHash, Apply(rowHash, t, steps[0]), steps[1..]);
    }
  }

  /** Whatever the arrival order, an untampered store is never reported `Broken`: the worst is a `Gap`. */
  lemma UntamperedNeverBroken(rowHash: RowHash, steps: seq<Step>, i: nat)
    requires FirstFailure(rowHash, Run(rowHash, [], steps), i)
    ensures SelfConsistent(rowHash, Run(rowHash, [], steps)[i].core)
  {
    assert Built(rowHash, []);
    RunStaysBuilt(rowHash, [], steps);
    var t := Run(rowHash, [], steps);
    assert t[i].core in Cores(t);
  }
}
