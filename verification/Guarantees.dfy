/** What the components promise together: ingest, the chain, its verifier and the sweep's paged read. */
module Guarantees {
  import opened Store
  import opened Encoding
  import opened Chain
  import opened Tables
  import opened Paging
  import opened Arrival
  import opened Tampering
  import opened Anchoring

  /** No two of the finitely many encodings in the store collide, and none hashes to the genesis value. */
  ghost predicate CollisionFree(sha: Sha, cs: set<Core>) {
    && (forall c :: c in cs ==> TextsFit(HashedOf(c)) && EventHash(CanonicalHash(sha), c) != ZERO_HASH)
    && (forall c, d :: c in cs && d in cs ==> !Collide(sha, Canonical(HashedOf(c)), Canonical(HashedOf(d))))
  }

  /** Rows differ in their ids, so their encodings differ whatever their instants are. */
  lemma RowsEncodeApart(t: Table, c: Core, d: Core)
    requires UniqueIds(t) && c in Cores(t) && d in Cores(t) && c != d
    requires TextsFit(HashedOf(c)) && TextsFit(HashedOf(d))
    ensures Canonical(HashedOf(c)) != Canonical(HashedOf(d))
  {
    CanonicalEqualIff(HashedOf(c), HashedOf(d));
  }

  lemma CollisionFreeMeansNoClash(sha: Sha, t: Table)
    requires UniqueIds(t) && CollisionFree(sha, Cores(t))
    ensures NoClash(CanonicalHash(sha), Cores(t))
  {
    forall c, d | c in Cores(t) && d in Cores(t) && HashedOf(c) != HashedOf(d)
      ensures EventHash(CanonicalHash(sha), c) != EventHash(CanonicalHash(sha), d)
    {
      RowsEncodeApart(t, c, d);
      assert !Collide(sha, Canonical(HashedOf(c)), Canonical(HashedOf(d)));
    }
  }

  /** The sweep's filter without a window lets every row through. */
  lemma {:induction false} OpenWindowSelectsAll(t: Table, n: nat)
    requires n <= |t|
    ensures SelectTo(t, Window(ZERO_TIME, ZERO_TIME, NO_CURSOR), n) == t[..n]
  {
    if n == 0 {
    } else {
      OpenWindowSelectsAll(t, n - 1);
    }
  }

  ghost predicate IntactUnlessLate(rowHash: RowHash, t: Table, steps: seq<Step>) {
    var es := Select(t, Window(ZERO_TIME, ZERO_TIME, NO_CURSOR));
    && (Intact(rowHash, es) <==> InOrder(rowHash, [], steps))
    && (forall i: nat :: FirstFailure(rowHash, es, i) ==> SelfConsistent(rowHash, es[i].core))
  }

  /**
   * A full sweep over an untampered store finds an intact chain exactly when no accepted event arrived below the
   * head it found; otherwise its first failure is a gap, never a broken hash.  What ingest stores is such a run
   * (IngestRuns.IngestIsARun).
   */
  lemma SweepAcceptsIffInOrder(sha: Sha, t: Table, steps: seq<Step>)
    requires t == Run(CanonicalHash(sha), [], steps) && CollisionFree(sha, Cores(t))
    ensures IntactUnlessLate(CanonicalHash(sha), t, steps)
  {
    var rowHash := CanonicalHash(sha);
    OpenWindowSelectsAll(t, |t|);
    assert t[..|t|] == t;
    RunIsAppendOnly(rowHash, [], steps);
    CollisionFreeMeansNoClash(sha, t);
    VerifiesIffInOrder(rowHash, steps);
    forall i: nat | FirstFailure(rowHash, t, i) ensures SelfConsistent(rowHash, t[i].core) {
      UntamperedNeverBroken(rowHash, steps, i);
    }
  }

  // ---------------------------------------------------------------- stores with late events

  /** The step stores an event above the head it finds. */
  predicate AddsOnTime(t: Table, s: Step) {
    s.Insert? && !HasId(t, s.e.core.id) && AboveHead(t, s.e.core)
  }

  /** The rows that were on time, in the order of arrival, after those of `r`. */
  function OnTime(rowHash: RowHash, t: Table, r: seq<Event>, steps: seq<Step>): seq<Event>
    decreases |steps|
  {
    if steps == [] then r
    else
      var s := steps[0];
      OnTime(rowHash, Apply(rowHash, t, s), if AddsOnTime(t, s) then r + [NewRow(rowHash, t, s.e)] else r, steps[1..])
  }

  /** `r` is a chain from genesis to the head of the table. */
  ghost predicate SpineOf(rowHash: RowHash, t: Table, r: seq<Event>) {
    && WellFormed(t) && Intact(rowHash, r)
    && HeadHash(t) == HeadHash(r) && (t == [] <==> r == []) && Cores(r) <= Cores(t)
    && (r != [] ==> r[0].core.prevHash == ZERO_HASH)
  }

  lemma FreshRowExtendsSpine(rowHash: RowHash, t: Table, r: seq<Event>, e: Event)
    requires SpineOf(rowHash, t, r) && !HasId(t, e.core.id) && AboveHead(t, e.core)
    ensures SpineOf(rowHash, Apply(rowHash, t, Insert(e)), r + [NewRow(rowHash, t, e)])
  {
    ApplyKeeps(rowHash, t, Insert(e));
    NewRowIsGenuine(rowHash, t, e);
    InsertAtEnd(t, NewRow(rowHash, t, e));
    AppendIntact(rowHash, r, NewRow(rowHash, t, e));
    InsertSortedCores(t, NewRow(rowHash, t, e));
  }

  lemma OtherStepKeepsSpine(rowHash: RowHash, t: Table, r: seq<Event>, s: Step)
    requires SpineOf(rowHash, t, r) && !AddsOnTime(t, s)
    ensures SpineOf(rowHash, Apply(rowHash, t, s), r)
  {
    ApplyKeeps(rowHash, t, s);
    match s
    case Insert(e) =>
      if !HasId(t, e.core.id) {
        LastStaysLast(t, NewRow(rowHash, t, e));
      }
    case Hold(id, hold) => SameCoresKeep(t, SetHold(t, id, hold));
    case MarkUpTo(k) => SameCoresKeep(t, Mark(t, k));
  }

  /** Whatever arrives late, the rows that were on time form a chain from genesis to the head. */
  lemma {:induction false} OnTimeIsSpine(rowHash: RowHash, t: Table, r: seq<Event>, steps: seq<Step>)
    requires SpineOf(rowHash, t, r)
    ensures SpineOf(rowHash, Run(rowHash, t, steps), OnTime(rowHash, t, r, steps))
    decreases |steps|
  {
    if steps == [] {
    } else {
      var s := steps[0];
      if AddsOnTime(t, s) {
        FreshRowExtendsSpine(rowHash, t, r, s.e);
        OnTimeIsSpine(rowHash, Apply(rowHash, t, s), r + [NewRow(rowHash, t, s.e)], steps[1..]);
      } else {
        OtherStepKeepsSpine(rowHash, t, r, s);
        OnTimeIsSpine(rowHash, Apply(rowHash, t, s), r, steps[1..]);
      }
    }
  }

  /** For a chain from genesis nothing can be added at the old end. */
  lemma SpinePassesIff(rowHash: RowHash, r: seq<Event>, fs: seq<Event>)
    requires fs != [] && Intact(rowHash, r) && (r != [] ==> r[0].core.prevHash == ZERO_HASH)
    requires !Clash(rowHash, r, fs) && NoZeroHash(fs)
    ensures PassesFor(rowHash, r, fs) <==> |fs| <= |r| && AgreesWithSuffix(fs, r)
  {
    if r != [] {
      ReplacementPassesIff(rowHash, r, fs);
      if |r| < |fs| && PassesFor(rowHash, r, fs) {
        TailIsNotGenesis(rowHash, r, fs);
      }
    }
  }

  /**
   * What the verifier accepts in the place of a store, late events or not: exactly the tails of the chain of the rows
   * that were on time.  Deleting every late row turns a gap into a chain that verifies.
   */
  lemma PassesIffOnTimeTail(rowHash: RowHash, t: Table, steps: seq<Step>, fs: seq<Event>)
    requires t == Run(rowHash, [], steps) && fs != []
    requires !Clash(rowHash, OnTime(rowHash, [], [], steps), fs) && NoZeroHash(fs)
    ensures var r := OnTime(rowHash, [], [], steps);
            && (PassesFor(rowHash, t, fs) <==> |fs| <= |r| && AgreesWithSuffix(fs, r))
            && PassesFor(rowHash, t, r)
  {
    OnTimeIsSpine(rowHash, [], [], steps);
    SpinePassesIff(rowHash, OnTime(rowHash, [], [], steps), fs);
  }

  lemma StoredRowsDoNotClash(rowHash: RowHash, es: seq<Event>, fs: seq<Event>, cs: set<Core>)
    requires NoClash(rowHash, cs) && Cores(es) <= cs && Cores(fs) <= cs
    ensures !Clash(rowHash, es, fs)
  {
  }

  lemma StoredRowsHashNonZero(sha: Sha, t: Table, fs: seq<Event>)
    requires Genuine(CanonicalHash(sha), t) && CollisionFree(sha, Cores(t)) && Cores(fs) <= Cores(t)
    ensures NoZeroHash(fs)
  {
    forall i | 0 <= i < |fs| ensures fs[i].core.thisHash != ZERO_HASH {
      assert fs[i].core in Cores(fs);
    }
  }

  lemma PickedRowsAreStored(t: Table, ps: seq<nat>)
    requires Positions(ps, |t|)
    ensures Cores(Picked(t, ps)) <= Cores(t)
  {
  }

  /**
   * Rows deleted from an untampered store, or rearranged, are missed by the verifier exactly when those that remain
   * are the newest of the rows that were on time.  In a store that was filled in order those are the newest rows.
   */
  lemma DeletionPassesIff(sha: Sha, t: Table, steps: seq<Step>, ps: seq<nat>)
    requires t == Run(CanonicalHash(sha), [], steps) && CollisionFree(sha, Cores(t))
    requires Positions(ps, |t|) && ps != []
    ensures var r, fs := OnTime(CanonicalHash(sha), [], [], steps), Picked(t, ps);
            PassesFor(CanonicalHash(sha), t, fs) <==> |fs| <= |r| && AgreesWithSuffix(fs, r)
    ensures InOrder(CanonicalHash(sha), [], steps) && |ps| <= |t| ==>
              (PassesFor(CanonicalHash(sha), t, Picked(t, ps)) <==> AreLast(ps, |t|))
  {
    var rowHash, r, fs := CanonicalHash(sha), OnTime(CanonicalHash(sha), [], [], steps), Picked(t, ps);
    OnTimeIsSpine(rowHash, [], [], steps);
    assert Built(rowHash, []);
    RunStaysBuilt(rowHash, [], steps);
    CollisionFreeMeansNoClash(sha, t);
    PickedRowsAreStored(t, ps);
    StoredRowsDoNotClash(rowHash, r, fs, Cores(t));
    StoredRowsHashNonZero(sha, t, fs);
    PassesIffOnTimeTail(rowHash, t, steps, fs);
    if InOrder(rowHash, [], steps) && |ps| <= |t| {
      StoredRowsDoNotClash(rowHash, t, t, Cores(t));
      InOrderVerifies(rowHash, [], steps);
      RemovalPassesIff(rowHash, t, ps);
    }
  }

  // ---------------------------------------------------------------- sweeps while rows arrive

  lemma {:induction false} InOrderRunBegins(rowHash: RowHash, t: Table, steps: seq<Step>)
    requires WellFormed(t) && InOrder(rowHash, t, steps)
    ensures BeginsWith(Run(rowHash, t, steps), t)
    decreases |steps|
  {
    if steps == [] {
    } else {
      var s := steps[0];
      ApplyKeeps(rowHash, t, s);
      InOrderRunBegins(rowHash, Apply(rowHash, t, s), steps[1..]);
      if s.Insert? && !HasId(t, s.e.core.id) {
        InsertAtEnd(t, NewRow(rowHash, t, s.e));
      }
    }
  }

  /** `tables` are the store at successive page reads, from `t` on, and nothing arrives late before or between them. */
  ghost predicate FedInOrder(rowHash: RowHash, t: Table, tables: seq<Table>, steps: seq<seq<Step>>)
    decreases |tables|
  {
    && |steps| == |tables|
    && (tables != [] ==>
          tables[0] == Run(rowHash, t, steps[0]) && InOrder(rowHash, t, steps[0])
          && FedInOrder(rowHash, tables[0], tables[1..], steps[1..]))
  }

  /** Each table is intact, and those after it begin with its rows. */
  ghost predicate GrowsInOrder(rowHash: RowHash, tables: seq<Table>) {
    && (forall i :: 0 <= i < |tables| ==> WellFormed(tables[i]) && Intact(rowHash, tables[i]))
    && (forall i, j :: 0 <= i <= j < |tables| ==> BeginsWith(tables[j], tables[i]))
  }

  lemma GrowsInOrderCons(rowHash: RowHash, t: Table, tables: seq<Table>)
    requires WellFormed(t) && Intact(rowHash, t) && GrowsInOrder(rowHash, tables)
    requires tables != [] ==> BeginsWith(tables[0], t)
    ensures GrowsInOrder(rowHash, [t] + tables)
  {
  }

  lemma {:induction false} FedGrowsInOrder(rowHash: RowHash, t: Table, tables: seq<Table>, steps: seq<seq<Step>>)
    requires WellFormed(t) && Intact(rowHash, t) && FedInOrder(rowHash, t, tables, steps)
    ensures GrowsInOrder(rowHash, [t] + tables)
    decreases |tables|
  {
    if tables == [] {
    } else {
      RunIsAppendOnly(rowHash, t, steps[0]);
      InOrderVerifies(rowHash, t, steps[0]);
      InOrderRunBegins(rowHash, t, steps[0]);
      FedGrowsInOrder(rowHash, tables[0], tables[1..], steps[1..]);
      assert [tables[0]] + tables[1..] == tables;
      GrowsInOrderCons(rowHash, t, tables);
    }
  }

  lemma GrowsInOrderTail(rowHash: RowHash, t: Table, tables: seq<Table>)
    requires GrowsInOrder(rowHash, [t] + tables)
    ensures GrowsInOrder(rowHash, tables)
  {
    var all := [t] + tables;
    assert forall i :: 0 <= i < |tables| ==> tables[i] == all[i + 1];
  }

  lemma PrefixIsIntact(rowHash: RowHash, u: Table, t: Table)
    requires Intact(rowHash, u) && BeginsWith(u, t)
    ensures Intact(rowHash, t)
  {
    forall i | 0 <= i < |t| ensures SoundAt(rowHash, t, i) {
      assert SoundAt(rowHash, u, i);
    }
  }

  /** Whatever the window: if rows only arrive at the end, the sweep reads a first part of it, intact if it is. */
  lemma SweepReadsIntactPart(rowHash: RowHash, rule: Rule, tables: seq<Table>, last: Table, from: Time, to: Time)
    requires Sorted(last) && forall i :: 0 <= i < |tables| ==> BeginsWith(last, tables[i])
    requires Intact(rowHash, Select(last, Window(from, to, NO_CURSOR)))
    ensures var read := ScanOver(rule, tables, Window(from, to, NO_CURSOR)).rows;
            BeginsWith(Select(last, Window(from, to, NO_CURSOR)), read) && Intact(rowHash, read)
  {
    ScanIsPrefix(rule, tables, Window(from, to, NO_CURSOR), last);
    PrefixIsIntact(rowHash, Select(last, Window(from, to, NO_CURSOR)),
                   ScanOver(rule, tables, Window(from, to, NO_CURSOR)).rows);
  }

  lemma SamePlace(t: Table, i: nat, j: nat)
    requires Sorted(t) && i < |t| && j < |t| && t[i].core == t[j].core
    ensures i == j
  {
    KeyLtIrreflexive(KeyOf(t[i].core));
  }

  lemma InOrderIsGrowing(rowHash: RowHash, tables: seq<Table>)
    requires GrowsInOrder(rowHash, tables)
    ensures Growing(tables)
  {
  }

  /** A first part of the last table that has the last row of the first table has all its rows. */
  lemma HoldsWholeStart(last: Table, read: Table, first: Table)
    requires Sorted(last) && BeginsWith(last, read) && BeginsWith(last, first)
    requires first != [] ==> Sees(read, first[|first| - 1].core)
    ensures BeginsWith(read, first)
  {
    if first != [] {
      var i :| 0 <= i < |read| && read[i].core == first[|first| - 1].core;
      SamePlace(last, i, |first| - 1);
    }
  }

  lemma FinishedScanSeesStart(rowHash: RowHash, rule: Rule, tables: seq<Table>)
    requires GrowsInOrder(rowHash, tables) && tables != [] && AllNonZero(tables) && tables[0] != []
    requires ScanOver(rule, tables, Window(ZERO_TIME, ZERO_TIME, NO_CURSOR)).finished
    ensures Sees(ScanOver(rule, tables, Window(ZERO_TIME, ZERO_TIME, NO_CURSOR)).rows,
                 tables[0][|tables[0]| - 1].core)
  {
    var c := tables[0][|tables[0]| - 1].core;
    assert c in Cores(tables[0]);
    InOrderIsGrowing(rowHash, tables);
    ScanIsComplete(rule, tables, Window(ZERO_TIME, ZERO_TIME, NO_CURSOR), c);
  }

  /**
   * A full sweep beside ingest never reports an untampered store while events arrive in order: what its pages gather
   * is an intact first part of the chain, with every row that was there when it began if it came to its end.
   */
  lemma SweepBesideIngestAccepts(rowHash: RowHash, rule: Rule, tables: seq<Table>, steps: seq<seq<Step>>)
    requires FedInOrder(rowHash, [], tables, steps) && tables != [] && AllNonZero(tables)
    ensures var scan := ScanOver(rule, tables, Window(ZERO_TIME, ZERO_TIME, NO_CURSOR));
            && Intact(rowHash, scan.rows) && BeginsWith(tables[|tables| - 1], scan.rows)
            && (scan.finished ==> BeginsWith(scan.rows, tables[0]))
  {
    var last := tables[|tables| - 1];
    FedGrowsInOrder(rowHash, [], tables, steps);
    GrowsInOrderTail(rowHash, [], tables);
    OpenWindowSelectsAll(last, |last|);
    assert last[..|last|] == last;
    SweepReadsIntactPart(rowHash, rule, tables, last, ZERO_TIME, ZERO_TIME);
    var scan := ScanOver(rule, tables, Window(ZERO_TIME, ZERO_TIME, NO_CURSOR));
    if scan.finished {
      if tables[0] != [] {
        FinishedScanSeesStart(rowHash, rule, tables);
      }
      HoldsWholeStart(last, scan.rows, tables[0]);
    }
  }

  // ---------------------------------------------------------------- what an anchor binds

  lemma PrefixPasses(rowHash: RowHash, t: Table, k: nat)
    requires Intact(rowHash, t) && k < |t|
    ensures Intact(rowHash, t[..k + 1]) && Root(t[..k + 1]) == t[k].core.thisHash
  {
    PrefixIntact(rowHash, t, k + 1);
  }

  /**
   * A table that verifies in the place of an intact one, and that an anchor over row `k` does not contradict, has the
   * anchored row, and its rows up to there and the original ones up to `k` agree on all of the shorter list, or two
   * rows clash.
   */
  lemma AnchorBindsHistory(rowHash: RowHash, t: Table, u: Table, k: nat, a: Anchor) returns (j: nat)
    requires Intact(rowHash, t) && k < |t|
    requires a.lastEventId == t[k].core.id && a.rootHash == t[k].core.thisHash && |a.rootHash| == 32
    requires UniqueIds(u) && Intact(rowHash, u) && !Mismatched(u, a)
    ensures j < |u| && u[j].core.id == t[k].core.id && u[j].core.thisHash == t[k].core.thisHash
    ensures var es, fs := t[..k + 1], u[..j + 1];
            if |es| <= |fs| then AgreesWithSuffix(es, fs) || Clash(rowHash, es, fs)
            else AgreesWithSuffix(fs, es) || Clash(rowHash, fs, es)
  {
    AcceptedIff(u, a);
    j :| 0 <= j < |u| && u[j].core.id == a.lastEventId && u[j].core.thisHash == a.rootHash;
    PrefixPasses(rowHash, t, k);
    PrefixPasses(rowHash, u, j);
    if k <= j {
      RootBindsHistory(rowHash, t[..k + 1], u[..j + 1]);
    } else {
      RootBindsHistory(rowHash, u[..j + 1], t[..k + 1]);
    }
  }
}
