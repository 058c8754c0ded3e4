/** What the anchor over a row proves about it: is the row reached from an anchored root along prev_hash links? */
module AnchorProofs {
  import opened ByteStrings
  import opened Store
  import opened Encoding
  import opened Chain
  import opened Tables
  import opened Arrival
  import opened AnchorRuns

  // ---------------------------------------------------------------- links

  /** Each row of the path names the this_hash of the next one. */
  ghost predicate PathBetween(t: Table, path: seq<Core>, from: Core, to: Core) {
    && path != [] && path[0] == from && path[|path| - 1] == to
    && (forall k :: 0 <= k < |path| ==> path[k] in Cores(t))
    && (forall k :: 0 < k < |path| ==> path[k - 1].prevHash == path[k].thisHash)
  }

  ghost predicate Reaches(t: Table, from: Core, to: Core) {
    exists path :: PathBetween(t, path, from, to)
  }

  lemma ReachesItself(t: Table, c: Core)
    requires c in Cores(t)
    ensures Reaches(t, c, c)
  {
    assert PathBetween(t, [c], c, c);
  }

  lemma ReachesFromNext(t: Table, next: Core, from: Core, to: Core)
    requires next in Cores(t) && next.prevHash == from.thisHash && Reaches(t, from, to)
    ensures Reaches(t, next, to)
  {
    var path :| PathBetween(t, path, from, to);
    assert PathBetween(t, [next] + path, next, to);
  }

  lemma ReachesGrows(t: Table, u: Table, from: Core, to: Core)
    requires Cores(t) <= Cores(u) && Reaches(t, from, to)
    ensures Reaches(u, from, to)
  {
    var path :| PathBetween(t, path, from, to);
    assert PathBetween(u, path, from, to);
  }

  /** Nothing but the row itself leads to an orphan. */
  lemma ReachedIsContinued(t: Table, from: Core, to: Core)
    requires Reaches(t, from, to) && from != to
    ensures !Orphan(t, to)
  {
    var path: seq<Core> :| PathBetween(t, path, from, to);
    var d := path[|path| - 2];
    assert d in Cores(t) && d.prevHash == to.thisHash;
  }

  // ---------------------------------------------------------------- which rows are orphans

  /** The step stores the event with this id, and below the head. */
  predicate ArrivesLate(t: Table, s: Step, id: Bytes) {
    s.Insert? && s.e.core.id == id && !HasId(t, id) && !AboveHead(t, s.e.core)
  }

  lemma ContinuedStays(rowHash: RowHash, t: Table, e: Event, c: Core)
    requires Built(rowHash, t) && !HasId(t, e.core.id)
    requires c in Cores(t) && !Orphan(t, c)
    ensures !Orphan(InsertSorted(t, NewRow(rowHash, t, e)), c)
  {
    var row := NewRow(rowHash, t, e);
    var r := InsertSorted(t, row);
    NewRowIsGenuine(rowHash, t, e);
    InsertSortedCores(t, row);
    if AboveHead(t, row.core) {
      InsertAtEnd(t, row);
      assert row.core in Cores(r);
    } else {
      LastStaysLast(t, row);
    }
  }

  lemma NewRowOrphanIff(rowHash: RowHash, t: Table, e: Event)
    requires Built(rowHash, t) && !HasId(t, e.core.id)
    requires NoClash(rowHash, Cores(InsertSorted(t, NewRow(rowHash, t, e))))
    ensures Orphan(InsertSorted(t, NewRow(rowHash, t, e)), NewRow(rowHash, t, e).core) <==> !AboveHead(t, e.core)
  {
    if AboveHead(t, e.core) {
      NewRowIsGenuine(rowHash, t, e);
      InsertAtEnd(t, NewRow(rowHash, t, e));
    } else {
      LateEventIsOrphan(rowHash, t, e);
    }
  }

  lemma SameCoresOrphan(t: Table, u: Table, c: Core)
    requires SameCores(t, u) && Cores(t) == Cores(u)
    ensures Orphan(t, c) <==> Orphan(u, c)
  {
  }

  /** A step makes an orphan of a late row and leaves every other row as it was. */
  lemma StepOrphans(rowHash: RowHash, t: Table, s: Step, c: Core)
    requires Built(rowHash, t) && NoClash(rowHash, Cores(Apply(rowHash, t, s)))
    requires c in Cores(Apply(rowHash, t, s))
    ensures Orphan(Apply(rowHash, t, s), c) <==> Orphan(t, c) || ArrivesLate(t, s, c.id)
  {
    match s
    case Insert(e) =>
      if !HasId(t, e.core.id) {
        InsertSortedCores(t, NewRow(rowHash, t, e));
        if c in Cores(t) {
          NotARow(t, c, e.core.id);
          if Orphan(t, c) {
            OrphanStaysOnInsert(rowHash, t, e, c);
          } else {
            ContinuedStays(rowHash, t, e, c);
          }
        } else {
          NewRowOrphanIff(rowHash, t, e);
        }
      }
    case Hold(id, hold) =>
      SameCoresKeep(t, SetHold(t, id, hold));
      SameCoresOrphan(t, SetHold(t, id, hold), c);
    case MarkUpTo(k) =>
      SameCoresKeep(t, Mark(t, k));
      SameCoresOrphan(t, Mark(t, k), c);
  }

  // ---------------------------------------------------------------- what a head reaches

  /** The row reaches every row at or below it that some row continues. */
  ghost predicate ReachesAll(t: Table, head: Core) {
    && head in Cores(t) && !Orphan(t, head)
    && forall c :: c in Cores(t) && !Orphan(t, c) && KeyLe(KeyOf(c), KeyOf(head)) ==> Reaches(t, head, c)
  }

  ghost predicate HeadReachesAll(t: Table) {
    t != [] ==> ReachesAll(t, t[|t| - 1].core)
  }

  lemma AboveHeadIsAbove(t: Table, c: Core, d: Core)
    requires Sorted(t) && AboveHead(t, c) && d in Cores(t)
    ensures !KeyLe(KeyOf(c), KeyOf(d))
  {
    var i :| 0 <= i < |t| && t[i].core == d;
    var last := t[|t| - 1].core;
    if i < |t| - 1 {
      KeyLtTransitive(KeyOf(d), KeyOf(last), KeyOf(c));
    }
    KeyLtTotal(KeyOf(d), KeyOf(c));
    KeyLtIrreflexive(KeyOf(c));
  }

  lemma ReachesAllStays(rowHash: RowHash, t: Table, s: Step, head: Core)
    requires Built(rowHash, t) && NoClash(rowHash, Cores(Apply(rowHash, t, s)))
    requires ReachesAll(t, head)
    ensures ReachesAll(Apply(rowHash, t, s), head)
  {
    var u := Apply(rowHash, t, s);
    ApplyKeeps(rowHash, t, s);
    HeadIsOld(t, head);
    StepOrphans(rowHash, t, s, head);
    forall c | c in Cores(u) && !Orphan(u, c) && KeyLe(KeyOf(c), KeyOf(head)) ensures Reaches(u, head, c) {
      StepOrphans(rowHash, t, s, c);
      if c in Cores(t) {
        ReachesGrows(t, u, head, c);
      } else {
        AddedRow(rowHash, t, s, c);
        AboveHeadIsAbove(t, c, head);
      }
    }
  }

  lemma HeadIsOld(t: Table, c: Core)
    requires c in Cores(t)
    ensures HasId(t, c.id)
  {
  }

  lemma AddedRow(rowHash: RowHash, t: Table, s: Step, c: Core)
    requires WellFormed(t) && c in Cores(Apply(rowHash, t, s)) && c !in Cores(t)
    ensures s.Insert? && !HasId(t, s.e.core.id) && c == NewRow(rowHash, t, s.e).core
  {
  }

  lemma HeadReachesAllStays(rowHash: RowHash, t: Table, s: Step)
    requires Built(rowHash, t) && NoClash(rowHash, Cores(Apply(rowHash, t, s)))
    requires HeadReachesAll(t)
    ensures HeadReachesAll(Apply(rowHash, t, s))
  {
    var u := Apply(rowHash, t, s);
    if s.Insert? && !HasId(t, s.e.core.id) && AboveHead(t, s.e.core) {
      NewHeadReachesAll(rowHash, t, s.e);
    } else if t != [] {
      ReachesAllStays(rowHash, t, s, t[|t| - 1].core);
      SameHead(rowHash, t, s);
    }
  }

  lemma SameHead(rowHash: RowHash, t: Table, s: Step)
    requires WellFormed(t) && t != []
    requires s.Insert? ==> HasId(t, s.e.core.id) || !AboveHead(t, s.e.core)
    ensures var u := Apply(rowHash, t, s); u != [] && u[|u| - 1].core == t[|t| - 1].core
  {
  }

  lemma NewHeadReachesAll(rowHash: RowHash, t: Table, e: Event)
    requires Built(rowHash, t) && !HasId(t, e.core.id) && AboveHead(t, e.core)
    requires NoClash(rowHash, Cores(InsertSorted(t, NewRow(rowHash, t, e))))
    requires HeadReachesAll(t)
    ensures HeadReachesAll(InsertSorted(t, NewRow(rowHash, t, e)))
  {
    var row := NewRow(rowHash, t, e);
    var u := InsertSorted(t, row);
    NewRowIsGenuine(rowHash, t, e);
    InsertAtEnd(t, row);
    InsertSortedCores(t, row);
    assert row.core in Cores(u);
    ReachesItself(u, row.core);
    forall c | c in Cores(t) && !Orphan(u, c) ensures Reaches(u, row.core, c) {
      StepOrphans(rowHash, t, Insert(e), c);
      LastIsLargest(t, c);
      ReachesGrows(t, u, t[|t| - 1].core, c);
      ReachesFromNext(u, row.core, t[|t| - 1].core, c);
    }
  }

  lemma LastIsLargest(t: Table, c: Core)
    requires Sorted(t) && c in Cores(t)
    ensures KeyLe(KeyOf(c), KeyOf(t[|t| - 1].core))
  {
  }

  // ---------------------------------------------------------------- anchor jobs

  /** What the move does to the rows, if anything. */
  function TableStep(s: System, m: Move): Option<Step> {
    match m
    case PutEvent(core, hold) => Some(Insert(Event(core, false, hold)))
    case HoldEvent(id, hold) => Some(Hold(id, hold))
    case MarkRows(j) => if PhaseOf(s, j).Written? then Some(MarkUpTo(KeyOf(PhaseOf(s, j).head))) else None
    case _ => None
  }

  lemma MoveSteps(rowHash: RowHash, s: System, m: Move)
    ensures Next(rowHash, s, m).table
         == if TableStep(s, m).Some? then Apply(rowHash, s.table, TableStep(s, m).value) else s.table
  {
  }

  lemma {:induction false} MovesAppendOnly(rowHash: RowHash, s: System, moves: seq<Move>)
    requires WellFormed(s.table)
    ensures WellFormed(RunMoves(rowHash, s, moves).table)
    ensures Cores(s.table) <= Cores(RunMoves(rowHash, s, moves).table)
    decreases |moves|
  {
    if moves == [] {
    } else {
      MoveSteps(rowHash, s, moves[0]);
      if TableStep(s, moves[0]).Some? {
        ApplyKeeps(rowHash, s.table, TableStep(s, moves[0]).value);
      }
      MovesAppendOnly(rowHash, Next(rowHash, s, moves[0]), moves[1..]);
    }
  }

  /** The event with this id was accepted during the moves, and below the head it found. */
  predicate ArrivedLate(rowHash: RowHash, s: System, moves: seq<Move>, id: Bytes)
    decreases |moves|
  {
    moves != []
    && ((TableStep(s, moves[0]).Some? && ArrivesLate(s.table, TableStep(s, moves[0]).value, id))
        || ArrivedLate(rowHash, Next(rowHash, s, moves[0]), moves[1..], id))
  }

  lemma MoveOrphans(rowHash: RowHash, s: System, m: Move, c: Core)
    requires Built(rowHash, s.table) && NoClash(rowHash, Cores(Next(rowHash, s, m).table))
    requires c in Cores(Next(rowHash, s, m).table)
    ensures Orphan(Next(rowHash, s, m).table, c)
            <==> Orphan(s.table, c) || (TableStep(s, m).Some? && ArrivesLate(s.table, TableStep(s, m).value, c.id))
  {
    MoveSteps(rowHash, s, m);
    if TableStep(s, m).Some? {
      StepOrphans(rowHash, s.table, TableStep(s, m).value, c);
    }
  }

  /** A row that is not there yet cannot arrive by a move that leaves it out. */
  lemma NotYetThere(rowHash: RowHash, t: Table, s: Step, final: Table, c: Core)
    requires WellFormed(t) && UniqueIds(final) && Cores(Apply(rowHash, t, s)) <= Cores(final)
    requires c in Cores(final) && c !in Cores(Apply(rowHash, t, s))
    ensures !ArrivesLate(t, s, c.id)
  {
    if s.Insert? && !HasId(t, s.e.core.id) {
      InsertSortedCores(t, NewRow(rowHash, t, s.e));
      assert NewRow(rowHash, t, s.e).core in Cores(final);
    }
  }

  lemma MoveKeepsBuilt(rowHash: RowHash, s: System, m: Move)
    requires Built(rowHash, s.table)
    ensures Built(rowHash, Next(rowHash, s, m).table)
  {
    MoveSteps(rowHash, s, m);
    if TableStep(s, m).Some? {
      StepKeepsBuilt(rowHash, s.table, TableStep(s, m).value);
    }
  }

  /** The orphans of the final table are the rows that arrived late. */
  lemma {:induction false} OrphanIffLate(rowHash: RowHash, s: System, moves: seq<Move>, c: Core)
    requires Built(rowHash, s.table) && NoClash(rowHash, Cores(RunMoves(rowHash, s, moves).table))
    requires c in Cores(RunMoves(rowHash, s, moves).table)
    ensures Orphan(RunMoves(rowHash, s, moves).table, c)
            <==> Orphan(s.table, c) || ArrivedLate(rowHash, s, moves, c.id)
    decreases |moves|
  {
    if moves == [] {
    } else {
      var m, u, final := moves[0], Next(rowHash, s, moves[0]), RunMoves(rowHash, s, moves).table;
      MoveKeepsBuilt(rowHash, s, m);
      MovesAppendOnly(rowHash, u, moves[1..]);
      NoClashSubset(rowHash, Cores(u.table), Cores(final));
      OrphanIffLate(rowHash, u, moves[1..], c);
      if c in Cores(u.table) {
        MoveOrphans(rowHash, s, m, c);
      } else {
        MoveSteps(rowHash, s, m);
        if TableStep(s, m).Some? {
          NotYetThere(rowHash, s.table, TableStep(s, m).value, final, c);
          ApplyKeeps(rowHash, s.table, TableStep(s, m).value);
        }
      }
    }
  }

  ghost predicate NamesReaching(t: Table, a: Anchor) {
    exists h :: h in Cores(t) && Names(a, h) && ReachesAll(t, h)
  }

  /** Every head that a job has read or anchored still reaches the rows it found, except those that came late. */
  ghost predicate HeadsReach(s: System) {
    && HeadReachesAll(s.table)
    && (forall j :: j in s.jobs && !s.jobs[j].Idle? ==> ReachesAll(s.table, s.jobs[j].head))
    && (forall i :: 0 <= i < |s.anchors| ==> NamesReaching(s.table, s.anchors[i]))
  }

  lemma NamesReachingStays(rowHash: RowHash, t: Table, s: Step, a: Anchor)
    requires Built(rowHash, t) && NoClash(rowHash, Cores(Apply(rowHash, t, s)))
    requires NamesReaching(t, a)
    ensures NamesReaching(Apply(rowHash, t, s), a)
  {
    var h :| h in Cores(t) && Names(a, h) && ReachesAll(t, h);
    ReachesAllStays(rowHash, t, s, h);
  }

  lemma TableStepKeepsHeads(rowHash: RowHash, s: System, step: Step)
    requires Built(rowHash, s.table) && NoClash(rowHash, Cores(Apply(rowHash, s.table, step)))
    requires HeadsReach(s)
    ensures HeadsReach(s.(table := Apply(rowHash, s.table, step)))
  {
    HeadReachesAllStays(rowHash, s.table, step);
    forall j | j in s.jobs && !s.jobs[j].Idle? ensures ReachesAll(Apply(rowHash, s.table, step), s.jobs[j].head) {
      ReachesAllStays(rowHash, s.table, step, s.jobs[j].head);
    }
    forall i | 0 <= i < |s.anchors| ensures NamesReaching(Apply(rowHash, s.table, step), s.anchors[i]) {
      NamesReachingStays(rowHash, s.table, step, s.anchors[i]);
    }
  }

  lemma WriteKeepsHeads(rowHash: RowHash, s: System, m: Move)
    requires m.WriteAnchor? && HeadsReach(s)
    ensures HeadsReach(Next(rowHash, s, m))
  {
  }

  /** Jobs may have gone idle or read the present head. */
  lemma JobsKeepHeads(s: System, u: System)
    requires HeadsReach(s) && u.table == s.table && u.anchors == s.anchors
    requires forall j :: j in u.jobs && !u.jobs[j].Idle? ==>
               (j in s.jobs && u.jobs[j] == s.jobs[j])
               || (u.table != [] && u.jobs[j].head == u.table[|u.table| - 1].core)
    ensures HeadsReach(u)
  {
  }

  lemma StepMoveKeepsHeads(rowHash: RowHash, s: System, m: Move)
    requires Built(rowHash, s.table) && NoClash(rowHash, Cores(Next(rowHash, s, m).table))
    requires HeadsReach(s) && TableStep(s, m).Some?
    ensures HeadsReach(Next(rowHash, s, m))
  {
    var u := Next(rowHash, s, m);
    MoveSteps(rowHash, s, m);
    TableStepKeepsHeads(rowHash, s, TableStep(s, m).value);
    JobsKeepHeads(s.(table := u.table), u);
  }

  lemma LocalMoveKeepsHeads(rowHash: RowHash, s: System, m: Move)
    requires HeadsReach(s) && TableStep(s, m).None? && !m.WriteAnchor?
    ensures HeadsReach(Next(rowHash, s, m))
  {
  }

  lemma MoveKeepsHeads(rowHash: RowHash, s: System, m: Move)
    requires Built(rowHash, s.table) && NoClash(rowHash, Cores(Next(rowHash, s, m).table))
    requires HeadsReach(s)
    ensures HeadsReach(Next(rowHash, s, m))
  {
    if TableStep(s, m).Some? {
      StepMoveKeepsHeads(rowHash, s, m);
    } else if m.WriteAnchor? {
      WriteKeepsHeads(rowHash, s, m);
    } else {
      LocalMoveKeepsHeads(rowHash, s, m);
    }
  }

  lemma {:induction false} RunKeepsHeads(rowHash: RowHash, s: System, moves: seq<Move>)
    requires Built(rowHash, s.table) && NoClash(rowHash, Cores(RunMoves(rowHash, s, moves).table))
    requires HeadsReach(s)
    ensures HeadsReach(RunMoves(rowHash, s, moves))
    decreases |moves|
  {
    if moves == [] {
    } else {
      var u := Next(rowHash, s, moves[0]);
      MoveKeepsBuilt(rowHash, s, moves[0]);
      MovesAppendOnly(rowHash, u, moves[1..]);
      NoClashSubset(rowHash, Cores(u.table), Cores(RunMoves(rowHash, s, moves).table));
      MoveKeepsHeads(rowHash, s, moves[0]);
      RunKeepsHeads(rowHash, u, moves[1..]);
    }
  }

  /** Links lead from a row that carries a persisted root to this one. */
  ghost predicate Proven(s: System, c: Core) {
    exists i, h :: 0 <= i < |s.anchors| && h in Cores(s.table) && Names(s.anchors[i], h) && Reaches(s.table, h, c)
  }

  lemma ProvenIsContinued(s: System, c: Core)
    requires UniqueIds(s.table) && HeadsReach(s) && Proven(s, c)
    ensures !Orphan(s.table, c)
  {
    var i, h :| 0 <= i < |s.anchors| && h in Cores(s.table) && Names(s.anchors[i], h) && Reaches(s.table, h, c);
    assert NamesReaching(s.table, s.anchors[i]);
    if h != c {
      ReachedIsContinued(s.table, h, c);
    }
  }

  lemma ContinuedIsProven(s: System, c: Core)
    requires HeadsReach(s) && c in Cores(s.table) && !Orphan(s.table, c) && Covered(s, KeyOf(c))
    ensures Proven(s, c)
  {
  }

  /**
   * Under every interleaving, an anchored row is linked to a persisted root exactly when it arrived above the head
   * it found.  Marking goes by key, so a late row is marked as well, but no root says anything about it.
   */
  lemma AnchoredRowProvenIff(rowHash: RowHash, moves: seq<Move>, i: nat)
    requires NoClash(rowHash, Cores(RunMoves(rowHash, START, moves).table))
    requires i < |RunMoves(rowHash, START, moves).table| && RunMoves(rowHash, START, moves).table[i].anchored
    ensures var s := RunMoves(rowHash, START, moves);
            Proven(s, s.table[i].core) <==> !ArrivedLate(rowHash, START, moves, s.table[i].core.id)
  {
    var s := RunMoves(rowHash, START, moves);
    var c := s.table[i].core;
    assert c in Cores(s.table);
    EveryRunIsSound(rowHash, moves);
    assert Built(rowHash, START.table);
    RunKeepsHeads(rowHash, START, moves);
    OrphanIffLate(rowHash, START, moves, c);
    if Orphan(s.table, c) {
      if Proven(s, c) {
        ProvenIsContinued(s, c);
      }
    } else {
      ContinuedIsProven(s, c);
    }
  }

  // ---------------------------------------------------------------- runs without late events

  predicate MoveInOrder(s: System, m: Move) {
    m.PutEvent? ==> ArrivesInOrder(s.table, Insert(Event(m.core, false, m.legalHold)))
  }

  /** Every accepted event of the run arrived above the head it found. */
  predicate EventsInOrder(rowHash: RowHash, s: System, moves: seq<Move>)
    decreases |moves|
  {
    moves == [] || (MoveInOrder(s, moves[0]) && EventsInOrder(rowHash, Next(rowHash, s, moves[0]), moves[1..]))
  }

  lemma MoveKeepsIntact(rowHash: RowHash, s: System, m: Move)
    requires WellFormed(s.table) && Intact(rowHash, s.table)
    requires MoveInOrder(s, m)
    ensures Intact(rowHash, Next(rowHash, s, m).table)
  {
    match m
    case PutEvent(core, hold) => InOrderStepKeepsIntact(rowHash, s.table, Insert(Event(core, false, hold)));
    case HoldEvent(id, hold) => InOrderStepKeepsIntact(rowHash, s.table, Hold(id, hold));
    case MarkRows(j) =>
      var p := PhaseOf(s, j);
      if p.Written? {
        InOrderStepKeepsIntact(rowHash, s.table, MarkUpTo(KeyOf(p.head)));
      }
    case _ =>
  }

  lemma {:induction false} InOrderStaysIntact(rowHash: RowHash, s: System, moves: seq<Move>)
    requires Inv(s) && Intact(rowHash, s.table) && EventsInOrder(rowHash, s, moves)
    ensures Intact(rowHash, RunMoves(rowHash, s, moves).table)
    decreases |moves|
  {
    if moves == [] {
    } else {
      MoveKeeps(rowHash, s, moves[0]);
      MoveKeepsIntact(rowHash, s, moves[0]);
      InOrderStaysIntact(rowHash, Next(rowHash, s, moves[0]), moves[1..]);
    }
  }

  /** Following prev_hash from row `j` arrives at row `i`. */
  ghost predicate LinkedDown(t: Table, j: nat, i: nat)
    requires i <= j < |t|
  {
    forall k :: i < k <= j ==> t[k].core.prevHash == t[k - 1].core.thisHash
  }

  /** Row `j` carries the anchor's root and is reached from by following links down to row `i`. */
  ghost predicate ProvenBy(t: Table, i: nat, j: nat, a: Anchor) {
    i <= j < |t| && Names(a, t[j].core) && LinkedDown(t, j, i)
  }

  /** In an in-order run the anchored root is linked to every row it was used to mark. */
  lemma AnchoredRowIsProven(rowHash: RowHash, moves: seq<Move>, i: nat)
    requires EventsInOrder(rowHash, START, moves)
    requires i < |RunMoves(rowHash, START, moves).table| && RunMoves(rowHash, START, moves).table[i].anchored
    ensures var s := RunMoves(rowHash, START, moves);
            exists j: nat, a: nat :: a < |s.anchors| && ProvenBy(s.table, i, j, s.anchors[a])
  {
    var s := RunMoves(rowHash, START, moves);
    EveryRunIsSound(rowHash, moves);
    InOrderStaysIntact(rowHash, START, moves);
    var j, a := ProofOfRow(rowHash, s, i);
  }

  lemma ProofOfRow(rowHash: RowHash, s: System, i: nat) returns (j: nat, a: nat)
    requires Inv(s) && Intact(rowHash, s.table) && i < |s.table| && s.table[i].anchored
    ensures a < |s.anchors| && ProvenBy(s.table, i, j, s.anchors[a])
  {
    assert Covered(s, KeyOf(s.table[i].core));
    a :| 0 <= a < |s.anchors|
         && KeyLe(KeyOf(s.table[i].core), Key(s.anchors[a].lastEventTs, s.anchors[a].lastEventId));
    assert NamesARow(s, s.anchors[a]);
    var c :| c in Cores(s.table) && Names(s.anchors[a], c);
    j :| 0 <= j < |s.table| && s.table[j].core == c;
    BelowMeansBefore(s.table, i, j);
    IntactLinkedDown(rowHash, s.table, j, i);
  }

  lemma IntactLinkedDown(rowHash: RowHash, t: Table, j: nat, i: nat)
    requires Intact(rowHash, t) && i <= j < |t|
    ensures LinkedDown(t, j, i)
  {
    forall k | i < k <= j ensures t[k].core.prevHash == t[k - 1].core.thisHash {
      assert SoundAt(rowHash, t, k);
    }
  }

  lemma BelowMeansBefore(t: Table, i: nat, j: nat)
    requires Sorted(t) && i < |t| && j < |t| && KeyLe(KeyOf(t[i].core), KeyOf(t[j].core))
    ensures i <= j
  {
    if j < i {
      KeyLtTotal(KeyOf(t[j].core), KeyOf(t[i].core));
    }
  }

  /** What two inserts in the wrong order leave: the late row stands first and links to the row after it. */
  lemma LateRowLinksForward(rowHash: RowHash, a: Event, b: Event)
    requires KeyLt(KeyOf(b.core), KeyOf(a.core)) && a.core.id != b.core.id
    ensures var t := Apply(rowHash, Apply(rowHash, [], Insert(a)), Insert(b));
            && |t| == 2 && KeyOf(t[0].core) == KeyOf(b.core) && KeyOf(t[1].core) == KeyOf(a.core)
            && t[1].core.prevHash == ZERO_HASH && t[0].core.prevHash == t[1].core.thisHash
            && |t[1].core.thisHash| == 32
  {
    var rowA, rowB := NewRow(rowHash, [], a), NewRow(rowHash, [NewRow(rowHash, [], a)], b);
    NewRowIsGenuine(rowHash, [], a);
    NewRowIsGenuine(rowHash, [rowA], b);
    assert Apply(rowHash, [], Insert(a)) == [rowA];
    TwoRows(rowA, rowB);
    assert !HasId([rowA], b.core.id);
    assert Apply(rowHash, [rowA], Insert(b)) == [rowB, rowA];
    var d: Digest := EventHash(rowHash, rowA.core);
    assert rowA.core.thisHash == d;
  }

  lemma TwoRows(a: Event, b: Event)
    requires KeyLt(KeyOf(b.core), KeyOf(a.core))
    ensures InsertSorted([a], b) == [b, a]
  {
    KeyLtTotal(KeyOf(b.core), KeyOf(a.core));
    assert Slot([a], KeyOf(b.core)) == 0;
  }

  lemma ReadWriteMark(rowHash: RowHash, s: System, job: nat, write: Move)
    requires s.jobs == map[] && s.table != [] && |s.table[|s.table| - 1].core.thisHash| == 32
    requires write.WriteAnchor? && write.job == job
    ensures var head := s.table[|s.table| - 1].core;
            var u := Next(rowHash, Next(rowHash, Next(rowHash, s, ReadHead(job)), write), MarkRows(job));
            && u.table == Mark(s.table, KeyOf(head))
            && |u.anchors| == |s.anchors| + 1 && Names(u.anchors[|s.anchors|], head)
  {
  }

  /**
   * Without the order condition a row can be marked by an anchor that says nothing about it.  A late event `b`
   * links to `a`; the job anchors `a`, whose history ends at the genesis hash, and marks `b` as well.
   */
  lemma LateRowIsMarkedUnproven(rowHash: RowHash, a: Core, b: Core, job: nat, write: Move)
    requires KeyLt(KeyOf(b), KeyOf(a)) && a.id != b.id
    requires write.WriteAnchor? && write.job == job
    ensures var moves := [PutEvent(a, false), PutEvent(b, false), ReadHead(job), write, MarkRows(job)];
            var s := RunMoves(rowHash, START, moves);
            && |s.table| == 2 && |s.anchors| == 1
            && s.table[0].core.id == b.id && s.table[0].anchored
            && Names(s.anchors[0], s.table[1].core)
            && s.table[1].core.prevHash == ZERO_HASH
            && s.table[0].core.prevHash == s.table[1].core.thisHash
  {
    var moves := [PutEvent(a, false), PutEvent(b, false), ReadHead(job), write, MarkRows(job)];
    var ea, eb := Event(a, false, false), Event(b, false, false);
    LateRowLinksForward(rowHash, ea, eb);
    var s2 := START.(table := Apply(rowHash, Apply(rowHash, [], Insert(ea)), Insert(eb)));
    FiveMoves(rowHash, moves);
    assert Next(rowHash, Next(rowHash, START, moves[0]), moves[1]) == s2;
    ReadWriteMark(rowHash, s2, job, write);
    assert KeyLe(KeyOf(b), KeyOf(a));
  }

  lemma FiveMoves(rowHash: RowHash, moves: seq<Move>)
    requires |moves| == 5
    ensures RunMoves(rowHash, START, moves)
         == Next(rowHash, Next(rowHash, Next(rowHash, Next(rowHash, Next(rowHash, START,
              moves[0]), moves[1]), moves[2]), moves[3]), moves[4])
  {
    var s2 := Next(rowHash, Next(rowHash, START, moves[0]), moves[1]);
    assert RunMoves(rowHash, START, moves) == RunMoves(rowHash, s2, moves[2..]);
    TwoMoves(rowHash, s2, moves[2..]);
    assert moves[2..][2..] == [moves[4]];
  }
}
