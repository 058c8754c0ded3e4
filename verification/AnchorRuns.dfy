/**
 * Anchor jobs running beside ingest.  The stores lock per call, so other calls may fall between a job's head read,
 * its anchor write and its marking of rows.
 */
module AnchorRuns {
  import opened ByteStrings
  import opened Store
  import opened Encoding
  import opened Tables
  import opened Anchoring

  datatype Phase = Idle | HeadRead(head: Core) | Written(head: Core)

  /** `marked` sums what the MarkAnchored calls have returned. */
  datatype System = System(table: Table, anchors: seq<Anchor>, jobs: map<nat, Phase>, marked: nat)

  const START := System([], [], map[], 0)

  datatype Move =
    | PutEvent(core: Core, legalHold: bool)
    | HoldEvent(id: Bytes, hold: bool)
    | ReadHead(job: nat)
    | WriteAnchor(job: nat, signature: Bytes, keyId: Bytes, notaryUrl: Bytes, count: int, now: Time, newId: Bytes)
    | MarkRows(job: nat)
    | GiveUp(job: nat)

  function PhaseOf(s: System, job: nat): Phase {
    if job in s.jobs then s.jobs[job] else Idle
  }

  /** Moves that a job is not ready for do nothing. */
  function Next(rowHash: RowHash, s: System, m: Move): System {
    match m
    case PutEvent(core, hold) =>
      s.(table := InsertLinked(s.table, Event(core, false, hold), BoundHash(rowHash, core)))
    case HoldEvent(id, hold) => s.(table := SetHold(s.table, id, hold))
    case ReadHead(j) =>
      if PhaseOf(s, j).Idle? && s.table != [] then s.(jobs := s.jobs[j := HeadRead(s.table[|s.table| - 1].core)]) else s
    case WriteAnchor(j, signature, keyId, notaryUrl, count, now, newId) =>
      var p := PhaseOf(s, j);
      if p.HeadRead? && |p.head.thisHash| == 32 then
        var a := AnchorFor(p.head, signature, keyId, notaryUrl, count).(id := newId, anchoredAt := now);
        s.(anchors := s.anchors + [a], jobs := s.jobs[j := Written(p.head)])
      else s
    case MarkRows(j) =>
      var p := PhaseOf(s, j);
      if p.Written? then
        var k := KeyOf(p.head);
        s.(table := Mark(s.table, k), jobs := s.jobs[j := Idle], marked := s.marked + NewlyAnchored(s.table, k))
      else s
    case GiveUp(j) => s.(jobs := s.jobs[j := Idle])
  }

  function RunMoves(rowHash: RowHash, s: System, moves: seq<Move>): System
    decreases |moves|
  {
    if moves == [] then s else RunMoves(rowHash, Next(rowHash, s, moves[0]), moves[1..])
  }

  // ---------------------------------------------------------------- the invariant

  predicate Names(a: Anchor, c: Core) {
    a.lastEventId == c.id && a.lastEventTs == c.ts && a.rootHash == c.thisHash
  }

  ghost predicate Anchored(s: System, c: Core) {
    exists i :: 0 <= i < |s.anchors| && Names(s.anchors[i], c)
  }

  ghost predicate NamesARow(s: System, a: Anchor) {
    exists c :: c in Cores(s.table) && Names(a, c)
  }

  /** Some persisted anchor's last event is at or above the key. */
  ghost predicate Covered(s: System, k: Key) {
    exists i :: 0 <= i < |s.anchors| && KeyLe(k, Key(s.anchors[i].lastEventTs, s.anchors[i].lastEventId))
  }

  ghost predicate JobSound(s: System, p: Phase) {
    match p
    case Idle => true
    case HeadRead(head) => head in Cores(s.table)
    case Written(head) => head in Cores(s.table) && Anchored(s, head)
  }

  ghost predicate JobsSound(s: System) {
    forall j :: j in s.jobs ==> JobSound(s, s.jobs[j])
  }

  ghost predicate AnchorsSound(s: System) {
    forall i :: 0 <= i < |s.anchors| ==> NamesARow(s, s.anchors[i])
  }

  ghost predicate MarksCovered(s: System) {
    forall i :: 0 <= i < |s.table| && s.table[i].anchored ==> Covered(s, KeyOf(s.table[i].core))
  }

  ghost predicate Inv(s: System) {
    && WellFormed(s.table)
    && JobsSound(s)
    && AnchorsSound(s)
    && MarksCovered(s)
    && s.marked == CountAnchored(s.table)
  }

  /** More rows and more anchors keep everything said of jobs and anchors. */
  ghost predicate Extends(s: System, u: System) {
    Cores(s.table) <= Cores(u.table) && |s.anchors| <= |u.anchors| && u.anchors[..|s.anchors|] == s.anchors
  }

  /** Anchors and jobs survive a step that leaves them alone and only adds rows. */
  lemma SoundGrows(s: System, u: System)
    requires JobsSound(s) && AnchorsSound(s)
    requires Extends(s, u) && u.jobs == s.jobs && u.anchors == s.anchors
    ensures JobsSound(u) && AnchorsSound(u)
  {
  }

  // ---------------------------------------------------------------- every move keeps it

  lemma PutKeeps(rowHash: RowHash, s: System, core: Core, hold: bool)
    requires Inv(s)
    ensures Inv(Next(rowHash, s, PutEvent(core, hold)))
  {
    if !HasId(s.table, core.id) {
      InsertKeeps(s, Link(s.table, Event(core, false, hold), BoundHash(rowHash, core)));
    }
  }

  lemma InsertKeeps(s: System, row: Event)
    requires Inv(s) && !HasId(s.table, row.core.id) && !row.anchored
    ensures Inv(s.(table := InsertSorted(s.table, row)))
  {
    var u := s.(table := InsertSorted(s.table, row));
    InsertSortedWellFormed(s.table, row);
    SoundGrows(s, u);
    InsertCountsNothing(s.table, row);
    MarksSurviveInsert(s, u, row);
  }

  lemma InsertCountsNothing(t: Table, row: Event)
    requires !row.anchored
    ensures CountAnchored(InsertSorted(t, row)) == CountAnchored(t)
  {
    InsertCounts(t, row, |t| + 1);
  }

  lemma MarksSurviveInsert(s: System, u: System, row: Event)
    requires MarksCovered(s) && !row.anchored && u.anchors == s.anchors && u.table == InsertSorted(s.table, row)
    ensures MarksCovered(u)
  {
  }

  lemma HoldKeeps(rowHash: RowHash, s: System, id: Bytes, hold: bool)
    requires Inv(s)
    ensures Inv(Next(rowHash, s, HoldEvent(id, hold)))
  {
    var u := Next(rowHash, s, HoldEvent(id, hold));
    SameCoresKeep(s.table, u.table);
    SoundGrows(s, u);
    HoldCounts(s.table, id, hold, |s.table|);
    forall i | 0 <= i < |u.table| && u.table[i].anchored ensures Covered(u, KeyOf(u.table[i].core)) {
      assert Covered(s, KeyOf(s.table[i].core));
    }
  }

  lemma ReadHeadKeeps(rowHash: RowHash, s: System, job: nat)
    requires Inv(s)
    ensures Inv(Next(rowHash, s, ReadHead(job)))
  {
  }

  lemma MarksGrow(s: System, u: System)
    requires MarksCovered(s) && u.table == s.table && Extends(s, u)
    ensures MarksCovered(u)
  {
  }

  lemma GiveUpKeeps(rowHash: RowHash, s: System, job: nat)
    requires Inv(s)
    ensures Inv(Next(rowHash, s, GiveUp(job)))
  {
  }

  lemma WriteKeeps(rowHash: RowHash, s: System, m: Move)
    requires Inv(s) && m.WriteAnchor?
    ensures Inv(Next(rowHash, s, m))
  {
    var u, p := Next(rowHash, s, m), PhaseOf(s, m.job);
    if p.HeadRead? && |p.head.thisHash| == 32 {
      assert Names(u.anchors[|s.anchors|], p.head);
      MarksGrow(s, u);
    }
  }

  lemma MarkKeeps(rowHash: RowHash, s: System, job: nat)
    requires Inv(s)
    ensures Inv(Next(rowHash, s, MarkRows(job)))
  {
    var u, p := Next(rowHash, s, MarkRows(job)), PhaseOf(s, job);
    if p.Written? {
      SameCoresKeep(s.table, u.table);
      MarkCounts(s.table, KeyOf(p.head), |s.table|);
      NewMarksCovered(s, u, p.head);
    }
  }

  lemma NewMarksCovered(s: System, u: System, head: Core)
    requires MarksCovered(s) && Anchored(s, head)
    requires u.anchors == s.anchors && u.table == Mark(s.table, KeyOf(head))
    ensures MarksCovered(u)
  {
  }

  lemma MoveKeeps(rowHash: RowHash, s: System, m: Move)
    requires Inv(s)
    ensures Inv(Next(rowHash, s, m))
  {
    match m
    case PutEvent(core, hold) => PutKeeps(rowHash, s, core, hold);
    case HoldEvent(id, hold) => HoldKeeps(rowHash, s, id, hold);
    case ReadHead(j) => ReadHeadKeeps(rowHash, s, j);
    case WriteAnchor(_, _, _, _, _, _, _) => WriteKeeps(rowHash, s, m);
    case MarkRows(j) => MarkKeeps(rowHash, s, j);
    case GiveUp(j) => GiveUpKeeps(rowHash, s, j);
  }

  /**
   * Under every interleaving: each anchored row lies at or below the last event of a persisted anchor, every anchor
   * names a stored row with its root, and the marking calls have returned exactly the number of anchored rows.
   */
  lemma {:induction false} AnchoringInvariant(rowHash: RowHash, s: System, moves: seq<Move>)
    requires Inv(s)
    ensures Inv(RunMoves(rowHash, s, moves))
    decreases |moves|
  {
    if moves == [] {
    } else {
      MoveKeeps(rowHash, s, moves[0]);
      AnchoringInvariant(rowHash, Next(rowHash, s, moves[0]), moves[1..]);
    }
  }

  lemma EveryRunIsSound(rowHash: RowHash, moves: seq<Move>)
    ensures Inv(RunMoves(rowHash, START, moves))
  {
    AnchoringInvariant(rowHash, START, moves);
  }

  lemma MoveAppends(rowHash: RowHash, s: System, m: Move)
    ensures s.anchors <= Next(rowHash, s, m).anchors
  {
  }

  lemma {:induction false} AnchorsPersist(rowHash: RowHash, s: System, moves: seq<Move>)
    ensures s.anchors <= RunMoves(rowHash, s, moves).anchors
    decreases |moves|
  {
    if moves == [] {
    } else {
      MoveAppends(rowHash, s, moves[0]);
      AnchorsPersist(rowHash, Next(rowHash, s, moves[0]), moves[1..]);
    }
  }

  lemma NamedRowMatches(t: Table, a: Anchor, c: Core)
    requires WellFormed(t) && c in Cores(t) && Names(a, c)
    ensures !Mismatched(t, a)
  {
    var k :| 0 <= k < |t| && t[k].core == c;
    FindAt(t, k, 0);
  }

  /** An anchor a job has written in any reachable state is not a mismatch there or in any later state. */
  lemma JobAnchorsNeverMismatch(rowHash: RowHash, moves: seq<Move>, later: seq<Move>, i: nat)
    requires i < |RunMoves(rowHash, START, moves).anchors|
    ensures var s := RunMoves(rowHash, START, moves);
            !Mismatched(RunMoves(rowHash, s, later).table, s.anchors[i])
  {
    var s := RunMoves(rowHash, START, moves);
    var u := RunMoves(rowHash, s, later);
    EveryRunIsSound(rowHash, moves);
    AnchoringInvariant(rowHash, s, later);
    AnchorsPersist(rowHash, s, later);
    assert u.anchors[i] == s.anchors[i] && NamesARow(u, u.anchors[i]);
    var c :| c in Cores(u.table) && Names(u.anchors[i], c);
    NamedRowMatches(u.table, u.anchors[i], c);
  }

  // ---------------------------------------------------------------- one job alone

  /** The moves of one round: a failure before the write makes the job give up. */
  function RoundMoves(j: nat, r: RunResult, now: Time): seq<Move> {
    if r.Done? then
      [ReadHead(j), WriteAnchor(j, r.anchor.signature, r.anchor.kmsKeyId, r.anchor.notaryUrl, r.anchor.eventCount,
                                now, r.anchor.id),
       MarkRows(j)]
    else [ReadHead(j), GiveUp(j)]
  }

  lemma TwoMoves(rowHash: RowHash, s: System, moves: seq<Move>)
    requires |moves| >= 2
    ensures RunMoves(rowHash, s, moves)
         == RunMoves(rowHash, Next(rowHash, Next(rowHash, s, moves[0]), moves[1]), moves[2..])
  {
  }

  lemma RunThree(rowHash: RowHash, s: System, moves: seq<Move>)
    requires |moves| == 3
    ensures RunMoves(rowHash, s, moves) == Next(rowHash, Next(rowHash, Next(rowHash, s, moves[0]), moves[1]), moves[2])
  {
    var u := Next(rowHash, Next(rowHash, s, moves[0]), moves[1]);
    TwoMoves(rowHash, s, moves);
    assert moves[2..] == [moves[2]];
    assert RunMoves(rowHash, u, [moves[2]]) == Next(rowHash, u, moves[2]);
  }

  /** Undisturbed, the sub-steps of a job leave what one call of AnchorJob.Run leaves in both stores. */
  lemma OneRound(rowHash: RowHash, s: System, job: AnchorJob, j: nat, now: Time, newId: Bytes)
    requires PhaseOf(s, j).Idle?
    ensures var r := job.Outcome(s.table, newId);
            var u := RunMoves(rowHash, s, RoundMoves(j, r, now));
            && u.anchors == s.anchors + (if r.Done? then [r.anchor.(anchoredAt := now)] else [])
            && u.table == (if r.Done? then Mark(s.table, Key(r.anchor.lastEventTs, r.anchor.lastEventId)) else s.table)
            && u.marked == s.marked + (if r.Done? then CountAnchored(u.table) - CountAnchored(s.table) else 0)
            && PhaseOf(u, j).Idle?
  {
    var r := job.Outcome(s.table, newId);
    if !r.Done? {
      TwoMoves(rowHash, s, RoundMoves(j, r, now));
    } else {
      RunThree(rowHash, s, RoundMoves(j, r, now));
      MarkCounts(s.table, Key(r.anchor.lastEventTs, r.anchor.lastEventId), |s.table|);
    }
  }
}
