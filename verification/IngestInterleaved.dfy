/** Deliveries handled side by side: other calls may fall between the object put and the index insert of one. */
module IngestInterleaved {
  import opened ByteStrings
  import opened Store
  import opened Encoding
  import opened Tables
  import opened Ingest
  import opened IngestRuns
  import O = ObjectStore

  /**
   * `waiting` holds the deliveries that are past the object store and not yet at the index, `source` the delivery
   * that inserted the row with an id, `log` the calls of InsertChained in the order they were made.
   */
  datatype Service = Service(world: World, waiting: map<nat, Delivery>, source: map<Bytes, Delivery>, log: seq<Step>)

  const IDLE := Service(EMPTY, map[], map[], [])

  datatype Move =
    | Arrive(x: nat, a: Delivery)
    | Finish(x: nat)

  /** Everything up to the object put: what IngestOne does before it inserts. */
  function AfterArrival(d: Deps, s: Service, x: nat, a: Delivery): Service {
    var p := Prep(d, a);
    if x in s.waiting then s
    else if p.Refuse? then s.(world := s.world.(dead := Bury(At(d, a), a.m, s.world.dead, p.reason)))
    else if !WritesObject(At(d, a), p) then s.(waiting := s.waiting[x := a])
    else if O.Refused(s.world.objects, O.Path(d.bucket, p.env.id), a.now) then s
    else
      var objects := O.AfterPut(s.world.objects, d.bucket, Options(d, p.env.id), p.body, a.now);
      s.(world := s.world.(objects := objects), waiting := s.waiting[x := a])
  }

  /** The insert, unless the event store fails. */
  function AfterFinish(d: Deps, s: Service, x: nat): Service {
    if x !in s.waiting then s
    else
      var a, t := s.waiting[x], s.world.table;
      var p := Prep(d, a);
      if a.storeFails || p.Refuse? then s.(waiting := s.waiting - {x})
      else
        var row := RowOf(At(d, a), p);
        s.(world := s.world.(table := InsertLinked(t, row, BoundHash(CanonicalHash(d.sha), row.core))),
           waiting := s.waiting - {x},
           source := if HasId(t, p.env.id) then s.source else s.source[p.env.id := a],
           log := s.log + [Insert(row)])
  }

  function Next(d: Deps, s: Service, m: Move): Service {
    match m
    case Arrive(x, a) => AfterArrival(d, s, x, a)
    case Finish(x) => AfterFinish(d, s, x)
  }

  /** The service after the first `n` moves. */
  function AfterMoves(d: Deps, moves: seq<Move>, n: nat): Service
    requires n <= |moves|
  {
    if n == 0 then IDLE else Next(d, AfterMoves(d, moves, n - 1), moves[n - 1])
  }

  lemma FinishInserts(d: Deps, s: Service, x: nat, a: Delivery)
    requires x !in s.waiting && Prep(d, a).Ready?
    requires !(WritesObject(At(d, a), Prep(d, a))
               && O.Refused(s.world.objects, O.Path(d.bucket, Prep(d, a).env.id), a.now))
    ensures AfterFinish(d, AfterArrival(d, s, x, a), x).world == StepFrom(d, s.world, a).0
  {
  }

  /** Undisturbed, the two moves do what one delivery does. */
  lemma ArriveAndFinish(d: Deps, s: Service, x: nat, a: Delivery)
    requires x !in s.waiting
    ensures AfterFinish(d, AfterArrival(d, s, x, a), x).world == StepFrom(d, s.world, a).0
  {
    var p := Prep(d, a);
    if p.Ready? && !(WritesObject(At(d, a), p) && O.Refused(s.world.objects, O.Path(d.bucket, p.env.id), a.now)) {
      FinishInserts(d, s, x, a);
    } else {
      assert AfterArrival(d, s, x, a).waiting == s.waiting;
    }
  }

  /** The index is what the calls of InsertChained give in the order they were made. */
  lemma {:induction false} InterleavedIngestIsARun(d: Deps, moves: seq<Move>, n: nat)
    requires n <= |moves|
    ensures var s := AfterMoves(d, moves, n);
            WellFormed(s.world.table) && s.world.table == Run(CanonicalHash(d.sha), [], s.log)
  {
    if n == 0 {
    } else {
      InterleavedIngestIsARun(d, moves, n - 1);
      MoveInserts(d, AfterMoves(d, moves, n - 1), moves[n - 1]);
    }
  }

  lemma MoveInserts(d: Deps, s: Service, m: Move)
    requires WellFormed(s.world.table) && s.world.table == Run(CanonicalHash(d.sha), [], s.log)
    ensures var u := Next(d, s, m);
            WellFormed(u.world.table) && u.world.table == Run(CanonicalHash(d.sha), [], u.log)
  {
    var u := Next(d, s, m);
    if |u.log| > |s.log| {
      ApplyKeeps(CanonicalHash(d.sha), s.world.table, u.log[|s.log|]);
      RunAppend(CanonicalHash(d.sha), [], s.log, u.log[|s.log|]);
    }
  }

  ghost predicate Delivered(moves: seq<Move>, n: nat, a: Delivery)
    requires n <= |moves|
  {
    exists i :: 0 <= i < n && IsArrival(moves[i], a)
  }

  ghost predicate IsArrival(m: Move, a: Delivery) {
    m.Arrive? && m.a == a
  }

  ghost predicate AllDelivered(moves: seq<Move>, n: nat, s: Service)
    requires n <= |moves|
  {
    && (forall x :: x in s.waiting ==> Delivered(moves, n, s.waiting[x]))
    && (forall id :: id in s.source ==> Delivered(moves, n, s.source[id]))
  }

  lemma StillDelivered(moves: seq<Move>, n: nat, s: Service)
    requires n < |moves| && AllDelivered(moves, n, s)
    ensures AllDelivered(moves, n + 1, s)
  {
  }

  lemma MoveDelivers(d: Deps, moves: seq<Move>, n: nat, s: Service)
    requires 0 < n <= |moves| && AllDelivered(moves, n, s)
    ensures AllDelivered(moves, n, Next(d, s, moves[n - 1]))
  {
  }

  /** Nothing waits and no row has a source but what arrived during the run. */
  lemma {:induction false} SourcesWereDelivered(d: Deps, moves: seq<Move>, n: nat)
    requires n <= |moves|
    ensures AllDelivered(moves, n, AfterMoves(d, moves, n))
  {
    if n == 0 {
    } else {
      SourcesWereDelivered(d, moves, n - 1);
      StillDelivered(moves, n - 1, AfterMoves(d, moves, n - 1));
      MoveDelivers(d, moves, n, AfterMoves(d, moves, n - 1));
    }
  }

  // ---------------------------------------------------------------- objects are never overwritten

  predicate ArrivesAt(m: Move, now: Time) {
    m.Arrive? && m.a.now == now
  }

  /** Legal hold by default, or a retention period that outlasts the run. */
  ghost predicate RetainedThroughout(d: Deps, moves: seq<Move>) {
    d.legalHoldDefault
    || (1 <= d.retentionDays <= O.MAX_RETENTION_DAYS
        && forall i, j :: 0 <= i < j < |moves| && moves[i].Arrive? && moves[j].Arrive? ==>
                            moves[j].a.now < moves[i].a.now + d.retentionDays * O.DAY)
  }

  ghost predicate PutDuring(d: Deps, moves: seq<Move>, n: nat, o: O.Object)
    requires n <= |moves|
  {
    && o.legalHold == d.legalHoldDefault && o.retentionDays == d.retentionDays
    && exists i :: 0 <= i < n && ArrivesAt(moves[i], o.createdAt)
  }

  ghost predicate AllPutDuring(d: Deps, moves: seq<Move>, n: nat, objects: O.Objects)
    requires n <= |moves|
  {
    forall p :: p in objects ==> PutDuring(d, moves, n, objects[p])
  }

  /** What was there stays as it is, and what is new was put now. */
  ghost predicate Grows(d: Deps, before: O.Objects, after: O.Objects, now: Time) {
    && (forall p :: p in before ==> p in after && after[p] == before[p])
    && (forall p :: p in after && p !in before ==>
          after[p].createdAt == now && after[p].legalHold == d.legalHoldDefault
          && after[p].retentionDays == d.retentionDays)
  }

  lemma PutIsRetained(d: Deps, moves: seq<Move>, n: nat, o: O.Object)
    requires n < |moves| && RetainedThroughout(d, moves) && PutDuring(d, moves, n, o) && moves[n].Arrive?
    ensures O.IsRetained(o, moves[n].a.now)
  {
  }

  lemma ArrivalGrows(d: Deps, s: Service, x: nat, a: Delivery)
    requires forall p :: p in s.world.objects ==> O.IsRetained(s.world.objects[p], a.now)
    ensures Grows(d, s.world.objects, AfterArrival(d, s, x, a).world.objects, a.now)
  {
  }

  lemma GrowingStaysPut(d: Deps, moves: seq<Move>, n: nat, before: O.Objects, after: O.Objects)
    requires n < |moves| && moves[n].Arrive? && AllPutDuring(d, moves, n, before)
    requires Grows(d, before, after, moves[n].a.now)
    ensures AllPutDuring(d, moves, n + 1, after)
  {
  }

  lemma FinishKeepsObjects(d: Deps, s: Service, x: nat)
    ensures AfterFinish(d, s, x).world.objects == s.world.objects
  {
  }

  lemma StillPut(d: Deps, moves: seq<Move>, n: nat, objects: O.Objects)
    requires n < |moves| && AllPutDuring(d, moves, n, objects)
    ensures AllPutDuring(d, moves, n + 1, objects)
  {
  }

  ghost predicate ObjectsKept(before: O.Objects, after: O.Objects) {
    forall p :: p in before ==> p in after && after[p] == before[p]
  }

  lemma MoveKeepsObjects(d: Deps, moves: seq<Move>, n: nat, s: Service)
    requires n < |moves| && RetainedThroughout(d, moves) && AllPutDuring(d, moves, n, s.world.objects)
    ensures ObjectsKept(s.world.objects, Next(d, s, moves[n]).world.objects)
    ensures AllPutDuring(d, moves, n + 1, Next(d, s, moves[n]).world.objects)
  {
    match moves[n]
    case Arrive(x, a) =>
      forall p | p in s.world.objects ensures O.IsRetained(s.world.objects[p], a.now) {
        PutIsRetained(d, moves, n, s.world.objects[p]);
      }
      ArrivalGrows(d, s, x, a);
      GrowingStaysPut(d, moves, n, s.world.objects, AfterArrival(d, s, x, a).world.objects);
    case Finish(x) =>
      FinishKeepsObjects(d, s, x);
      StillPut(d, moves, n, s.world.objects);
  }

  // ---------------------------------------------------------------- rows and their objects

  /** A waiting delivery's object is there, with its body. */
  ghost predicate HasWritten(d: Deps, objects: O.Objects, a: Delivery) {
    var p := Prep(d, a);
    && p.Ready?
    && (WritesObject(At(d, a), p) ==>
          var path := O.Path(d.bucket, p.env.id);
          path in objects && objects[path].body == p.body)
  }

  ghost predicate AllHaveWritten(d: Deps, s: Service) {
    forall x :: x in s.waiting ==> HasWritten(d, s.world.objects, s.waiting[x])
  }

  /** The row is the delivery's, but for the links. */
  predicate IsRowOf(d: Deps, a: Delivery, c: Core) {
    Prep(d, a).Ready? && RowOf(At(d, a), Prep(d, a)).core.(prevHash := c.prevHash, thisHash := c.thisHash) == c
  }

  /** The row is the delivery's and its object holds what the delivery wrote. */
  ghost predicate CameFrom(d: Deps, objects: O.Objects, c: Core, a: Delivery) {
    && IsRowOf(d, a, c)
    && (c.payloadRef != [] ==>
          var path := O.Path(d.bucket, c.payloadRef);
          path in objects && Wrote(d, a, c, objects[path]))
  }

  ghost predicate RowsHaveSource(d: Deps, s: Service) {
    forall c :: c in Cores(s.world.table) ==> c.id in s.source && CameFrom(d, s.world.objects, c, s.source[c.id])
  }

  ghost predicate Backed(d: Deps, s: Service) {
    WellFormed(s.world.table) && AllHaveWritten(d, s) && RowsHaveSource(d, s)
  }

  lemma KeptObjectsKeep(d: Deps, s: Service, u: Service)
    requires Backed(d, s) && ObjectsKept(s.world.objects, u.world.objects)
    requires u.world.table == s.world.table && u.source == s.source
    requires forall x :: x in u.waiting ==> x in s.waiting && u.waiting[x] == s.waiting[x]
    ensures Backed(d, u)
  {
  }

  lemma ArrivalHasWritten(d: Deps, s: Service, x: nat, a: Delivery)
    requires x !in s.waiting && x in AfterArrival(d, s, x, a).waiting
    ensures HasWritten(d, AfterArrival(d, s, x, a).world.objects, a)
  {
  }

  lemma ArrivalKeepsBacked(d: Deps, s: Service, x: nat, a: Delivery)
    requires Backed(d, s) && ObjectsKept(s.world.objects, AfterArrival(d, s, x, a).world.objects)
    ensures Backed(d, AfterArrival(d, s, x, a))
  {
    var u := AfterArrival(d, s, x, a);
    KeptObjectsKeep(d, s, u.(waiting := s.waiting));
    if x !in s.waiting && x in u.waiting {
      ArrivalHasWritten(d, s, x, a);
    }
  }

  /** The row a waiting delivery inserts is backed by the object it has written. */
  lemma NewRowCameFrom(d: Deps, s: Service, a: Delivery)
    requires HasWritten(d, s.world.objects, a)
    ensures CameFrom(d, s.world.objects, NewCore(d, s.world, a), a)
    ensures NewCore(d, s.world, a).id == Prep(d, a).env.id
  {
  }

  lemma FinishKeepsBacked(d: Deps, s: Service, x: nat)
    requires Backed(d, s)
    ensures Backed(d, AfterFinish(d, s, x))
  {
    var u := AfterFinish(d, s, x);
    if x in s.waiting {
      var a := s.waiting[x];
      assert HasWritten(d, s.world.objects, a);
      KeptObjectsKeep(d, s, s.(waiting := s.waiting - {x}));
      if !a.storeFails && !HasId(s.world.table, Prep(d, a).env.id) {
        InsertKeepsBacked(d, s, a, u);
      }
    }
  }

  lemma InsertKeepsBacked(d: Deps, s: Service, a: Delivery, u: Service)
    requires Backed(d, s) && HasWritten(d, s.world.objects, a) && !HasId(s.world.table, Prep(d, a).env.id)
    requires var row := RowOf(At(d, a), Prep(d, a));
             u.world == s.world.(table := InsertLinked(s.world.table, row, BoundHash(CanonicalHash(d.sha), row.core)))
    requires u.source == s.source[Prep(d, a).env.id := a]
    requires forall x :: x in u.waiting ==> x in s.waiting && u.waiting[x] == s.waiting[x]
    ensures Backed(d, u)
  {
    var row := RowOf(At(d, a), Prep(d, a));
    InsertSortedWellFormed(s.world.table, Link(s.world.table, row, BoundHash(CanonicalHash(d.sha), row.core)));
    NewRowCameFrom(d, s, a);
    forall c | c in Cores(u.world.table)
      ensures c.id in u.source && CameFrom(d, u.world.objects, c, u.source[c.id])
    {
      if c in Cores(s.world.table) {
        assert CameFrom(d, s.world.objects, c, s.source[c.id]);
        assert HasId(s.world.table, c.id);
      } else {
        assert c == NewCore(d, s.world, a);
      }
    }
  }

  lemma {:induction false} InterleavedIndexIsBacked(d: Deps, moves: seq<Move>, n: nat)
    requires n <= |moves| && RetainedThroughout(d, moves)
    ensures Backed(d, AfterMoves(d, moves, n))
    ensures AllPutDuring(d, moves, n, AfterMoves(d, moves, n).world.objects)
  {
    if n == 0 {
    } else {
      InterleavedIndexIsBacked(d, moves, n - 1);
      BackedMove(d, moves, n - 1, n);
    }
  }

  lemma BackedMove(d: Deps, moves: seq<Move>, n: nat, next: nat)
    requires n < |moves| && next == n + 1 && RetainedThroughout(d, moves)
    requires Backed(d, AfterMoves(d, moves, n)) && AllPutDuring(d, moves, n, AfterMoves(d, moves, n).world.objects)
    ensures Backed(d, AfterMoves(d, moves, next))
    ensures AllPutDuring(d, moves, next, AfterMoves(d, moves, next).world.objects)
  {
    var s := AfterMoves(d, moves, n);
    MoveKeepsObjects(d, moves, n, s);
    match moves[n]
    case Arrive(x, a) => ArrivalKeepsBacked(d, s, x, a);
    case Finish(x) => FinishKeepsBacked(d, s, x);
  }

  /** The stored bytes are the redaction, under the delivery's policy, of a body with the row's payload_hash. */
  ghost predicate BoundBy(d: Deps, a: Delivery, c: Core, stored: Bytes) {
    exists original: Bytes :: d.sha(original) == c.payloadHash && RedactionOf(a.redactor, c, original, stored)
  }

  /**
   * However concurrent deliveries interleave, while retention is in force every payload_ref leads to an object bound
   * to the row's payload_hash by the delivery that inserted the row; unredacted objects hash to it.
   */
  lemma InterleavedPayloadsAreBound(d: Deps, moves: seq<Move>, c: Core)
    requires RetainedThroughout(d, moves)
    requires c in Cores(AfterMoves(d, moves, |moves|).world.table) && c.payloadRef != []
    ensures var s := AfterMoves(d, moves, |moves|);
            var path := O.Path(d.bucket, c.payloadRef);
            && path in s.world.objects && c.id in s.source
            && Delivered(moves, |moves|, s.source[c.id]) && IsRowOf(d, s.source[c.id], c)
            && BoundBy(d, s.source[c.id], c, s.world.objects[path].body)
            && (!c.redacted ==> d.sha(s.world.objects[path].body) == c.payloadHash)
  {
    var s := AfterMoves(d, moves, |moves|);
    InterleavedIndexIsBacked(d, moves, |moves|);
    SourcesWereDelivered(d, moves, |moves|);
    var a := s.source[c.id];
    assert CameFrom(d, s.world.objects, c, a);
    WrittenBody(At(d, a), Prep(d, a), a.m.value);
    assert RedactionOf(a.redactor, c, Prep(d, a).env.payload, s.world.objects[O.Path(d.bucket, c.payloadRef)].body);
  }
}
