/** Whole runs of the ingest pipeline over the event index and the object store. */
module IngestRuns {
  import opened ByteStrings
  import opened Store
  import opened Encoding
  import opened Tables
  import opened Envelopes
  import opened Ingest
  import opened Paging
  import O = ObjectStore

  /** One message as it is processed: the policy in force, the clock, and whether the event store fails. */
  datatype Delivery = Delivery(redactor: Option<Redactor>, m: Message, now: Time, storeFails: bool)

  const EMPTY := World([], map[], [])

  function At(d: Deps, x: Delivery): Deps {
    d.(redactor := x.redactor)
  }

  function StepFrom(d: Deps, w: World, x: Delivery): (World, Outcome) {
    IngestOne(At(d, x), w, x.m, x.now, x.storeFails)
  }

  /** The world after the first `n` deliveries. */
  function After(d: Deps, xs: seq<Delivery>, n: nat): World
    requires n <= |xs|
  {
    if n == 0 then EMPTY else StepFrom(d, After(d, xs, n - 1), xs[n - 1]).0
  }

  function OutcomeOf(d: Deps, xs: seq<Delivery>, i: nat): Outcome
    requires i < |xs|
  {
    StepFrom(d, After(d, xs, i), xs[i]).1
  }

  function Prep(d: Deps, x: Delivery): Prepared {
    Prepare(At(d, x), x.m.value)
  }

  /** A delivery whose insert fails adds no row, and none is reported as inserted or as a duplicate. */
  lemma FailedDelivery(d: Deps, w: World, x: Delivery)
    requires x.storeFails
    ensures StepFrom(d, w, x).1.Rejected? && StepFrom(d, w, x).0.table == w.table
    ensures Prep(d, x).Ready? && !(WritesObject(At(d, x), Prep(d, x))
                                   && O.Refused(w.objects, O.Path(d.bucket, Prep(d, x).env.id), x.now)) ==>
              StepFrom(d, w, x).1 == Rejected(InsertFailed)
  {
  }

  // ---------------------------------------------------------------- conservation

  /** Rejections that reach the dead-letter sink; failed writes do not. */
  predicate Buries(r: Reason) {
    r in {DecodeFailed, PayloadHashMismatch, RedactionFailed, PayloadHashFormat}
  }

  function CountInserted(d: Deps, xs: seq<Delivery>, n: nat): nat
    requires n <= |xs|
  {
    if n == 0 then 0 else CountInserted(d, xs, n - 1) + if OutcomeOf(d, xs, n - 1).Inserted? then 1 else 0
  }

  /** The dead letters of the first `n` deliveries, read off their outcomes. */
  function Buried(d: Deps, xs: seq<Delivery>, n: nat): seq<DeadLetter>
    requires n <= |xs|
  {
    if n == 0 then []
    else
      var o, m := OutcomeOf(d, xs, n - 1), xs[n - 1].m;
      Buried(d, xs, n - 1)
      + if d.hasDeadLetters && o.Rejected? && Buries(o.reason)
        then [DeadLetter(d.topic, m.partition, m.offset, m.key, m.value, o.reason)] else []
  }

  lemma NoInsertNoChange(d: Deps, w: World, x: Delivery)
    ensures StepFrom(d, w, x).1.Inserted? || StepFrom(d, w, x).0.table == w.table
  {
  }

  lemma StepAccounts(d: Deps, w: World, x: Delivery)
    ensures var (v, o) := StepFrom(d, w, x);
            && |v.table| == |w.table| + (if o.Inserted? then 1 else 0)
            && v.dead == w.dead + if d.hasDeadLetters && o.Rejected? && Buries(o.reason)
                                  then [DeadLetter(d.topic, x.m.partition, x.m.offset, x.m.key, x.m.value, o.reason)]
                                  else []
  {
  }

  /** The index holds one row per accepted message, and the sink exactly the messages turned away before any write. */
  lemma {:induction false} Conservation(d: Deps, xs: seq<Delivery>, n: nat)
    requires n <= |xs|
    ensures |After(d, xs, n).table| == CountInserted(d, xs, n)
    ensures After(d, xs, n).dead == Buried(d, xs, n)
  {
    if n == 0 {
    } else {
      Conservation(d, xs, n - 1);
      StepAccounts(d, After(d, xs, n - 1), xs[n - 1]);
    }
  }

  lemma {:induction false} TableStaysWellFormed(d: Deps, xs: seq<Delivery>, n: nat)
    requires n <= |xs|
    ensures WellFormed(After(d, xs, n).table)
  {
    if n == 0 {
    } else {
      TableStaysWellFormed(d, xs, n - 1);
      StepKeepsTable(d, After(d, xs, n - 1), xs[n - 1]);
    }
  }

  lemma StepKeepsTable(d: Deps, w: World, x: Delivery)
    requires WellFormed(w.table)
    ensures var t := StepFrom(d, w, x).0.table;
            && WellFormed(t)
            && Cores(w.table) <= Cores(t)
            && (t == w.table
                || (Prep(d, x).Ready? && !HasId(w.table, Prep(d, x).env.id)
                    && Cores(t) == Cores(w.table) + {NewCore(d, w, x)}))
  {
    var p := Prep(d, x);
    if p.Ready? && !HasId(w.table, p.env.id) {
      var row := RowOf(At(d, x), p);
      InsertSortedWellFormed(w.table, Link(w.table, row, BoundHash(CanonicalHash(d.sha), row.core)));
    }
  }

  /** The row a fresh delivery adds. */
  function NewCore(d: Deps, w: World, x: Delivery): Core
    requires Prep(d, x).Ready?
  {
    var row := RowOf(At(d, x), Prep(d, x));
    Link(w.table, row, BoundHash(CanonicalHash(d.sha), row.core)).core
  }

  /** The new row commits to the envelope, the payload hash and the head it found. */
  lemma NewRowCommits(d: Deps, w: World, x: Delivery)
    requires Prep(d, x).Ready?
    ensures var c, p := NewCore(d, w, x), Prep(d, x);
            && HashedOf(c) == Hashed(p.env.id, p.env.ts, p.env.sourceService, p.env.actorId, p.env.action,
                                     p.env.targetType, p.env.targetId, p.payloadHash, HeadHash(w.table))
            && c.thisHash == d.sha(Canonical(HashedOf(c)))
  {
    var row := RowOf(At(d, x), Prep(d, x));
    var c := NewCore(d, w, x);
    assert HashedOf(c) == HashedOf(row.core.(prevHash := HeadHash(w.table)));
  }

  // ---------------------------------------------------------------- the index is backed by the object store

  /** Delivery `i` inserted the row. */
  predicate Stored(d: Deps, xs: seq<Delivery>, i: nat, c: Core)
    requires i < |xs|
  {
    var o := OutcomeOf(d, xs, i);
    o.Inserted? && o.row.core == c
  }

  /** What delivery `x` writes is the row's payload: the object under its payload_ref. */
  ghost predicate Wrote(d: Deps, x: Delivery, c: Core, o: O.Object) {
    var p := Prep(d, x);
    && WritesObject(At(d, x), p)
    && p.env.id == c.id && p.env.sourceService == c.sourceService && p.env.action == c.action
    && p.payloadHash == c.payloadHash && p.redacted == c.redacted
    && p.body == o.body
  }

  ghost predicate BackedBy(d: Deps, xs: seq<Delivery>, n: nat, objects: O.Objects, c: Core)
    requires n <= |xs|
  {
    && O.Path(d.bucket, c.payloadRef) in objects
    && exists i :: 0 <= i < n && Stored(d, xs, i, c) && Wrote(d, xs[i], c, objects[O.Path(d.bucket, c.payloadRef)])
  }

  ghost predicate Backed(d: Deps, xs: seq<Delivery>, n: nat, w: World)
    requires n <= |xs|
  {
    forall c :: c in Cores(w.table) && c.payloadRef != [] ==> c.payloadRef == c.id && BackedBy(d, xs, n, w.objects, c)
  }

  ghost predicate MadeBy(d: Deps, xs: seq<Delivery>, n: nat, o: O.Object)
    requires n <= |xs|
  {
    && o.legalHold == d.legalHoldDefault && o.retentionDays == d.retentionDays
    && exists i :: 0 <= i < n && o.createdAt == xs[i].now
  }

  ghost predicate AllMade(d: Deps, xs: seq<Delivery>, n: nat, objects: O.Objects)
    requires n <= |xs|
  {
    forall p :: p in objects ==> MadeBy(d, xs, n, objects[p])
  }

  /** Legal hold by default, or a retention period that outlasts the run. */
  ghost predicate RetentionInForce(d: Deps, xs: seq<Delivery>) {
    d.legalHoldDefault
    || (1 <= d.retentionDays <= O.MAX_RETENTION_DAYS
        && forall i, j :: 0 <= i < j < |xs| ==> xs[j].now < xs[i].now + d.retentionDays * O.DAY)
  }

  lemma StillRetained(d: Deps, xs: seq<Delivery>, n: nat, o: O.Object)
    requires n < |xs| && RetentionInForce(d, xs) && MadeBy(d, xs, n, o)
    ensures O.IsRetained(o, xs[n].now)
  {
  }

  lemma StepMakes(d: Deps, w: World, x: Delivery)
    ensures var after := StepFrom(d, w, x).0.objects;
            forall p :: p in after ==>
              (p in w.objects && after[p] == w.objects[p])
              || (after[p].createdAt == x.now && after[p].legalHold == d.legalHoldDefault
                  && after[p].retentionDays == d.retentionDays)
  {
  }

  lemma {:induction false} AllMadeHolds(d: Deps, xs: seq<Delivery>, n: nat)
    requires n <= |xs|
    ensures AllMade(d, xs, n, After(d, xs, n).objects)
  {
    if n == 0 {
    } else {
      var before, after := After(d, xs, n - 1).objects, After(d, xs, n).objects;
      AllMadeHolds(d, xs, n - 1);
      StepMakes(d, After(d, xs, n - 1), xs[n - 1]);
      forall p | p in after ensures MadeBy(d, xs, n, after[p]) {
        if p in before && after[p] == before[p] {
          assert MadeBy(d, xs, n - 1, before[p]);
        } else {
          assert after[p].createdAt == xs[n - 1].now;
        }
      }
    }
  }

  /** While retention is in force a step adds at most the object of its own event, where there was none. */
  lemma ObjectsOnlyGrow(d: Deps, xs: seq<Delivery>, n: nat)
    requires n < |xs| && RetentionInForce(d, xs)
    ensures var before, after := After(d, xs, n).objects, After(d, xs, n + 1).objects;
            && (forall p :: p in before ==> p in after && after[p] == before[p])
            && (OutcomeOf(d, xs, n).Inserted? && WritesObject(At(d, xs[n]), Prep(d, xs[n])) ==>
                  var path := O.Path(d.bucket, Prep(d, xs[n]).env.id);
                  path in after && after[path].body == Prep(d, xs[n]).body)
  {
    var before := After(d, xs, n).objects;
    AllMadeHolds(d, xs, n);
    forall p | p in before ensures O.IsRetained(before[p], xs[n].now) {
      StillRetained(d, xs, n, before[p]);
    }
  }

  lemma KeepBacking(d: Deps, xs: seq<Delivery>, n: nat, before: O.Objects, after: O.Objects, c: Core)
    requires n < |xs| && BackedBy(d, xs, n, before, c)
    requires forall p :: p in before ==> p in after && after[p] == before[p]
    ensures BackedBy(d, xs, n + 1, after, c)
  {
    var path := O.Path(d.bucket, c.payloadRef);
    var i :| 0 <= i < n && Stored(d, xs, i, c) && Wrote(d, xs[i], c, before[path]);
    assert Wrote(d, xs[i], c, after[path]);
  }

  lemma NewRowIsBacked(d: Deps, xs: seq<Delivery>, n: nat)
    requires n < |xs| && RetentionInForce(d, xs)
    requires Prep(d, xs[n]).Ready? && OutcomeOf(d, xs, n).Inserted?
    ensures var c := NewCore(d, After(d, xs, n), xs[n]);
            c.payloadRef != [] ==> c.payloadRef == c.id && BackedBy(d, xs, n + 1, After(d, xs, n + 1).objects, c)
  {
  }

  lemma RowIsBacked(d: Deps, xs: seq<Delivery>, n: nat, c: Core)
    requires n < |xs| && RetentionInForce(d, xs)
    requires Backed(d, xs, n, After(d, xs, n))
    requires c in Cores(After(d, xs, n + 1).table) && c.payloadRef != []
    ensures c.payloadRef == c.id && BackedBy(d, xs, n + 1, After(d, xs, n + 1).objects, c)
  {
    var w, v := After(d, xs, n), After(d, xs, n + 1);
    if c in Cores(w.table) {
      ObjectsOnlyGrow(d, xs, n);
      KeepBacking(d, xs, n, w.objects, v.objects, c);
    } else {
      TableStaysWellFormed(d, xs, n);
      StepKeepsTable(d, w, xs[n]);
      NoInsertNoChange(d, w, xs[n]);
      NewRowIsBacked(d, xs, n);
    }
  }

  lemma StepIsBacked(d: Deps, xs: seq<Delivery>, n: nat, next: nat)
    requires n < |xs| && next == n + 1 && RetentionInForce(d, xs)
    requires Backed(d, xs, n, After(d, xs, n))
    ensures Backed(d, xs, next, After(d, xs, next))
  {
    var v := After(d, xs, next);
    forall c | c in Cores(v.table) && c.payloadRef != []
      ensures c.payloadRef == c.id && BackedBy(d, xs, next, v.objects, c)
    {
      RowIsBacked(d, xs, n, c);
    }
  }

  /** Over every run, with any change of policy between messages: each row that has a payload has its object. */
  lemma {:induction false} IndexIsBacked(d: Deps, xs: seq<Delivery>, n: nat)
    requires n <= |xs| && RetentionInForce(d, xs)
    ensures Backed(d, xs, n, After(d, xs, n))
  {
    if n == 0 {
    } else {
      IndexIsBacked(d, xs, n - 1);
      StepIsBacked(d, xs, n - 1, n);
    }
  }

  /** What a written body is: the payload itself, or its redaction, and always a payload with the recorded hash. */
  lemma WrittenBody(d: Deps, p: Prepared, value: Bytes)
    requires p == Prepare(d, value) && WritesObject(d, p)
    ensures p.payloadHash == d.sha(p.env.payload)
    ensures if p.redacted
            then d.redactor.Some?
                 && d.redactor.value(p.env.sourceService, p.env.action, p.env.payload) == Some((p.body, true))
            else p.body == p.env.payload
  {
    HashRoundTrip(d.sha(p.env.payload));
  }

  /** The redaction, under the policy of the delivery that inserted the row, of a body with its payload_hash. */
  ghost predicate BoundTo(d: Deps, xs: seq<Delivery>, c: Core, o: O.Object) {
    exists i, original: Bytes :: 0 <= i < |xs| && Stored(d, xs, i, c) && d.sha(original) == c.payloadHash
                          && RedactionOf(xs[i].redactor, c, original, o.body)
  }

  predicate RedactionOf(r: Option<Redactor>, c: Core, original: Bytes, stored: Bytes) {
    if c.redacted then r.Some? && r.value(c.sourceService, c.action, original) == Some((stored, true))
    else stored == original
  }

  /** Every payload_ref leads to an object bound to the row's payload_hash; unredacted objects hash to it. */
  lemma PayloadsAreBound(d: Deps, xs: seq<Delivery>, c: Core)
    requires RetentionInForce(d, xs)
    requires c in Cores(After(d, xs, |xs|).table) && c.payloadRef != []
    ensures var objects, path := After(d, xs, |xs|).objects, O.Path(d.bucket, c.payloadRef);
            && path in objects
            && BoundTo(d, xs, c, objects[path])
            && (!c.redacted ==> d.sha(objects[path].body) == c.payloadHash)
  {
    IndexIsBacked(d, xs, |xs|);
    var o := After(d, xs, |xs|).objects[O.Path(d.bucket, c.payloadRef)];
    var i :| 0 <= i < |xs| && Stored(d, xs, i, c) && Wrote(d, xs[i], c, o);
    var p := Prep(d, xs[i]);
    WrittenBody(At(d, xs[i]), p, xs[i].m.value);
    assert RedactionOf(xs[i].redactor, c, p.env.payload, o.body);
  }

  /**
   * Retention is what protects the binding.  When an indexed id is delivered again with a payload, the stored
   * object keeps its bytes exactly when it is retained or the new bytes are the same.  A retained object is left
   * alone (and the message is reported as a failed put, not as a duplicate); an unretained one is overwritten
   * while the row stays, whatever hash the row records.
   */
  lemma RedeliveryAgainstObject(d: Deps, w: World, m: Message, now: Time)
    requires var p := Prepare(d, m.value);
             WritesObject(d, p) && HasId(w.table, p.env.id) && O.Path(d.bucket, p.env.id) in w.objects
    ensures var p := Prepare(d, m.value);
            var path := O.Path(d.bucket, p.env.id);
            var (v, outcome) := IngestOne(d, w, m, now, false);
            && v.table == w.table && v.dead == w.dead && path in v.objects
            && outcome == (if O.IsRetained(w.objects[path], now) then Rejected(ObjectPutFailed) else Duplicate)
            && (v.objects[path].body == w.objects[path].body
                <==> O.IsRetained(w.objects[path], now) || p.body == w.objects[path].body)
  {
  }

  // ---------------------------------------------------------------- redelivery

  /** What a message does to the index alone. */
  function IndexOne(d: Deps, t: Table, value: Bytes): Table {
    var p := Prepare(d, value);
    if p.Refuse? then t
    else
      var row := RowOf(d, p);
      InsertLinked(t, row, BoundHash(CanonicalHash(d.sha), row.core))
  }

  function IndexTo(d: Deps, values: seq<Bytes>, n: nat): Table
    requires n <= |values|
  {
    if n == 0 then [] else IndexOne(d, IndexTo(d, values, n - 1), values[n - 1])
  }

  function Values(xs: seq<Delivery>): (vs: seq<Bytes>)
    ensures |vs| == |xs| && forall i :: 0 <= i < |xs| ==> vs[i] == xs[i].m.value
  {
    seq(|xs|, i requires 0 <= i < |xs| => xs[i].m.value)
  }

  /** One policy throughout and an event store that does not fail. */
  ghost predicate Steady(d: Deps, xs: seq<Delivery>) {
    forall i :: 0 <= i < |xs| ==> xs[i].redactor == d.redactor && !xs[i].storeFails
  }

  /** An object under an event id means the event is indexed. */
  ghost predicate ObjectsIndexed(d: Deps, w: World) {
    forall id :: O.Path(d.bucket, id) in w.objects ==> HasId(w.table, id)
  }

  lemma InsertedIsThere(t: Table, e: Event, hashFn: Bytes -> Bytes)
    ensures HasId(InsertLinked(t, e, hashFn), e.core.id)
    ensures forall id :: HasId(t, id) ==> HasId(InsertLinked(t, e, hashFn), id)
  {
    if !HasId(t, e.core.id) {
      var row := Link(t, e, hashFn);
      var r, s := InsertSorted(t, row), Slot(t, KeyOf(row.core));
      assert r[s].core.id == e.core.id;
      forall id | HasId(t, id) ensures HasId(r, id) {
        var i :| 0 <= i < |t| && t[i].core.id == id;
        assert r[if i < s then i else i + 1].core.id == id;
      }
    }
  }

  lemma SteadyStep(d: Deps, w: World, x: Delivery)
    requires x.redactor == d.redactor && !x.storeFails && ObjectsIndexed(d, w)
    ensures var v := StepFrom(d, w, x).0;
            v.table == IndexOne(d, w.table, x.m.value) && ObjectsIndexed(d, v)
  {
    var p, v := Prep(d, x), StepFrom(d, w, x).0;
    assert At(d, x) == d;
    if p.Ready? {
      var row := RowOf(d, p);
      InsertedIsThere(w.table, row, BoundHash(CanonicalHash(d.sha), row.core));
      forall id | O.Path(d.bucket, id) in v.objects ensures HasId(v.table, id) {
        if O.Path(d.bucket, id) !in w.objects {
          O.PathInjective(d.bucket, id, p.env.id);
        }
      }
    }
  }

  /**
   * For a steady run the index depends on the message bytes alone: a put refused by retention never keeps a fresh
   * event out, because an object under an id implies that the id is already indexed.
   */
  lemma {:induction false} IndexDependsOnValues(d: Deps, xs: seq<Delivery>, n: nat)
    requires n <= |xs| && Steady(d, xs)
    ensures After(d, xs, n).table == IndexTo(d, Values(xs), n)
    ensures ObjectsIndexed(d, After(d, xs, n))
  {
    if n == 0 {
    } else {
      IndexDependsOnValues(d, xs, n - 1);
      SteadyStep(d, After(d, xs, n - 1), xs[n - 1]);
    }
  }

  /** Keep the first occurrence of every value. */
  function FirstOccurrences(values: seq<Bytes>, n: nat): seq<Bytes>
    requires n <= |values|
  {
    if n == 0 then []
    else FirstOccurrences(values, n - 1) + if values[n - 1] in values[..n - 1] then [] else [values[n - 1]]
  }

  /** Every value once and no other. */
  lemma {:induction false} OnceEach(values: seq<Bytes>, n: nat)
    requires n <= |values|
    ensures var once := FirstOccurrences(values, n);
            && (forall v :: v in once <==> v in values[..n])
            && (forall i, j :: 0 <= i < j < |once| ==> once[i] != once[j])
  {
    if n == 0 {
    } else {
      OnceEach(values, n - 1);
      assert values[..n] == values[..n - 1] + [values[n - 1]];
    }
  }

  lemma IndexOneKeeps(d: Deps, t: Table, value: Bytes)
    ensures Prepare(d, value).Ready? ==> HasId(IndexOne(d, t, value), Prepare(d, value).env.id)
    ensures forall id :: HasId(t, id) ==> HasId(IndexOne(d, t, value), id)
  {
    var p := Prepare(d, value);
    if p.Ready? {
      InsertedIsThere(t, RowOf(d, p), BoundHash(CanonicalHash(d.sha), RowOf(d, p).core));
    }
  }

  lemma {:induction false} ProcessedIsIndexed(d: Deps, values: seq<Bytes>, i: nat, n: nat)
    requires i < n <= |values| && Prepare(d, values[i]).Ready?
    ensures HasId(IndexTo(d, values, n), Prepare(d, values[i]).env.id)
  {
    IndexOneKeeps(d, IndexTo(d, values, n - 1), values[n - 1]);
    if i == n - 1 {
    } else {
      ProcessedIsIndexed(d, values, i, n - 1);
    }
  }

  /** Once a message has been processed, processing it again leaves the index as it is. */
  lemma Absorbed(d: Deps, values: seq<Bytes>, i: nat, n: nat)
    requires i < n <= |values|
    ensures IndexOne(d, IndexTo(d, values, n), values[i]) == IndexTo(d, values, n)
  {
    if Prepare(d, values[i]).Ready? {
      ProcessedIsIndexed(d, values, i, n);
    }
  }

  lemma {:induction false} IndexToPrefix(d: Deps, us: seq<Bytes>, vs: seq<Bytes>, n: nat)
    requires n <= |us| && n <= |vs| && us[..n] == vs[..n]
    ensures IndexTo(d, us, n) == IndexTo(d, vs, n)
  {
    if n == 0 {
    } else {
      assert us[n - 1] == us[..n][n - 1] && vs[n - 1] == vs[..n][n - 1];
      assert us[..n - 1] == us[..n][..n - 1] && vs[..n - 1] == vs[..n][..n - 1];
      IndexToPrefix(d, us, vs, n - 1);
    }
  }

  lemma {:induction false} RepeatsDoNotMatter(d: Deps, values: seq<Bytes>, n: nat)
    requires n <= |values|
    ensures var once := FirstOccurrences(values, n);
            IndexTo(d, once, |once|) == IndexTo(d, values, n)
  {
    if n == 0 {
    } else {
      var v := values[n - 1];
      var before := FirstOccurrences(values, n - 1);
      RepeatsDoNotMatter(d, values, n - 1);
      if v in values[..n - 1] {
        var i :| 0 <= i < n - 1 && values[..n - 1][i] == v;
        Absorbed(d, values, i, n - 1);
        assert before + [] == before;
      } else {
        IndexToPrefix(d, before + [v], before, |before|);
      }
    }
  }

  /** At-least-once delivery is harmless: a stream and the same without repeats end in the same index and chain. */
  lemma RedeliveryIsHarmless(d: Deps, xs: seq<Delivery>, ys: seq<Delivery>)
    requires Steady(d, xs) && Steady(d, ys)
    requires Values(ys) == FirstOccurrences(Values(xs), |xs|)
    ensures After(d, xs, |xs|).table == After(d, ys, |ys|).table
  {
    IndexDependsOnValues(d, xs, |xs|);
    IndexDependsOnValues(d, ys, |ys|);
    RepeatsDoNotMatter(d, Values(xs), |xs|);
  }

  /** Whether an object put at `now` would still be retained `later`. */
  predicate StillLocked(d: Deps, now: Time, later: Time) {
    d.legalHoldDefault
    || (d.retentionDays > 0 && later < now + WrapInt64(d.retentionDays * O.DAY))
  }

  /**
   * That the event store does not fail is needed.  If the insert fails after the object was written, a redelivery
   * gets the event into the index exactly when the object is no longer locked by then; until that time the object
   * blocks its own message.
   */
  lemma RedeliveryAfterFailedInsert(d: Deps, w: World, m: Message, now: Time, later: Time)
    requires var p := Prepare(d, m.value);
             WritesObject(d, p) && !HasId(w.table, p.env.id)
             && !O.Refused(w.objects, O.Path(d.bucket, p.env.id), now)
    ensures var failed := IngestOne(d, w, m, now, true).0;
            var (v, outcome) := IngestOne(d, failed, m, later, false);
            && failed.table == w.table && failed.dead == w.dead
            && (outcome.Inserted? <==> !StillLocked(d, now, later))
            && (StillLocked(d, now, later) ==> outcome == Rejected(ObjectPutFailed) && v == failed)
            && (!StillLocked(d, now, later) ==> v.table == IndexOne(d, w.table, m.value))
  {
  }

  // ---------------------------------------------------------------- what ingest gives the other components

  /** The rows the deliveries submit to InsertChained, as steps on the table. */
  function Submitted(d: Deps, xs: seq<Delivery>, n: nat): seq<Step>
    requires n <= |xs|
  {
    if n == 0 then []
    else
      var o := OutcomeOf(d, xs, n - 1);
      Submitted(d, xs, n - 1)
      + if o.Inserted? then [Insert(RowOf(At(d, xs[n - 1]), Prep(d, xs[n - 1])))] else []
  }

  lemma StepIsAnInsert(d: Deps, w: World, x: Delivery)
    ensures var (v, o) := StepFrom(d, w, x);
            o.Inserted? ==> Prep(d, x).Ready?
                            && v.table == Apply(CanonicalHash(d.sha), w.table, Insert(RowOf(At(d, x), Prep(d, x))))
  {
  }

  /** The index is the result of a run of chained inserts, so everything proved of such runs holds of it. */
  lemma {:induction false} IngestIsARun(d: Deps, xs: seq<Delivery>, n: nat)
    requires n <= |xs|
    ensures After(d, xs, n).table == Run(CanonicalHash(d.sha), [], Submitted(d, xs, n))
  {
    if n == 0 {
    } else {
      var w, x, steps := After(d, xs, n - 1), xs[n - 1], Submitted(d, xs, n - 1);
      IngestIsARun(d, xs, n - 1);
      NoInsertNoChange(d, w, x);
      StepIsAnInsert(d, w, x);
      if OutcomeOf(d, xs, n - 1).Inserted? {
        RunAppend(CanonicalHash(d.sha), [], steps, Insert(RowOf(At(d, x), Prep(d, x))));
      } else {
        assert steps + [] == steps;
      }
    }
  }

  lemma NewRowIsValid(d: Deps, w: World, x: Delivery, c: Core)
    requires WellFormed(w.table)
    requires c in Cores(StepFrom(d, w, x).0.table)
    ensures c in Cores(w.table) || (c.ts != ZERO_TIME && c.id != [])
  {
  }

  predicate IsValid(c: Core) {
    c.ts != ZERO_TIME && c.id != []
  }

  ghost predicate AllValid(t: Table) {
    forall c :: c in Cores(t) ==> IsValid(c)
  }

  lemma StepKeepsValid(d: Deps, w: World, x: Delivery)
    requires WellFormed(w.table) && AllValid(w.table)
    ensures AllValid(StepFrom(d, w, x).0.table)
  {
    forall c | c in Cores(StepFrom(d, w, x).0.table) ensures IsValid(c) {
      NewRowIsValid(d, w, x, c);
    }
  }

  lemma {:induction false} TableIsValid(d: Deps, xs: seq<Delivery>, n: nat)
    requires n <= |xs|
    ensures AllValid(After(d, xs, n).table)
  {
    if n == 0 {
    } else {
      TableIsValid(d, xs, n - 1);
      TableStaysWellFormed(d, xs, n - 1);
      StepKeepsValid(d, After(d, xs, n - 1), xs[n - 1]);
    }
  }

  /** Validation keeps the zero time, on which paging would stop, and the empty id out of the index. */
  lemma RowsAreValid(d: Deps, xs: seq<Delivery>, n: nat, c: Core)
    requires n <= |xs| && c in Cores(After(d, xs, n).table)
    ensures c.ts != ZERO_TIME && c.id != []
  {
    TableIsValid(d, xs, n);
    assert IsValid(c);
  }

  /** What the sweep, the export and the mismatch of anchors without event ask of a table. */
  lemma IngestedTableIsValid(d: Deps, xs: seq<Delivery>, n: nat)
    requires n <= |xs|
    ensures NonZeroTimes(After(d, xs, n).table) && !HasId(After(d, xs, n).table, [])
  {
    var t := After(d, xs, n).table;
    forall i | 0 <= i < |t| ensures t[i].core.ts != ZERO_TIME && t[i].core.id != [] {
      assert t[i].core in Cores(t);
      RowsAreValid(d, xs, n, t[i].core);
    }
  }
}
