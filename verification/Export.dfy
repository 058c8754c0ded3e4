/** The regulator export job. */
module Export {
  import opened ByteStrings
  import opened Store
  import opened Encoding
  import opened Chain
  import opened Tables
  import opened Paging
  import opened Memstore
  import opened Anchoring
  import O = ObjectStore

  datatype Format = Json | Csv | Other

  /** `query` is the parsed query, None when its JSON is malformed; a query never sets a cursor. */
  datatype Job = Job(id: Bytes, query: Option<Filter>, format: Format, retentionDays: int)

  datatype JobStatus = Pending | Running | Complete | Failed

  datatype Record = Record(status: JobStatus, rowCount: nat, payloadRef: Bytes, chainRoot: Bytes, anchorId: Bytes,
                           completedAt: Time)

  function Failure(now: Time): Record {
    Record(Failed, 0, [], [], [], now)
  }

  /** A zero completion time leaves the one on record; a job that is not on record stays absent. */
  function AfterUpdate(jobs: map<Bytes, Record>, id: Bytes, r: Record): map<Bytes, Record> {
    if id !in jobs then jobs
    else jobs[id := if r.completedAt == ZERO_TIME then r.(completedAt := jobs[id].completedAt) else r]
  }

  /** What a job's record says after a failure: failed, nothing counted or stored; other jobs keep theirs. */
  lemma FailureMeaning(jobs: map<Bytes, Record>, id: Bytes, now: Time)
    ensures var after := AfterUpdate(jobs, id, Failure(now));
            && after.Keys == jobs.Keys
            && (forall k :: k in jobs && k != id ==> after[k] == jobs[k])
            && (id in jobs ==>
                  && after[id].status == Failed && after[id].rowCount == 0
                  && after[id].payloadRef == after[id].chainRoot == after[id].anchorId == []
                  && after[id].completedAt == if now == ZERO_TIME then jobs[id].completedAt else now)
  {
  }

  class ExportJobStore {
    var jobs: map<Bytes, Record>

    constructor ()
      ensures jobs == map[]
    {
      jobs := map[];
    }

    method UpdateJob(id: Bytes, r: Record) returns (found: bool)
      modifies this
      ensures found <==> id in old(jobs)
      ensures jobs == AfterUpdate(old(jobs), id, r)
    {
      if id !in jobs {
        return false;
      }
      var job := r;
      if r.completedAt == ZERO_TIME {
        job := r.(completedAt := jobs[id].completedAt);
      }
      jobs := jobs[id := job];
      return true;
    }
  }

  datatype Result = BadQuery | UnsupportedFormat | PutFailed | JobMissing | Exported

  /** "exports/" */
  const EXPORTS: Bytes := [101, 120, 112, 111, 114, 116, 115, 47]

  function KeyFor(job: Job): Bytes {
    EXPORTS + job.id + if job.format == Csv then [46, 99, 115, 118] else [46, 106, 115, 111, 110]
  }

  /** The record an export signs: no last event is set. */
  function ExportAnchor(root: Bytes, signature: Bytes, keyId: Bytes, count: nat): Anchor {
    Anchor([], ZERO_TIME, root, [], ZERO_TIME, signature, keyId, [], count)
  }

  /** The verified root of the exported rows, or the zero hash when they do not form a chain. */
  ghost function WindowRoot(rowHash: RowHash, es: seq<Event>): Bytes {
    if Intact(rowHash, es) then Root(es) else ZERO_HASH
  }

  class Runner {
    const rowHash: RowHash
    const events: EventStore
    const anchors: AnchorStore
    const jobs: ExportJobStore
    const payloads: O.Fake
    const bucket: Bytes
    const signer: Option<Signer>
    const defaultRetentionDays: int
    /** Manifest and rows, in the job's format. */
    const render: (Job, seq<Event>, Bytes, Bytes) -> Bytes

    constructor (rowHash: RowHash, events: EventStore, anchors: AnchorStore, jobs: ExportJobStore, payloads: O.Fake,
                 bucket: Bytes, signer: Option<Signer>, defaultRetentionDays: int,
                 render: (Job, seq<Event>, Bytes, Bytes) -> Bytes)
      ensures this.rowHash == rowHash && this.events == events && this.anchors == anchors && this.jobs == jobs
      ensures this.payloads == payloads && this.bucket == bucket && this.signer == signer
      ensures this.defaultRetentionDays == defaultRetentionDays && this.render == render
    {
      this.rowHash, this.events, this.anchors, this.jobs := rowHash, events, anchors, jobs;
      this.payloads, this.bucket, this.signer := payloads, bucket, signer;
      this.defaultRetentionDays, this.render := defaultRetentionDays, render;
    }

    function Retention(job: Job): (days: int)
      ensures days > 0
    {
      if job.retentionDays > 0 then job.retentionDays
      else if defaultRetentionDays > 0 then defaultRetentionDays
      else 2555
    }

    /** The rows of the job, whatever page size the store allows. */
    method Collect(query: Filter) returns (all: seq<Event>)
      requires events.Valid() && NonZeroTimes(events.Contents())
      ensures all == Select(events.Contents(), query)
    {
      ghost var t := events.Contents();
      events.ValidContents();
      LimitIsIrrelevant(t, query, 10000, |t|);
      all := [];
      var f := query.(limit := 10000);
      while true
        invariant all + Select(t, f) == Select(t, query)
        decreases |Select(t, f)|
      {
        var res := events.List(f);
        PageRead(FullPage, t, f, res, all, Select(t, query));
        if |res.events| == 0 {
          break;
        }
        all := all + res.events;
        if res.nextCursor.ts == ZERO_TIME {
          break;
        }
        f := f.(cursor := res.nextCursor);
      }
    }

    /** Sign the root when there is a signer; a signing failure only leaves the anchor out. */
    method AnchorRoot(root: Bytes, count: nat, now: Time, newId: Bytes) returns (anchorId: Bytes)
      requires |root| == 32
      modifies anchors
      ensures var signed := if signer.Some? then signer.value(root) else None;
              && anchorId == (if signed.Some? then newId else [])
              && anchors.anchors == old(anchors.anchors)
                 + if signed.Some?
                   then [ExportAnchor(root, signed.value.0, signed.value.1, count).(id := newId, anchoredAt := now)]
                   else []
    {
      anchorId := [];
      if signer.Some? && |root| == 32 {
        var signed := signer.value(root);
        if signed.Some? {
          anchorId := anchors.InsertAnchor(ExportAnchor(root, signed.value.0, signed.value.1, count), now, newId);
        }
      }
    }

    method ChainRoot(all: seq<Event>) returns (root: Bytes)
      ensures root == WindowRoot(rowHash, all) && |root| == 32
    {
      var _, verified := VerifyChain(rowHash, all);
      root := ZERO_HASH;
      if verified.Some? {
        IntactRootIsDigest(rowHash, all);
        if |verified.value| == 32 {
          root := verified.value;
        }
      }
    }

    /** The artifact, write-locked for the retention period. */
    function Artifact(job: Job, es: seq<Event>, root: Bytes, anchorId: Bytes, now: Time): O.Object {
      O.Object(render(job, es, root, anchorId), O.STANDARD, Retention(job), false, now)
    }

    function AnchorIdFor(root: Bytes, newId: Bytes): Bytes {
      if signer.Some? && signer.value(root).Some? then newId else []
    }

    method Publish(job: Job, all: seq<Event>, root: Bytes, anchorId: Bytes, now: Time) returns (r: Result)
      modifies jobs, payloads
      ensures r == PutFailed || r == Exported || r == JobMissing
      ensures r == PutFailed <==> O.Refused(old(payloads.objects), O.Path(bucket, KeyFor(job)), now)
      ensures r == PutFailed ==>
                payloads.objects == old(payloads.objects)
                && jobs.jobs == AfterUpdate(old(jobs.jobs), job.id, Failure(now))
      ensures r != PutFailed ==>
                payloads.objects
                == old(payloads.objects)[O.Path(bucket, KeyFor(job)) := Artifact(job, all, root, anchorId, now)]
                && jobs.jobs == AfterUpdate(old(jobs.jobs), job.id,
                                            Record(Complete, |all|, KeyFor(job), root, anchorId, now))
                && (r == Exported <==> job.id in old(jobs.jobs))
    {
      var retention := job.retentionDays;
      if retention <= 0 {
        retention := defaultRetentionDays;
        if retention <= 0 {
          retention := 2555;
        }
      }
      var extension := [46, 106, 115, 111, 110];
      if job.format == Csv {
        extension := [46, 99, 115, 118];
      }
      var key := EXPORTS + job.id + extension;
      var body := render(job, all, root, anchorId);
      var err, _ := payloads.Put(bucket, O.PutOptions(key, O.STANDARD, retention, false), body, now);
      if err.Some? {
        var _ := jobs.UpdateJob(job.id, Failure(now));
        return PutFailed;
      }
      var found := jobs.UpdateJob(job.id, Record(Complete, |all|, key, root, anchorId, now));
      return if found then Exported else JobMissing;
    }

    /** The artifact is written, and the record completed if there is one. */
    ghost predicate Completed(job: Job, es: seq<Event>, now: Time, newId: Bytes,
                              before: O.Objects, after: O.Objects, jobsBefore: map<Bytes, Record>,
                              jobsAfter: map<Bytes, Record>) {
      var root := WindowRoot(rowHash, es);
      var anchorId := AnchorIdFor(root, newId);
      && after == before[O.Path(bucket, KeyFor(job)) := Artifact(job, es, root, anchorId, now)]
      && jobsAfter == AfterUpdate(jobsBefore, job.id, Record(Complete, |es|, KeyFor(job), root, anchorId, now))
    }

    /** The anchor an export adds, if the signer signs the root. */
    function AnchorsAdded(root: Bytes, count: nat, now: Time, newId: Bytes): seq<Anchor> {
      if signer.Some? && signer.value(root).Some? then
        var (signature, keyId) := signer.value(root).value;
        [ExportAnchor(root, signature, keyId, count).(id := newId, anchoredAt := now)]
      else []
    }

    /** exports/ID.csv or exports/ID.json. */
    function DocumentedKey(job: Job): Bytes {
      Ascii("exports/") + job.id + if job.format == Csv then Ascii(".csv") else Ascii(".json")
    }

    /** The key and the bytes of a completed export, how long they are locked, and what its record says. */
    lemma CompletedMeaning(job: Job, es: seq<Event>, now: Time, newId: Bytes, before: O.Objects, after: O.Objects,
                           jobsBefore: map<Bytes, Record>, jobsAfter: map<Bytes, Record>)
      requires Completed(job, es, now, newId, before, after, jobsBefore, jobsAfter)
      requires job.id in jobsBefore && now != ZERO_TIME
      ensures var r := jobsAfter[job.id];
              var key := DocumentedKey(job);
              var path := bucket + [47] + key;
              && r.status == Complete && r.rowCount == |es| && r.payloadRef == key && r.completedAt == now
              && r.chainRoot == (if Intact(rowHash, es) && es != [] then es[|es| - 1].core.thisHash else Zeros(32))
              && r.anchorId == (if signer.Some? && signer.value(r.chainRoot).Some? then newId else [])
              && path in after
              && after[path].body == render(job, es, r.chainRoot, r.anchorId)
              && after[path].createdAt == now && !after[path].legalHold
              && after[path].retentionDays == (if job.retentionDays >= 1 then job.retentionDays
                                               else if defaultRetentionDays >= 1 then defaultRetentionDays else 2555)
              && (forall p :: p != path ==> (p in after <==> p in before) && (p in before ==> after[p] == before[p]))
              && (forall id :: id in jobsBefore && id != job.id ==> id in jobsAfter && jobsAfter[id] == jobsBefore[id])
    {
      assert Ascii("exports/") == EXPORTS;
      assert Ascii(".csv") == [46, 99, 115, 118] && Ascii(".json") == [46, 106, 115, 111, 110];
    }

    /** The anchor of an export: a signature over its root, and no event. */
    lemma AnchorsAddedMeaning(root: Bytes, count: nat, now: Time, newId: Bytes)
      ensures var added := AnchorsAdded(root, count, now, newId);
              && |added| == (if signer.Some? && signer.value(root).Some? then 1 else 0)
              && (added != [] ==>
                    && signer.value(added[0].rootHash) == Some((added[0].signature, added[0].kmsKeyId))
                    && added[0].rootHash == root && added[0].eventCount == count && added[0].id == newId
                    && added[0].lastEventId == [] && added[0].anchoredAt == now)
    {
      if AnchorsAdded(root, count, now, newId) != [] {
        var made := signer.value(root).value;
        assert made == (made.0, made.1);
      }
    }

    /** The steps after the rows are in hand. */
    method Finish(job: Job, all: seq<Event>, now: Time, newId: Bytes) returns (r: Result)
      modifies anchors, jobs, payloads
      ensures r == PutFailed || r == Exported || r == JobMissing
      ensures r == PutFailed <==> O.Refused(old(payloads.objects), O.Path(bucket, KeyFor(job)), now)
      ensures r != PutFailed ==>
                Completed(job, all, now, newId, old(payloads.objects), payloads.objects, old(jobs.jobs), jobs.jobs)
                && (r == Exported <==> job.id in old(jobs.jobs))
      ensures r == PutFailed ==>
                payloads.objects == old(payloads.objects)
                && jobs.jobs == AfterUpdate(old(jobs.jobs), job.id, Failure(now))
      ensures anchors.anchors == old(anchors.anchors) + AnchorsAdded(WindowRoot(rowHash, all), |all|, now, newId)
    {
      var root := ChainRoot(all);
      var anchorId := AnchorRoot(root, |all|, now, newId);
      assert anchorId == AnchorIdFor(root, newId);
      r := Publish(job, all, root, anchorId, now);
    }

    /**
     * A COMPLETE record counts exactly the matching events and carries their verified root; a failed job leaves no
     * artifact and no count, though a signed root is anchored before the put can fail; the anchor names no last
     * event.  When the job has no record the call reports an error although the artifact has been written.
     */
    method RunJob(job: Job, now: Time, newId: Bytes) returns (r: Result)
      requires events.Valid() && NonZeroTimes(events.Contents())
      requires job.query.Some? ==> job.query.value.cursor == NO_CURSOR
      modifies anchors, jobs, payloads
      ensures r == BadQuery <==> job.query.None?
      ensures r == UnsupportedFormat <==> job.query.Some? && job.format == Other
      ensures r == PutFailed <==> job.query.Some? && job.format != Other
                                  && O.Refused(old(payloads.objects), O.Path(bucket, KeyFor(job)), now)
      ensures r == Exported || r == JobMissing ==>
                Completed(job, Select(old(events.Contents()), job.query.value), now, newId,
                          old(payloads.objects), payloads.objects, old(jobs.jobs), jobs.jobs)
                && (r == Exported <==> job.id in old(jobs.jobs))
      ensures r != Exported && r != JobMissing ==>
                payloads.objects == old(payloads.objects)
                && jobs.jobs == AfterUpdate(old(jobs.jobs), job.id, Failure(now))
      ensures anchors.anchors
           == if r == BadQuery || r == UnsupportedFormat then old(anchors.anchors)
              else var es := Select(old(events.Contents()), job.query.value);
                   old(anchors.anchors) + AnchorsAdded(WindowRoot(rowHash, es), |es|, now, newId)
    {
      if job.query.None? {
        var _ := jobs.UpdateJob(job.id, Failure(now));
        return BadQuery;
      }
      var all := Collect(job.query.value);
      if job.format == Other {
        var _ := jobs.UpdateJob(job.id, Failure(now));
        return UnsupportedFormat;
      }
      r := Finish(job, all, now, newId);
    }
  }

  lemma {:induction false} LimitIsIrrelevant(t: Table, f: Filter, limit: int, n: nat)
    requires n <= |t|
    ensures SelectTo(t, f.(limit := limit), n) == SelectTo(t, f, n)
  {
    if n == 0 {
    } else {
      LimitIsIrrelevant(t, f, limit, n - 1);
    }
  }
}
