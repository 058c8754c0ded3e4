/** The WORM object store, with the clock as an argument of every operation. */
module ObjectStore {
  import opened ByteStrings
  import opened Store
  import opened Encoding

  datatype Object = Object(
    body: Bytes,
    storageClass: Bytes,
    retentionDays: int,
    legalHold: bool,
    createdAt: Time
  )

  type Objects = map<Bytes, Object>

  datatype PutOptions = PutOptions(key: Bytes, storageClass: Bytes, retentionDays: int, legalHold: bool)

  datatype Error = RetentionActive | NotFound

  const DAY: int := 24 * 3600 * 1_000_000_000

  /** The most days whose nanoseconds fit an int64. */
  const MAX_RETENTION_DAYS := 106751

  /** "STANDARD" */
  const STANDARD: Bytes := [83, 84, 65, 78, 68, 65, 82, 68]

  const SLASH: Byte := 47

  function Path(bucket: Bytes, key: Bytes): Bytes {
    bucket + [SLASH] + key
  }

  lemma PathInjective(bucket: Bytes, k: Bytes, l: Bytes)
    requires Path(bucket, k) == Path(bucket, l)
    ensures k == l
  {
    ConcatUnique(bucket + [SLASH], k, bucket + [SLASH], l);
  }

  /** The period is a time.Duration, an int64 product that wraps. */
  predicate IsRetained(o: Object, now: Time) {
    o.legalHold || (o.retentionDays > 0 && now < o.createdAt + WrapInt64(o.retentionDays * DAY))
  }

  // ---------------------------------------------------------------- the operations on values

  function Stored(opts: PutOptions, body: Bytes, now: Time): Object {
    Object(body, if opts.storageClass == [] then STANDARD else opts.storageClass,
           opts.retentionDays, opts.legalHold, now)
  }

  predicate Refused(objects: Objects, path: Bytes, now: Time) {
    path in objects && IsRetained(objects[path], now)
  }

  function AfterPut(objects: Objects, bucket: Bytes, opts: PutOptions, body: Bytes, now: Time): Objects {
    var path := Path(bucket, opts.key);
    if Refused(objects, path, now) then objects else objects[path := Stored(opts, body, now)]
  }

  function AfterDelete(objects: Objects, bucket: Bytes, key: Bytes, now: Time): Objects {
    var path := Path(bucket, key);
    if Refused(objects, path, now) then objects else objects - {path}
  }

  predicate Moves(o: Object, ageDays: int, fromClass: Bytes, now: Time) {
    o.storageClass == fromClass && o.createdAt <= now + WrapInt64(-ageDays * DAY)
  }

  function AfterTransition(objects: Objects, ageDays: int, fromClass: Bytes, toClass: Bytes, now: Time): Objects {
    map p | p in objects ::
      if Moves(objects[p], ageDays, fromClass, now) then objects[p].(storageClass := toClass) else objects[p]
  }

  /** What a put leaves: the object with its options and the time, or, while one is retained there, what was there. */
  lemma PutMeaning(objects: Objects, bucket: Bytes, opts: PutOptions, body: Bytes, now: Time)
    ensures var path, after := bucket + [47] + opts.key, AfterPut(objects, bucket, opts, body, now);
            && (if path in objects && IsRetained(objects[path], now) then after == objects
                else path in after && after[path].body == body && after[path].createdAt == now
                     && after[path].retentionDays == opts.retentionDays && after[path].legalHold == opts.legalHold
                     && after[path].storageClass
                        == (if opts.storageClass == [] then Ascii("STANDARD") else opts.storageClass))
            && forall p :: p != path ==> (p in after <==> p in objects) && (p in objects ==> after[p] == objects[p])
  {
    assert Ascii("STANDARD") == STANDARD;
  }

  lemma DeleteMeaning(objects: Objects, bucket: Bytes, key: Bytes, now: Time)
    ensures var path, after := bucket + [47] + key, AfterDelete(objects, bucket, key, now);
            && (path in after <==> path in objects && IsRetained(objects[path], now))
            && forall p :: p in after ==> p in objects && after[p] == objects[p]
    ensures forall p :: p in objects && p != bucket + [47] + key ==> p in AfterDelete(objects, bucket, key, now)
  {
  }

  /** An object of the class moves when its age has reached the given number of days. */
  lemma TransitionMeaning(objects: Objects, ageDays: int, fromClass: Bytes, toClass: Bytes, now: Time, p: Bytes)
    requires p in objects && -MAX_RETENTION_DAYS <= ageDays <= MAX_RETENTION_DAYS
    ensures var o, after := objects[p], AfterTransition(objects, ageDays, fromClass, toClass, now);
            && after.Keys == objects.Keys
            && after[p] == if o.storageClass == fromClass && now - o.createdAt >= ageDays * DAY
                           then o.(storageClass := toClass) else o
  {
    assert -ageDays * DAY == -(ageDays * DAY) && -TWO_63 <= -ageDays * DAY < TWO_63;
  }

  /** Retained means: on hold, or within a positive period of whole days from creation. */
  lemma RetainedIff(o: Object, now: Time)
    requires o.retentionDays <= MAX_RETENTION_DAYS
    ensures IsRetained(o, now) <==>
            o.legalHold || (o.retentionDays >= 1 && now - o.createdAt < o.retentionDays * (24 * 3600 * 1_000_000_000))
  {
    if o.retentionDays >= 1 {
      assert 0 <= o.retentionDays * DAY < TWO_63;
    }
  }

  // ---------------------------------------------------------------- the store

  class Fake {
    var objects: Objects

    constructor ()
      ensures objects == map[]
    {
      objects := map[];
    }

    method Put(bucket: Bytes, opts: PutOptions, body: Bytes, now: Time) returns (err: Option<Error>, key: Bytes)
      modifies this
      ensures objects == AfterPut(old(objects), bucket, opts, body, now)
      ensures err == if Refused(old(objects), Path(bucket, opts.key), now) then Some(RetentionActive) else None
      ensures err.None? ==> key == opts.key
    {
      key := opts.key;
      if bucket + [SLASH] + key in objects {
        var o := objects[bucket + [SLASH] + key];
        if IsRetained(o, now) {
          return Some(RetentionActive), [];
        }
      }
      var storageClass := opts.storageClass;
      if storageClass == [] {
        storageClass := STANDARD;
      }
      objects := objects[bucket + [SLASH] + key := Object(body, storageClass, opts.retentionDays, opts.legalHold, now)];
      return None, key;
    }

    method Get(bucket: Bytes, key: Bytes) returns (body: Option<Bytes>)
      ensures body == if Path(bucket, key) in objects then Some(objects[Path(bucket, key)].body) else None
    {
      if bucket + [SLASH] + key !in objects {
        return None;
      }
      return Some(objects[bucket + [SLASH] + key].body);
    }

    method Delete(bucket: Bytes, key: Bytes, now: Time) returns (err: Option<Error>)
      modifies this
      ensures objects == AfterDelete(old(objects), bucket, key, now)
      ensures var path := Path(bucket, key);
              err == if path !in old(objects) then Some(NotFound)
                     else if IsRetained(old(objects)[path], now) then Some(RetentionActive)
                     else None
    {
      var path := bucket + [SLASH] + key;
      if path !in objects {
        assert objects - {path} == objects;
        return Some(NotFound);
      }
      if IsRetained(objects[path], now) {
        return Some(RetentionActive);
      }
      objects := objects - {path};
      return None;
    }

    /** The keys are visited in an arbitrary order. */
    method ApplyTransition(ageDays: int, fromClass: Bytes, toClass: Bytes, now: Time) returns (n: nat)
      modifies this
      ensures objects == AfterTransition(old(objects), ageDays, fromClass, toClass, now)
      ensures n == |set p | p in old(objects) && Moves(old(objects)[p], ageDays, fromClass, now)|
    {
      n := 0;
      var cutoff := now + WrapInt64(-ageDays * DAY);
      var todo := objects.Keys;
      ghost var moved: set<Bytes> := {};
      ghost var before := objects;
      while todo != {}
        invariant todo <= before.Keys == objects.Keys
        invariant forall p :: p in todo ==> objects[p] == before[p]
        invariant forall p :: p in before && p !in todo ==>
                    objects[p] == AfterTransition(before, ageDays, fromClass, toClass, now)[p]
        invariant moved == set p | p in before && p !in todo && Moves(before[p], ageDays, fromClass, now)
        invariant n == |moved|
        decreases todo
      {
        var p :| p in todo;
        todo := todo - {p};
        var o := objects[p];
        if o.storageClass != fromClass { continue; }
        if o.createdAt > cutoff { continue; }
        objects := objects[p := o.(storageClass := toClass)];
        n := n + 1;
        moved := moved + {p};
      }
      assert moved == set p | p in before && Moves(before[p], ageDays, fromClass, now);
    }
  }

  // ---------------------------------------------------------------- write once over whole runs

  datatype Op =
    | Put(bucket: Bytes, opts: PutOptions, body: Bytes)
    | Delete(bucket: Bytes, key: Bytes)
    | Transition(ageDays: int, fromClass: Bytes, toClass: Bytes)

  datatype Timed = Timed(now: Time, op: Op)

  function Step(objects: Objects, t: Timed): Objects {
    match t.op
    case Put(bucket, opts, body) => AfterPut(objects, bucket, opts, body, t.now)
    case Delete(bucket, key) => AfterDelete(objects, bucket, key, t.now)
    case Transition(ageDays, fromClass, toClass) => AfterTransition(objects, ageDays, fromClass, toClass, t.now)
  }

  /** Each step is a call of the store at its time. */
  lemma StepIsCall(objects: Objects, now: Time, bucket: Bytes, opts: PutOptions, body: Bytes, key: Bytes,
                   ageDays: int, fromClass: Bytes, toClass: Bytes)
    ensures Step(objects, Timed(now, Put(bucket, opts, body))) == AfterPut(objects, bucket, opts, body, now)
    ensures Step(objects, Timed(now, Delete(bucket, key))) == AfterDelete(objects, bucket, key, now)
    ensures Step(objects, Timed(now, Transition(ageDays, fromClass, toClass)))
         == AfterTransition(objects, ageDays, fromClass, toClass, now)
  {
  }

  function Run(objects: Objects, ops: seq<Timed>): Objects
    decreases |ops|
  {
    if ops == [] then objects else Run(Step(objects, ops[0]), ops[1..])
  }

  /** The documented lock: for ever under legal hold, otherwise for the given number of days. */
  ghost predicate LockedThroughout(o: Object, ops: seq<Timed>) {
    o.legalHold
    || (1 <= o.retentionDays <= MAX_RETENTION_DAYS
        && forall i :: 0 <= i < |ops| ==> ops[i].now < o.createdAt + o.retentionDays * DAY)
  }

  predicate SameButClass(o: Object, p: Object) {
    o.(storageClass := p.storageClass) == p
  }

  /** No sequence of puts, deletes and transitions alters a locked object beyond its storage class. */
  lemma {:induction false} WriteOnce(objects: Objects, ops: seq<Timed>, path: Bytes)
    requires path in objects && LockedThroughout(objects[path], ops)
    ensures path in Run(objects, ops) && SameButClass(objects[path], Run(objects, ops)[path])
    decreases |ops|
  {
    if ops == [] {
    } else {
      var o := objects[path];
      var next := Step(objects, ops[0]);
      if !o.legalHold {
        assert o.retentionDays * DAY <= MAX_RETENTION_DAYS * DAY < TWO_63;
        assert ops[0].now < o.createdAt + o.retentionDays * DAY;
      }
      assert IsRetained(o, ops[0].now);
      assert path in next && SameButClass(o, next[path]);
      forall i | 0 <= i < |ops[1..]| ensures ops[1..][i] == ops[i + 1] {}
      WriteOnce(next, ops[1..], path);
    }
  }

  /**
   * The lock is honoured until the documented expiry exactly for periods that fit an int64 of nanoseconds;
   * from 106752 days on the product wraps and the lock ends early.
   */
  lemma RetentionHonouredIff(o: Object)
    requires o.retentionDays > 0 && !o.legalHold
    ensures (forall now :: now < o.createdAt + o.retentionDays * DAY ==> IsRetained(o, now))
            <==> o.retentionDays <= MAX_RETENTION_DAYS
  {
    var full := o.retentionDays * DAY;
    if o.retentionDays <= MAX_RETENTION_DAYS {
      assert full <= MAX_RETENTION_DAYS * DAY < TWO_63;
    } else {
      assert full >= (MAX_RETENTION_DAYS + 1) * DAY >= TWO_63;
      var now := o.createdAt + WrapInt64(full);
      assert now < o.createdAt + full && !IsRetained(o, now);
    }
  }
}
