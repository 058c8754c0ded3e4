/** The ingest pipeline: check, redact, write the object, then extend the chain. */
module Ingest {
  import opened ByteStrings
  import opened Store
  import opened Encoding
  import opened Tables
  import opened Envelopes
  import O = ObjectStore
  import M = Memstore

  /** Redactor.Apply: the body to store and whether it was changed, or an error. */
  type Redactor = (Bytes, Bytes, Bytes) -> Option<(Bytes, bool)>

  datatype Deps = Deps(
    sha: Sha,
    decode: Bytes -> Option<Envelope>,
    redactor: Option<Redactor>,
    hasPayloads: bool,
    bucket: Bytes,
    storageClass: Bytes,
    retentionDays: int,
    legalHoldDefault: bool,
    hasDeadLetters: bool,
    topic: Bytes
  )

  datatype Message = Message(partition: int, offset: int, key: Bytes, value: Bytes)

  datatype Outcome = Inserted(row: Event) | Duplicate | Rejected(reason: Reason)

  class DeadLetterStore {
    var items: seq<DeadLetter>

    constructor ()
      ensures items == []
    {
      items := [];
    }

    method Append(d: DeadLetter)
      modifies this
      ensures items == old(items) + [d]
    {
      items := items + [d];
    }
  }

  // ---------------------------------------------------------------- what one message does

  /** What is settled before anything is written. */
  datatype Prepared = Refuse(reason: Reason) | Ready(env: Envelope, body: Bytes, payloadHash: Digest, redacted: bool)

  function RedactBody(d: Deps, env: Envelope): Option<(Bytes, bool)> {
    if d.redactor.None? || env.payload == [] then Some((env.payload, false))
    else
      match d.redactor.value(env.sourceService, env.action, env.payload)
      case None => None
      case Some((out, changed)) => if changed then Some((out, true)) else Some((env.payload, false))
  }

  function Prepare(d: Deps, value: Bytes): Prepared {
    match DecodeAndValidate(d.decode, value)
    case None => Refuse(DecodeFailed)
    case Some(env) =>
      var computed := HashPayload(d.sha, env.payload);
      if env.payload != [] && NormalizeHash(env.payloadHash) != computed then Refuse(PayloadHashMismatch)
      else
        match RedactBody(d, env)
        case None => Refuse(RedactionFailed)
        case Some((body, redacted)) =>
          match DecodeHash(if env.payload != [] then computed else env.payloadHash)
          case None => Refuse(PayloadHashFormat)
          case Some(hash) => Ready(env, body, hash, redacted)
  }

  predicate WritesObject(d: Deps, p: Prepared) {
    p.Ready? && d.hasPayloads && d.bucket != [] && p.body != []
  }

  function RowOf(d: Deps, p: Prepared): Event
    requires p.Ready?
  {
    var e := p.env;
    Event(Core(e.id, e.ts, e.sourceService, e.actorId, e.action, e.targetType, e.targetId, p.payloadHash,
               if WritesObject(d, p) then e.id else [], [], [], p.redacted),
          false, d.legalHoldDefault)
  }

  function Options(d: Deps, id: Bytes): O.PutOptions {
    O.PutOptions(id, d.storageClass, d.retentionDays, d.legalHoldDefault)
  }

  datatype World = World(table: Table, objects: O.Objects, dead: seq<DeadLetter>)

  function Bury(d: Deps, m: Message, dead: seq<DeadLetter>, reason: Reason): seq<DeadLetter> {
    if d.hasDeadLetters then dead + [DeadLetter(d.topic, m.partition, m.offset, m.key, m.value, reason)] else dead
  }

  /** `storeFails`: the event store returned an error instead of inserting (it never does in memory). */
  function IngestReady(d: Deps, w: World, p: Prepared, now: Time, storeFails: bool): (World, Outcome)
    requires p.Ready?
  {
    var id := p.env.id;
    if WritesObject(d, p) && O.Refused(w.objects, O.Path(d.bucket, id), now) then (w, Rejected(ObjectPutFailed))
    else
      var objects := if WritesObject(d, p) then O.AfterPut(w.objects, d.bucket, Options(d, id), p.body, now)
                     else w.objects;
      if storeFails then (w.(objects := objects), Rejected(InsertFailed))
      else
        var row := RowOf(d, p);
        var hashFn := BoundHash(CanonicalHash(d.sha), row.core);
        (w.(objects := objects, table := InsertLinked(w.table, row, hashFn)),
         if HasId(w.table, id) then Duplicate else Inserted(Link(w.table, row, hashFn)))
  }

  function IngestOne(d: Deps, w: World, m: Message, now: Time, storeFails: bool): (World, Outcome) {
    var p := Prepare(d, m.value);
    if p.Refuse? then (w.(dead := Bury(d, m, w.dead, p.reason)), Rejected(p.reason))
    else IngestReady(d, w, p, now, storeFails)
  }

  // ---------------------------------------------------------------- what that means

  /** The message is an envelope: not empty, decodable, with every required field and a time. */
  predicate IsEnvelope(d: Deps, value: Bytes) {
    value != [] && d.decode(value).Some?
    && var e := d.decode(value).value;
       e.ts != ZERO_TIME
       && [] !in {e.id, e.sourceService, e.actorId, e.action, e.targetType, e.targetId, e.payloadHash}
  }

  /** The producer's hash is that of the payload, in lower case, with or without "sha256:". */
  predicate HashFits(d: Deps, e: Envelope) {
    e.payloadHash in {EncodeHash(d.sha(e.payload)), HexEncode(d.sha(e.payload))}
  }

  /** What the redactor answers for the envelope's service, action and payload. */
  function Answer(d: Deps, e: Envelope): Option<(Bytes, bool)>
    requires d.redactor.Some?
  {
    d.redactor.value(e.sourceService, e.action, e.payload)
  }

  predicate RedactorFails(d: Deps, e: Envelope) {
    e.payload != [] && d.redactor.Some? && Answer(d, e).None?
  }

  /** 64 hex digits of either case, with or without the prefix. */
  predicate HashReads(h: Bytes) {
    |TrimPrefix(h)| == 64 && AllHex(TrimPrefix(h))
  }

  /** Exactly when a message is turned away before anything is written, and for which reason. */
  lemma RefusedIff(d: Deps, value: Bytes)
    ensures var p, ok := Prepare(d, value), IsEnvelope(d, value);
            && (p == Refuse(DecodeFailed) <==> !ok)
            && (ok ==>
                  var e := d.decode(value).value;
                  && (p == Refuse(PayloadHashMismatch) <==> e.payload != [] && !HashFits(d, e))
                  && (p == Refuse(RedactionFailed) <==> e.payload != [] && HashFits(d, e) && RedactorFails(d, e))
                  && (p == Refuse(PayloadHashFormat) <==> e.payload == [] && !HashReads(e.payloadHash))
                  && (p.Ready? <==> if e.payload == [] then HashReads(e.payloadHash)
                                    else HashFits(d, e) && !RedactorFails(d, e)))
            && (p.Refuse? ==>
                  p.reason in {DecodeFailed, PayloadHashMismatch, RedactionFailed, PayloadHashFormat})
  {
    if IsEnvelope(d, value) {
      var e := d.decode(value).value;
      ProducerHashPasses(d.sha(e.payload), e.payloadHash);
      HashRoundTrip(d.sha(e.payload));
      DecodeHashAccepts(e.payloadHash);
    }
  }

  /** An accepted message is redacted exactly when the redactor answers with a change, and then stored so. */
  lemma ReadyMeaning(d: Deps, value: Bytes)
    requires Prepare(d, value).Ready?
    ensures var p := Prepare(d, value);
            var e := p.env;
            && d.decode(value) == Some(e)
            && (p.redacted <==> e.payload != [] && d.redactor.Some? && Answer(d, e).Some? && Answer(d, e).value.1)
            && p.body == (if p.redacted then Answer(d, e).value.0 else e.payload)
            && (e.payload != [] ==> p.payloadHash == d.sha(e.payload))
            && (e.payload == [] ==> DecodeHash(e.payloadHash) == Some(p.payloadHash))
  {
    HashRoundTrip(d.sha(Prepare(d, value).env.payload));
  }

  /** The row that an accepted message submits, column by column. */
  lemma RowMeaning(d: Deps, p: Prepared)
    requires p.Ready?
    ensures var row := RowOf(d, p);
            && row.core.id == p.env.id && row.core.ts == p.env.ts
            && row.core.sourceService == p.env.sourceService && row.core.actorId == p.env.actorId
            && row.core.action == p.env.action
            && row.core.targetType == p.env.targetType && row.core.targetId == p.env.targetId
            && row.core.payloadHash == p.payloadHash && row.core.redacted == p.redacted
            && row.core.payloadRef == (if d.hasPayloads && d.bucket != [] && p.body != [] then p.env.id else [])
            && !row.anchored && row.legalHold == d.legalHoldDefault
  {
  }

  /** The object under the event's id after an accepted message whose body is stored. */
  lemma ObjectMeaning(d: Deps, w: World, p: Prepared, now: Time, storeFails: bool)
    requires p.Ready? && d.hasPayloads && d.bucket != [] && p.body != []
    ensures var path := d.bucket + [47] + p.env.id;
            var (v, outcome) := IngestReady(d, w, p, now, storeFails);
            && (outcome == Rejected(ObjectPutFailed) <==> path in w.objects && O.IsRetained(w.objects[path], now))
            && (outcome == Rejected(ObjectPutFailed) ==> v == w)
            && (outcome != Rejected(ObjectPutFailed) ==>
                  path in v.objects
                  && v.objects[path] == O.Object(p.body, if d.storageClass == [] then O.STANDARD else d.storageClass,
                                                 d.retentionDays, d.legalHoldDefault, now))
  {
  }

  /** After the object: the insert fails, finds the id, or adds the linked row.  The sink is not written. */
  lemma InsertMeaning(d: Deps, w: World, p: Prepared, now: Time, storeFails: bool)
    requires p.Ready?
    ensures var (v, outcome) := IngestReady(d, w, p, now, storeFails);
            && v.dead == w.dead
            && (outcome != Rejected(ObjectPutFailed) ==>
                  && (outcome == Rejected(InsertFailed) <==> storeFails)
                  && (outcome == Duplicate <==> !storeFails && HasId(w.table, p.env.id))
                  && (outcome.Inserted? <==> !storeFails && !HasId(w.table, p.env.id)))
            && (!outcome.Inserted? ==> v.table == w.table)
            && (outcome.Inserted? ==> v.table == InsertSorted(w.table, outcome.row))
            && (!(d.hasPayloads && d.bucket != [] && p.body != []) ==>
                  v.objects == w.objects && outcome != Rejected(ObjectPutFailed))
  {
  }

  class Pipeline {
    const deps: Deps
    const events: M.EventStore
    const payloads: O.Fake
    const deadLetters: DeadLetterStore

    constructor (deps: Deps, events: M.EventStore, payloads: O.Fake, deadLetters: DeadLetterStore)
      ensures this.deps == deps && this.events == events
      ensures this.payloads == payloads && this.deadLetters == deadLetters
    {
      this.deps, this.events, this.payloads, this.deadLetters := deps, events, payloads, deadLetters;
    }

    ghost function State(): World
      reads this, events, events.ordered, payloads, deadLetters
    {
      World(events.Contents(), payloads.objects, deadLetters.items)
    }

    method Reject(m: Message, reason: Reason) returns (r: Outcome)
      modifies deadLetters
      ensures deadLetters.items == Bury(deps, m, old(deadLetters.items), reason)
      ensures r == Rejected(reason)
    {
      if deps.hasDeadLetters {
        deadLetters.Append(DeadLetter(deps.topic, m.partition, m.offset, m.key, m.value, reason));
      }
      r := Rejected(reason);
    }

    method IngestMessage(m: Message, now: Time) returns (r: Outcome)
      requires events.Valid()
      modifies events, payloads, deadLetters
      ensures events.Valid()
      ensures (State(), r) == IngestOne(deps, old(State()), m, now, false)
    {
      var decoded := DecodeAndValidate(deps.decode, m.value);
      if decoded.None? {
        r := Reject(m, DecodeFailed);
        return;
      }
      var ev := decoded.value;
      var payloadHashText := ev.payloadHash;
      var payloadBody: Bytes := [];
      if |ev.payload| > 0 {
        payloadBody := ev.payload;
        var computed := HashPayload(deps.sha, payloadBody);
        if payloadHashText != [] && NormalizeHash(payloadHashText) != computed {
          r := Reject(m, PayloadHashMismatch);
          return;
        }
        payloadHashText := computed;
      }
      var redacted := false;
      if deps.redactor.Some? && |payloadBody| > 0 {
        var out := deps.redactor.value(ev.sourceService, ev.action, payloadBody);
        if out.None? {
          r := Reject(m, RedactionFailed);
          return;
        }
        if out.value.1 {
          payloadBody, redacted := out.value.0, true;
        }
      }
      var payloadHash := DecodeHash(payloadHashText);
      if payloadHash.None? {
        r := Reject(m, PayloadHashFormat);
        return;
      }
      ghost var p := Ready(ev, payloadBody, payloadHash.value, redacted);
      assert Prepare(deps, m.value) == p;
      r := StoreMessage(ev, payloadBody, payloadHash.value, redacted, now);
    }

    /** The payload goes to the object store before the index row exists. */
    method PutPayload(id: Bytes, body: Bytes, now: Time) returns (ok: bool, payloadRef: Bytes)
      modifies payloads
      ensures var path := O.Path(deps.bucket, id);
              var writes := deps.hasPayloads && deps.bucket != [] && body != [];
              && ok == !(writes && O.Refused(old(payloads.objects), path, now))
              && payloads.objects == (if writes && ok
                                      then O.AfterPut(old(payloads.objects), deps.bucket, Options(deps, id), body, now)
                                      else old(payloads.objects))
              && payloadRef == if writes && ok then id else []
    {
      if deps.hasPayloads && deps.bucket != [] && |body| > 0 {
        var err, key := payloads.Put(deps.bucket, Options(deps, id), body, now);
        if err.Some? {
          return false, [];
        }
        return true, key;
      }
      return true, [];
    }

    method StoreMessage(ev: Envelope, body: Bytes, payloadHash: Digest, redacted: bool, now: Time)
      returns (r: Outcome)
      requires events.Valid()
      modifies events, payloads
      ensures events.Valid()
      ensures (State(), r) == IngestReady(deps, old(State()), Ready(ev, body, payloadHash, redacted), now, false)
    {
      var ok, payloadRef := PutPayload(ev.id, body, now);
      if !ok {
        return Rejected(ObjectPutFailed);
      }
      var row := Event(Core(ev.id, ev.ts, ev.sourceService, ev.actorId, ev.action, ev.targetType, ev.targetId,
                            payloadHash, payloadRef, [], [], redacted),
                       false, deps.legalHoldDefault);
      var inserted, linked := events.InsertChained(row, BoundHash(CanonicalHash(deps.sha), row.core));
      if !inserted {
        return Duplicate;
      }
      return Inserted(linked);
    }
  }
}
