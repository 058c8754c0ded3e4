/** Records of the store interface: events, filters, cursors, anchors. */
module Store {
  import opened ByteStrings

  datatype Option<+T> = None | Some(value: T)

  /** An instant, in nanoseconds since the Unix epoch.  Go's time.Time has a wider range than int64. */
  type Time = int

  /** 0001-01-01T00:00:00Z: the instant for which time.Time.IsZero holds. */
  const ZERO_TIME: Time := -62135596800 * 1_000_000_000

  /** 1969 years of 365 days before 1970, and a leap day for every fourth but not every hundredth, save each 400th. */
  lemma ZeroTimeIsYearOne()
    ensures ZERO_TIME == -(1969 * 365 + 1969 / 4 - 1969 / 100 + 1969 / 400) * (24 * 3600) * 1_000_000_000
  {
  }

  /** The columns of a row that are written once. */
  datatype Core = Core(
    id: Bytes,
    ts: Time,
    sourceService: Bytes,
    actorId: Bytes,
    action: Bytes,
    targetType: Bytes,
    targetId: Bytes,
    payloadHash: Bytes,
    payloadRef: Bytes,
    prevHash: Bytes,
    thisHash: Bytes,
    redacted: bool
  )

  /** A row: its write-once columns and the two flags that may change. */
  datatype Event = Event(core: Core, anchored: bool, legalHold: bool)

  /** Rows are ordered by (ts ASC, id ASC). */
  datatype Key = Key(ts: Time, id: Bytes)

  function KeyOf(c: Core): Key {
    Key(c.ts, c.id)
  }

  predicate KeyLt(a: Key, b: Key) {
    a.ts < b.ts || (a.ts == b.ts && Less(a.id, b.id))
  }

  predicate KeyLe(a: Key, b: Key) {
    a.ts < b.ts || (a.ts == b.ts && (Less(a.id, b.id) || a.id == b.id))
  }

  lemma KeyLtIrreflexive(a: Key)
    ensures !KeyLt(a, a)
  {
    LessIrreflexive(a.id, 0);
  }

  lemma KeyLtTransitive(a: Key, b: Key, c: Key)
    requires KeyLt(a, b) && KeyLt(b, c)
    ensures KeyLt(a, c)
  {
    if a.ts == b.ts == c.ts {
      LessTransitive(a.id, b.id, c.id, 0);
    }
  }

  lemma KeyLtTotal(a: Key, b: Key)
    ensures KeyLt(a, b) || a == b || KeyLt(b, a)
    ensures !(KeyLt(a, b) && KeyLt(b, a))
  {
    LessTotal(a.id, b.id, 0);
    if KeyLt(a, b) && KeyLt(b, a) {
      KeyLtTransitive(a, b, a);
      KeyLtIrreflexive(a);
    }
  }

  lemma KeyLeIff(a: Key, b: Key)
    ensures KeyLe(a, b) <==> KeyLt(a, b) || a == b
  {
  }

  /** Earlier instants first; at one instant, the id that is smaller at the first difference. */
  lemma KeyLtIff(a: Key, b: Key)
    ensures KeyLt(a, b) <==> a.ts < b.ts || (a.ts == b.ts && exists k: nat :: FirstDifference(a.id, b.id, k))
  {
    LessIff(a.id, b.id);
  }

  /** Search filter: zero values are ignored.  The cursor is the key of the last row already seen. */
  datatype Filter = Filter(
    from: Time,
    to: Time,
    service: Bytes,
    actor: Bytes,
    action: Bytes,
    targetType: Bytes,
    targetId: Bytes,
    limit: int,
    cursor: Key
  )

  const NO_CURSOR := Key(ZERO_TIME, [])

  datatype ListResult = ListResult(events: seq<Event>, nextCursor: Key)

  datatype Anchor = Anchor(
    id: Bytes,
    anchoredAt: Time,
    rootHash: Bytes,
    lastEventId: Bytes,
    lastEventTs: Time,
    signature: Bytes,
    kmsKeyId: Bytes,
    notaryUrl: Bytes,
    eventCount: int
  )

  datatype DeadLetter = DeadLetter(
    topic: Bytes,
    partition: int,
    offset: int,
    key: Bytes,
    payload: Bytes,
    reason: Reason
  )

  /** Why a message was turned away (the free text of the original's messages is dropped). */
  datatype Reason =
    | DecodeFailed
    | PayloadHashMismatch
    | RedactionFailed
    | PayloadHashFormat
    | ObjectPutFailed
    | InsertFailed
}
