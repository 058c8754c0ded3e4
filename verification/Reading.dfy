/** A reader for the canonical encoding, written from the documented layout alone. */
module Reading {
  import opened ByteStrings
  import opened Store
  import opened Encoding

  /** The number that a byte string stands for, most significant byte first. */
  function BigEndian(b: Bytes): nat {
    if b == [] then 0 else 256 * BigEndian(b[..|b| - 1]) + b[|b| - 1]
  }

  datatype Taken<T> = Taken(value: T, rest: Bytes)

  /** Four bytes of length, then that many bytes. */
  function TakeText(b: Bytes): Option<Taken<Bytes>> {
    if |b| < 4 || |b| - 4 < BigEndian(b[..4]) then None
    else Some(Taken(b[4..4 + BigEndian(b[..4])], b[4 + BigEndian(b[..4])..]))
  }

  /** Eight bytes of two's complement. */
  function TakeInstant(b: Bytes): Option<Taken<Time>> {
    if |b| < 8 then None
    else
      var n := BigEndian(b[..8]);
      Some(Taken(if n < TWO_63 then n else n - TWO_64, b[8..]))
  }

  function TakeTexts(b: Bytes, n: nat): Option<Taken<seq<Bytes>>> {
    if n == 0 then Some(Taken([], b))
    else
      match TakeText(b)
      case None => None
      case Some(first) =>
        match TakeTexts(first.rest, n - 1)
        case None => None
        case Some(others) => Some(Taken([first.value] + others.value, others.rest))
  }

  /** id, ts, source_service, actor_id, action, target_type, target_id, payload_hash, prev_hash, and nothing more. */
  function Read(b: Bytes): Option<Hashed> {
    match TakeText(b)
    case None => None
    case Some(id) =>
      match TakeInstant(id.rest)
      case None => None
      case Some(ts) =>
        match TakeTexts(ts.rest, 7)
        case None => None
        case Some(t) =>
          var v := t.value;
          if t.rest != [] || |v| != 7 then None
          else Some(Hashed(id.value, ts.value, v[0], v[1], v[2], v[3], v[4], v[5], v[6]))
  }

  lemma FourBytes(b: Bytes)
    requires |b| == 4
    ensures var d: seq<int> := b; BigEndian(b) == 0x1_00_00_00 * d[0] + 0x1_00_00 * d[1] + 0x1_00 * d[2] + d[3]
  {
    var d: seq<int> := b;
    assert BigEndian(b[..1]) == d[0];
    assert b[..2][..1] == b[..1] && BigEndian(b[..2]) == 0x1_00 * d[0] + d[1];
    assert b[..3][..2] == b[..2] && BigEndian(b[..3]) == 0x1_00_00 * d[0] + 0x1_00 * d[1] + d[2];
  }

  lemma ReadUint32(n: nat)
    requires n < TWO_32
    ensures BigEndian(Uint32(n)) == n
  {
    FourBytes(Uint32(n));
    Uint32Value(n);
  }

  lemma BigEndianSnoc(a: Bytes, x: Byte)
    ensures BigEndian(a + [x]) == 256 * BigEndian(a) + x
  {
    assert (a + [x])[..|a|] == a;
  }

  /** Four more bytes shift by 2^32. */
  lemma BigEndianAppend(a: Bytes, b: Bytes)
    requires |b| == 4
    ensures BigEndian(a + b) == TWO_32 * BigEndian(a) + BigEndian(b)
  {
    assert a + b == (((a + [b[0]]) + [b[1]]) + [b[2]]) + [b[3]];
    BigEndianSnoc(a, b[0]);
    BigEndianSnoc(a + [b[0]], b[1]);
    BigEndianSnoc(a + [b[0]] + [b[1]], b[2]);
    BigEndianSnoc(a + [b[0]] + [b[1]] + [b[2]], b[3]);
    FourBytes(b);
  }

  lemma ReadUint64(n: nat)
    requires n < TWO_64
    ensures BigEndian(Uint64(n)) == n
  {
    ReadUint32(n / TWO_32);
    ReadUint32(n % TWO_32);
    BigEndianAppend(Uint32(n / TWO_32), Uint32(n % TWO_32));
  }

  lemma TakePrefixed(b: Bytes, rest: Bytes)
    requires |b| < TWO_32
    ensures TakeText(Prefixed(b) + rest) == Some(Taken(b, rest))
  {
    var all := Prefixed(b) + rest;
    PrefixedShort(b);
    assert all[..4] == Uint32(|b|);
    ReadUint32(|b|);
    assert all[4..4 + |b|] == b && all[4 + |b|..] == rest;
  }

  lemma SignedResidue(ts: int)
    ensures WrapInt64(ts) == if ts % TWO_64 < TWO_63 then ts % TWO_64 else ts % TWO_64 - TWO_64
  {
    assert (ts + TWO_63) % TWO_64 == (ts % TWO_64 + TWO_63) % TWO_64;
  }

  lemma TakeTime(ts: Time, rest: Bytes)
    ensures TakeInstant(TimeBytes(ts) + rest) == Some(Taken(WrapInt64(ts), rest))
  {
    var all := TimeBytes(ts) + rest;
    assert all[..8] == TimeBytes(ts) && all[8..] == rest;
    ReadUint64(ts % TWO_64);
    SignedResidue(ts);
  }

  function Texts(fs: seq<Bytes>): seq<Field> {
    seq(|fs|, i requires 0 <= i < |fs| => Text(fs[i]))
  }

  lemma EncodeTexts(ts: seq<Bytes>)
    requires ts != []
    ensures Encode(Texts(ts)) == Prefixed(ts[0]) + Encode(Texts(ts[1..]))
  {
    assert Texts(ts) == [Text(ts[0])] + Texts(ts[1..]);
    EncodeCons(Text(ts[0]), Texts(ts[1..]));
  }

  lemma TakeOneMore(b: Bytes, rest: Bytes, n: nat, ts: seq<Bytes>)
    requires |b| < TWO_32 && TakeTexts(rest, n) == Some(Taken(ts, []))
    ensures TakeTexts(Prefixed(b) + rest, n + 1) == Some(Taken([b] + ts, []))
  {
    TakePrefixed(b, rest);
  }

  lemma {:induction false} TakeAllTexts(ts: seq<Bytes>)
    requires forall i :: 0 <= i < |ts| ==> |ts[i]| < TWO_32
    ensures TakeTexts(Encode(Texts(ts)), |ts|) == Some(Taken(ts, []))
  {
    if ts == [] {
    } else {
      TakeAllTexts(ts[1..]);
      EncodeTexts(ts);
      TakeOneMore(ts[0], Encode(Texts(ts[1..])), |ts| - 1, ts[1..]);
      assert [ts[0]] + ts[1..] == ts;
    }
  }

  lemma ReadParts(id: Bytes, ts: Time, v: seq<Bytes>, rest: Bytes)
    requires |id| < TWO_32 && |v| == 7 && TakeTexts(rest, 7) == Some(Taken(v, []))
    ensures Read(Prefixed(id) + (TimeBytes(ts) + rest))
         == Some(Hashed(id, WrapInt64(ts), v[0], v[1], v[2], v[3], v[4], v[5], v[6]))
  {
    TakePrefixed(id, TimeBytes(ts) + rest);
    TakeTime(ts, rest);
  }

  function TextsOf(h: Hashed): seq<Bytes> {
    [h.sourceService, h.actorId, h.action, h.targetType, h.targetId, h.payloadHash, h.prevHash]
  }

  lemma FieldsAsTexts(h: Hashed)
    ensures Fields(h) == [Text(h.id)] + ([Instant(h.ts)] + Texts(TextsOf(h)))
  {
  }

  lemma CanonicalParts(h: Hashed)
    ensures Canonical(h) == Prefixed(h.id) + (TimeBytes(h.ts) + Encode(Texts(TextsOf(h))))
  {
    var rest := Texts(TextsOf(h));
    FieldsAsTexts(h);
    EncodeCons(Text(h.id), [Instant(h.ts)] + rest);
    EncodeCons(Instant(h.ts), rest);
  }

  /** What is hashed is the documented layout: reading it back gives the nine fields, the instant as an int64. */
  lemma ReadCanonical(c: Core)
    requires TextsFit(HashedOf(c))
    ensures Read(Canonical(HashedOf(c)))
         == Some(Hashed(c.id, WrapInt64(c.ts), c.sourceService, c.actorId, c.action, c.targetType, c.targetId,
                        c.payloadHash, c.prevHash))
  {
    var ts := TextsOf(HashedOf(c));
    CanonicalParts(HashedOf(c));
    TakeAllTexts(ts);
    ReadParts(c.id, c.ts, ts, Encode(Texts(ts)));
  }
}
