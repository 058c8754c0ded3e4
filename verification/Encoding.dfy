/** The canonical byte encoding of an event and the hash taken over it. */
module Encoding {
  import opened ByteStrings
  import opened Store

  type Digest = d: Bytes | |d| == 32 witness Zeros(32)

  /** SHA-256 is any function from byte strings to 32 bytes: nothing else is known of it. */
  type Sha = Bytes -> Digest

  const ZERO_HASH: Digest := Zeros(32)

  const TWO_32 := 0x1_0000_0000
  const TWO_63 := 0x8000_0000_0000_0000
  const TWO_64 := 0x1_0000_0000_0000_0000

  /** The nine fields covered by this_hash. */
  datatype Hashed = Hashed(
    id: Bytes,
    ts: Time,
    sourceService: Bytes,
    actorId: Bytes,
    action: Bytes,
    targetType: Bytes,
    targetId: Bytes,
    payloadHash: Bytes,
    prevHash: Bytes
  )

  function HashedOf(c: Core): Hashed {
    Hashed(c.id, c.ts, c.sourceService, c.actorId, c.action, c.targetType, c.targetId, c.payloadHash, c.prevHash)
  }

  /** One write to the hasher: a length-prefixed byte string, or a fixed-width instant. */
  datatype Field = Text(b: Bytes) | Instant(ts: Time)

  function Fields(h: Hashed): seq<Field> {
    [Text(h.id), Instant(h.ts), Text(h.sourceService), Text(h.actorId), Text(h.action),
     Text(h.targetType), Text(h.targetId), Text(h.payloadHash), Text(h.prevHash)]
  }

  /** 4-byte big-endian length (a uint32 conversion, so it wraps), then the bytes. */
  function Prefixed(b: Bytes): Bytes {
    Uint32(|b| % TWO_32) + b
  }

  /** UnixNano as an int64 in two's complement, 8 bytes big-endian. */
  function TimeBytes(ts: Time): Bytes {
    Uint64(ts % TWO_64)
  }

  function EncodeField(f: Field): Bytes {
    match f
    case Text(b) => Prefixed(b)
    case Instant(ts) => TimeBytes(ts)
  }

  function Encode(fs: seq<Field>): Bytes {
    if fs == [] then [] else EncodeField(fs[0]) + Encode(fs[1..])
  }

  /** What is fed to SHA-256: the nine writes one after the other. */
  function Canonical(h: Hashed): Bytes {
    Encode(Fields(h))
  }

  /** The value an int64 takes from an integer: two's complement, wrapping. */
  function WrapInt64(n: int): (r: int)
    ensures -TWO_63 <= r < TWO_63
    ensures -TWO_63 <= n < TWO_63 ==> r == n
  {
    (n + TWO_63) % TWO_64 - TWO_63
  }

  /** Every text is shorter than 2^32 bytes, so that no length prefix wraps. */
  predicate TextsFit(h: Hashed) {
    && |h.id| < TWO_32
    && |h.sourceService| < TWO_32
    && |h.actorId| < TWO_32
    && |h.action| < TWO_32
    && |h.targetType| < TWO_32
    && |h.targetId| < TWO_32
    && |h.payloadHash| < TWO_32
    && |h.prevHash| < TWO_32
  }

  predicate InRange(h: Hashed) {
    TextsFit(h) && -TWO_63 <= h.ts < TWO_63
  }

  /** The tuple as the encoding sees it: the instant is an int64 of nanoseconds. */
  function Wrapped(h: Hashed): Hashed {
    h.(ts := WrapInt64(h.ts))
  }

  lemma WrapsAlike(s: int, t: int)
    ensures WrapInt64(s) == WrapInt64(t) <==> s % TWO_64 == t % TWO_64
  {
  }

  /** The eight bytes agree exactly for instants that are the same int64, that is, equal modulo 2^64 nanoseconds. */
  lemma TimeBytesEqualIff(s: Time, t: Time)
    ensures TimeBytes(s) == TimeBytes(t) <==> WrapInt64(s) == WrapInt64(t)
    ensures TimeBytes(s) == TimeBytes(t) <==> s % TWO_64 == t % TWO_64
  {
    Uint64Injective(s % TWO_64, t % TWO_64);
    WrapsAlike(s, t);
  }

  lemma SplitPrefix(p: Bytes, x: Bytes, a: Bytes, restA: Bytes, q: Bytes, y: Bytes, b: Bytes, restB: Bytes)
    requires p == x + a && q == y + b
    requires |x| == |y| && (x == y ==> |a| == |b|)
    requires p + restA == q + restB
    ensures a == b && restA == restB
  {
    assert p + restA == x + (a + restA) && q + restB == y + (b + restB);
    ConcatUnique(x, a + restA, y, b + restB);
    ConcatUnique(a, restA, b, restB);
  }

  lemma PrefixedShort(b: Bytes)
    requires |b| < TWO_32
    ensures Prefixed(b) == Uint32(|b|) + b
  {
  }

  predicate FieldFits(f: Field) {
    f.Text? ==> |f.b| < TWO_32
  }

  predicate FieldAlike(f: Field, g: Field) {
    match f
    case Text(b) => f == g
    case Instant(ts) => g.Instant? && WrapInt64(ts) == WrapInt64(g.ts)
  }

  predicate FieldsAlike(fs: seq<Field>, gs: seq<Field>) {
    |fs| == |gs| && forall i :: 0 <= i < |fs| ==> FieldAlike(fs[i], gs[i])
  }

  /** A length-prefixed field can be read back from the front of any byte string. */
  lemma TextUnique(a: Bytes, restA: Bytes, b: Bytes, restB: Bytes)
    requires |a| < TWO_32 && |b| < TWO_32
    requires Prefixed(a) + restA == Prefixed(b) + restB
    ensures a == b && restA == restB
  {
    PrefixedShort(a);
    PrefixedShort(b);
    Uint32Injective(|a|, |b|);
    SplitPrefix(Prefixed(a), Uint32(|a|), a, restA, Prefixed(b), Uint32(|b|), b, restB);
  }

  lemma InstantUnique(s: Time, restS: Bytes, t: Time, restT: Bytes)
    requires TimeBytes(s) + restS == TimeBytes(t) + restT
    ensures WrapInt64(s) == WrapInt64(t) && restS == restT
  {
    ConcatUnique(TimeBytes(s), restS, TimeBytes(t), restT);
    TimeBytesEqualIff(s, t);
  }

  lemma FieldUnique(f: Field, restF: Bytes, g: Field, restG: Bytes)
    requires f.Text? <==> g.Text?
    requires FieldFits(f) && FieldFits(g)
    requires EncodeField(f) + restF == EncodeField(g) + restG
    ensures FieldAlike(f, g) && restF == restG
  {
    if f.Text? {
      TextUnique(f.b, restF, g.b, restG);
    } else {
      InstantUnique(f.ts, restF, g.ts, restG);
    }
  }

  ghost predicate SameShape(fs: seq<Field>, gs: seq<Field>) {
    |fs| == |gs| && forall i :: 0 <= i < |fs| ==> (fs[i].Text? <==> gs[i].Text?) && FieldFits(fs[i]) && FieldFits(gs[i])
  }

  lemma FirstFieldUnique(fs: seq<Field>, gs: seq<Field>)
    requires SameShape(fs, gs) && fs != []
    requires Encode(fs) == Encode(gs)
    ensures FieldAlike(fs[0], gs[0])
    ensures SameShape(fs[1..], gs[1..]) && Encode(fs[1..]) == Encode(gs[1..])
  {
    FieldUnique(fs[0], Encode(fs[1..]), gs[0], Encode(gs[1..]));
  }

  lemma {:induction false} EncodeInjective(fs: seq<Field>, gs: seq<Field>, k: nat)
    requires SameShape(fs, gs) && k < |fs|
    requires Encode(fs) == Encode(gs)
    ensures FieldAlike(fs[k], gs[k])
    decreases k
  {
    FirstFieldUnique(fs, gs);
    if k == 0 {
    } else {
      EncodeInjective(fs[1..], gs[1..], k - 1);
    }
  }

  lemma {:induction false} EncodeAlike(fs: seq<Field>, gs: seq<Field>)
    requires FieldsAlike(fs, gs)
    ensures Encode(fs) == Encode(gs)
  {
    if fs == [] {
    } else {
      if fs[0].Instant? {
        TimeBytesEqualIff(fs[0].ts, gs[0].ts);
      }
      EncodeAlike(fs[1..], gs[1..]);
    }
  }

  lemma WrappedByField(g: Hashed, h: Hashed)
    ensures Wrapped(g) == Wrapped(h) <==> FieldsAlike(Fields(g), Fields(h))
  {
    var fs, gs := Fields(g), Fields(h);
    if FieldsAlike(fs, gs) {
      assert FieldAlike(fs[0], gs[0]) && FieldAlike(fs[1], gs[1]) && FieldAlike(fs[2], gs[2]);
      assert FieldAlike(fs[3], gs[3]) && FieldAlike(fs[4], gs[4]) && FieldAlike(fs[5], gs[5]);
      assert FieldAlike(fs[6], gs[6]) && FieldAlike(fs[7], gs[7]) && FieldAlike(fs[8], gs[8]);
    }
  }

  lemma EqualMeansFieldsAlike(g: Hashed, h: Hashed)
    requires TextsFit(g) && TextsFit(h) && Canonical(g) == Canonical(h)
    ensures FieldsAlike(Fields(g), Fields(h))
  {
    var fs, gs := Fields(g), Fields(h);
    forall k | 0 <= k < |fs| ensures FieldAlike(fs[k], gs[k]) {
      EncodeInjective(fs, gs, k);
    }
  }

  /** Bytes cannot be moved between fields: the encoding fixes the eight texts and the instant as an int64. */
  lemma CanonicalEqualIff(g: Hashed, h: Hashed)
    requires TextsFit(g) && TextsFit(h)
    ensures Canonical(g) == Canonical(h) <==> Wrapped(g) == Wrapped(h)
  {
    WrappedByField(g, h);
    if Canonical(g) == Canonical(h) {
      EqualMeansFieldsAlike(g, h);
    } else if Wrapped(g) == Wrapped(h) {
      EncodeAlike(Fields(g), Fields(h));
    }
  }

  /** In the int64 range the encoding determines the tuple. */
  lemma CanonicalInjective(g: Hashed, h: Hashed)
    requires InRange(g) && InRange(h)
    ensures Canonical(g) == Canonical(h) <==> g == h
  {
    CanonicalEqualIff(g, h);
  }

  /**
   * The length bound is needed: a field of exactly 2^32 zero bytes has the length prefix of the empty
   * field, so moving it from `id` to `sourceService` leaves the encoding unchanged.
   */
  lemma CanonicalAmbiguousAt4GiB(h: Hashed)
    ensures var z := Zeros(TWO_32);
            var g := h.(id := z, ts := 0, sourceService := []);
            var k := h.(id := [], ts := 0, sourceService := z);
            g != k && Canonical(g) == Canonical(k)
  {
    var z := Zeros(TWO_32);
    var g := h.(id := z, ts := 0, sourceService := []);
    var k := h.(id := [], ts := 0, sourceService := z);
    var rest := Fields(h)[3..];
    assert Fields(g) == [Text(z), Instant(0), Text([])] + rest;
    assert Fields(k) == [Text([]), Instant(0), Text(z)] + rest;
    ZeroFieldsCommute(z, rest);
    assert |g.id| != |k.id|;
  }

  ghost predicate AllZero(b: Bytes) {
    forall i :: 0 <= i < |b| ==> b[i] == 0
  }

  lemma ZeroText(n: nat)
    requires n % TWO_32 == 0
    ensures AllZero(EncodeField(Text(Zeros(n)))) && |EncodeField(Text(Zeros(n)))| == 4 + n
  {
  }

  lemma ZeroFieldsCommute(z: Bytes, rest: seq<Field>)
    requires z == Zeros(TWO_32)
    ensures Encode([Text(z), Instant(0), Text([])] + rest) == Encode([Text([]), Instant(0), Text(z)] + rest)
  {
    EncodeThree(Text(z), Instant(0), Text([]), rest);
    EncodeThree(Text([]), Instant(0), Text(z), rest);
    ZeroText(TWO_32);
    ZeroText(0);
    ZerosCommute(EncodeField(Text(z)), EncodeField(Instant(0)), EncodeField(Text([])));
  }

  lemma ZerosCommute(a: Bytes, b: Bytes, c: Bytes)
    requires AllZero(a) && AllZero(b) && AllZero(c)
    ensures a + b + c == c + b + a
  {
  }

  lemma EncodeThree(f: Field, g: Field, h: Field, rest: seq<Field>)
    ensures Encode([f, g, h] + rest) == EncodeField(f) + EncodeField(g) + EncodeField(h) + Encode(rest)
  {
    EncodeCons(f, [g, h] + rest);
    EncodeCons(g, [h] + rest);
    EncodeCons(h, rest);
    assert [f, g, h] + rest == [f] + ([g, h] + rest);
    assert [g, h] + rest == [g] + ([h] + rest);
    ConcatAssociative(EncodeField(f), EncodeField(g), EncodeField(h), Encode(rest));
  }

  lemma EncodeCons(f: Field, fs: seq<Field>)
    ensures Encode([f] + fs) == EncodeField(f) + Encode(fs)
  {
  }

  /** this_hash as a function of the nine fields: SHA-256 of their canonical encoding. */
  type RowHash = Hashed -> Digest

  function CanonicalHash(sha: Sha): RowHash {
    h => sha(Canonical(h))
  }

  /** Two different byte strings with the same SHA-256. */
  predicate Collide(sha: Sha, x: Bytes, y: Bytes) {
    x != y && sha(x) == sha(y)
  }

  /** The hash does not see beyond the int64. */
  lemma WrappedHash(sha: Sha, h: Hashed)
    requires TextsFit(h)
    ensures CanonicalHash(sha)(Wrapped(h)) == CanonicalHash(sha)(h)
  {
    CanonicalEqualIff(h, Wrapped(h));
  }

  /** Tuples that the encoding tells apart and that have equal hashes are a collision of SHA-256 itself. */
  lemma ClashIsCollision(sha: Sha, g: Hashed, h: Hashed)
    requires TextsFit(g) && TextsFit(h)
    ensures Wrapped(g) != Wrapped(h) && CanonicalHash(sha)(g) == CanonicalHash(sha)(h)
            <==> Collide(sha, Canonical(g), Canonical(h))
  {
    CanonicalEqualIff(g, h);
  }
}
