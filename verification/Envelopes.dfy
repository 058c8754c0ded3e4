/** The wire envelope: validation, and the textual form of hashes. */
module Envelopes {
  import opened ByteStrings
  import opened Store
  import opened Encoding

  /** The fields ingest reads.  `payload` is the raw JSON text of the payload, empty when absent. */
  datatype Envelope = Envelope(
    id: Bytes,
    ts: Time,
    sourceService: Bytes,
    actorId: Bytes,
    action: Bytes,
    targetType: Bytes,
    targetId: Bytes,
    payloadHash: Bytes,
    payload: Bytes
  )

  datatype FieldName = Id | Ts | SourceService | ActorId | Action | TargetType | TargetId | PayloadHash

  /** The first missing required field, if any. */
  function Validate(e: Envelope): (missing: Option<FieldName>)
    ensures missing.None? <==>
      && e.ts != ZERO_TIME
      && [] !in {e.id, e.sourceService, e.actorId, e.action, e.targetType, e.targetId, e.payloadHash}
  {
    if e.id == [] then Some(Id)
    else if e.ts == ZERO_TIME then Some(Ts)
    else if e.sourceService == [] then Some(SourceService)
    else if e.actorId == [] then Some(ActorId)
    else if e.action == [] then Some(Action)
    else if e.targetType == [] then Some(TargetType)
    else if e.targetId == [] then Some(TargetId)
    else if e.payloadHash == [] then Some(PayloadHash)
    else None
  }

  predicate IsMissing(e: Envelope, f: FieldName) {
    match f
    case Id => e.id == []
    case Ts => e.ts == ZERO_TIME
    case SourceService => e.sourceService == []
    case ActorId => e.actorId == []
    case Action => e.action == []
    case TargetType => e.targetType == []
    case TargetId => e.targetId == []
    case PayloadHash => e.payloadHash == []
  }

  const REQUIRED := [Id, Ts, SourceService, ActorId, Action, TargetType, TargetId, PayloadHash]

  /** The field reported is the first that is missing in the order of the envelope. */
  lemma FirstMissing(e: Envelope, i: nat)
    requires i < |REQUIRED|
    ensures Validate(e) == Some(REQUIRED[i]) <==>
            IsMissing(e, REQUIRED[i]) && forall j :: 0 <= j < i ==> !IsMissing(e, REQUIRED[j])
  {
    assert REQUIRED[0] == Id && REQUIRED[1] == Ts && REQUIRED[2] == SourceService && REQUIRED[3] == ActorId;
    assert REQUIRED[4] == Action && REQUIRED[5] == TargetType && REQUIRED[6] == TargetId;
    assert REQUIRED[7] == PayloadHash;
  }

  /** `decode` stands for the JSON library. */
  function DecodeAndValidate(decode: Bytes -> Option<Envelope>, value: Bytes): (r: Option<Envelope>)
    ensures r.Some? ==> Validate(r.value).None?
  {
    if value == [] then None
    else
      var e := decode(value);
      if e.Some? && Validate(e.value).None? then e else None
  }

  // ---------------------------------------------------------------- hexadecimal

  /** "sha256:" */
  const HASH_PREFIX: Bytes := [115, 104, 97, 50, 53, 54, 58]

  function HexDigit(n: nat): Byte
    requires n < 16
  {
    if n < 10 then 48 + n else 87 + n
  }

  /** Both cases are read. */
  function HexValue(b: Byte): (v: Option<nat>)
    ensures v.Some? ==> v.value < 16
  {
    if 48 <= b <= 57 then Some(b - 48)
    else if 97 <= b <= 102 then Some(b - 87)
    else if 65 <= b <= 70 then Some(b - 55)
    else None
  }

  function HexEncode(b: Bytes): (h: Bytes)
    ensures |h| == 2 * |b|
  {
    if b == [] then [] else [HexDigit(b[0] / 16), HexDigit(b[0] % 16)] + HexEncode(b[1..])
  }

  /** hex.DecodeString: fails on an odd length or a byte that is not a hex digit. */
  function HexDecode(h: Bytes): Option<Bytes> {
    if h == [] then Some([])
    else if |h| == 1 then None
    else
      var hi, lo, rest := HexValue(h[0]), HexValue(h[1]), HexDecode(h[2..]);
      if hi.Some? && lo.Some? && rest.Some? then Some([16 * hi.value + lo.value] + rest.value) else None
  }

  lemma {:induction false} HexRoundTrip(b: Bytes)
    ensures HexDecode(HexEncode(b)) == Some(b)
  {
    if b == [] {
    } else {
      HexRoundTrip(b[1..]);
      var h := HexEncode(b);
      assert h[2..] == HexEncode(b[1..]);
      assert HexValue(h[0]) == Some(b[0] / 16) && HexValue(h[1]) == Some(b[0] % 16);
      assert [b[0]] + b[1..] == b;
    }
  }

  predicate AllHex(h: Bytes) {
    forall i :: 0 <= i < |h| ==> HexValue(h[i]).Some?
  }

  lemma {:induction false} HexDecodeAccepts(h: Bytes)
    ensures HexDecode(h).Some? <==> |h| % 2 == 0 && AllHex(h)
    ensures HexDecode(h).Some? ==> |HexDecode(h).value| == |h| / 2
  {
    if |h| < 2 {
    } else {
      HexDecodeAccepts(h[2..]);
      assert AllHex(h) <==> HexValue(h[0]).Some? && HexValue(h[1]).Some? && AllHex(h[2..]) by {
        assert forall i :: 2 <= i < |h| ==> h[i] == h[2..][i - 2];
      }
    }
  }

  /** "0123456789abcdef" */
  const DIGITS: Bytes := [48, 49, 50, 51, 52, 53, 54, 55, 56, 57, 97, 98, 99, 100, 101, 102]

  /** Two digits a byte, the high one first. */
  lemma {:induction false} HexDigitsOf(b: Bytes, i: nat)
    requires i < |b|
    ensures HexEncode(b)[2 * i] == DIGITS[b[i] / 16] && HexEncode(b)[2 * i + 1] == DIGITS[b[i] % 16]
  {
    if i == 0 {
    } else {
      HexDigitsOf(b[1..], i - 1);
    }
  }

  // ---------------------------------------------------------------- hashes as text

  function TrimPrefix(h: Bytes): Bytes {
    if HASH_PREFIX <= h then h[|HASH_PREFIX|..] else h
  }

  function EncodeHash(b: Digest): Bytes {
    HASH_PREFIX + HexEncode(b)
  }

  function HashPayload(sha: Sha, payload: Bytes): Bytes {
    EncodeHash(sha(payload))
  }

  function NormalizeHash(h: Bytes): Bytes {
    if h == [] then []
    else if HASH_PREFIX <= h then h
    else if |h| == 64 && AllHex(h) then HASH_PREFIX + h
    else h
  }

  function DecodeHash(h: Bytes): (r: Option<Digest>) {
    var b := HexDecode(TrimPrefix(h));
    if b.Some? && |b.value| == 32 then Some(b.value) else None
  }

  /** "sha256:" and the 64 lower-case digits of the 32 bytes, two for each, the high one first. */
  lemma HashTextMeaning(d: Digest, i: nat)
    requires i < 32
    ensures var h, digits := EncodeHash(d), Ascii("0123456789abcdef");
            && |h| == 71 && h[..7] == Ascii("sha256:")
            && h[7 + 2 * i] == digits[d[i] / 16] && h[7 + 2 * i + 1] == digits[d[i] % 16]
  {
    HexDigitsOf(d, i);
    assert Ascii("sha256:") == HASH_PREFIX && Ascii("0123456789abcdef") == DIGITS;
  }

  lemma HashRoundTrip(d: Digest)
    ensures DecodeHash(EncodeHash(d)) == Some(d)
  {
    HexRoundTrip(d);
    assert TrimPrefix(EncodeHash(d)) == HexEncode(d);
  }

  /** Exactly 64 hex digits of either case, with or without the prefix, are read as a hash. */
  lemma DecodeHashAccepts(h: Bytes)
    ensures DecodeHash(h).Some? <==> |TrimPrefix(h)| == 64 && AllHex(TrimPrefix(h))
  {
    HexDecodeAccepts(TrimPrefix(h));
  }

  function LowerDigit(b: Byte): Byte {
    if 65 <= b <= 70 then b + 32 else b
  }

  function LowerHex(h: Bytes): (r: Bytes)
    ensures |r| == |h|
  {
    seq(|h|, i requires 0 <= i < |h| => LowerDigit(h[i]))
  }

  lemma {:induction false} HexCanonical(h: Bytes)
    requires HexDecode(h).Some?
    ensures HexEncode(HexDecode(h).value) == LowerHex(h)
  {
    if |h| < 2 {
    } else {
      HexCanonical(h[2..]);
      DigitCanonical(h[0]);
      DigitCanonical(h[1]);
      assert LowerHex(h) == [LowerDigit(h[0]), LowerDigit(h[1])] + LowerHex(h[2..]);
    }
  }

  lemma DigitCanonical(b: Byte)
    requires HexValue(b).Some?
    ensures HexDigit(HexValue(b).value) == LowerDigit(b)
  {
  }

  /** Reading a hash and writing it again gives the prefixed lower-case form of its digits. */
  lemma HashCanonical(h: Bytes)
    requires DecodeHash(h).Some?
    ensures EncodeHash(DecodeHash(h).value) == HASH_PREFIX + LowerHex(TrimPrefix(h))
  {
    HexCanonical(TrimPrefix(h));
  }

  lemma {:induction false} HexEncodeIsHex(b: Bytes)
    ensures AllHex(HexEncode(b))
  {
    if b == [] {
    } else {
      HexEncodeIsHex(b[1..]);
    }
  }

  /**
   * Ingest compares the producer's text with its own lower-case text: only that text, with or without the
   * prefix, passes.  The same digits in upper case would be decoded to the same hash but are a mismatch.
   */
  lemma ProducerHashPasses(d: Digest, h: Bytes)
    ensures NormalizeHash(h) == EncodeHash(d) <==> h == EncodeHash(d) || h == HexEncode(d)
  {
    HexEncodeIsHex(d);
    var x, e := HexEncode(d), EncodeHash(d);
    assert e[7..] == x && e[..7] == HASH_PREFIX;
    assert HexValue(x[0]).Some? && HexValue(115).None?;
    assert (HASH_PREFIX + h)[7..] == h;
  }
}
