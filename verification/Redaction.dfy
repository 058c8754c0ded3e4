/** PII redaction of a payload's top-level fields. */
module Redaction {
  import opened ByteStrings
  import opened Store
  import opened Encoding
  import Envelopes

  /** A decoded JSON value: a string, or anything else known by its JSON text. */
  datatype Json = JsonString(s: Bytes) | JsonOther(json: Bytes)

  type Object = map<Bytes, Json>

  /** The JSON library and Unicode lower-casing. */
  datatype Codec = Codec(
    decode: Bytes -> Option<Object>,
    encode: Object -> Bytes,
    quote: Bytes -> Bytes,
    lower: Bytes -> Bytes
  )

  datatype Transform = NoChange | Hash | Mask | Drop | Unknown

  datatype Rule = Rule(service: Bytes, action: Bytes, fields: map<Bytes, Transform>)

  const STAR: Bytes := [42]

  // ---------------------------------------------------------------- values

  /** `string(b)` of a single byte: the UTF-8 encoding of the code point with that number. */
  function RuneString(b: Byte): Bytes {
    if b < 128 then [b] else [192 + b / 64, 128 + b % 64]
  }

  function Stars(n: nat): (r: Bytes)
    ensures |r| == n
    ensures forall i :: 0 <= i < n ==> r[i] == 42
  {
    if n == 0 then [] else Stars(n - 1) + STAR
  }

  function MaskString(s: Bytes): Bytes {
    if |s| <= 2 then STAR else RuneString(s[0]) + Stars(|s| - 2) + RuneString(s[|s| - 1])
  }

  function Marshal(cx: Codec, v: Json): Bytes {
    match v
    case JsonString(s) => cx.quote(s)
    case JsonOther(json) => json
  }

  function AsString(v: Json): Bytes {
    match v
    case JsonString(s) => s
    case JsonOther(json) => json
  }

  /** The new value and whether the field counts as changed. */
  function ApplyTransform(sha: Sha, cx: Codec, t: Transform, v: Json): (Json, bool) {
    match t
    case Hash => (JsonString(Envelopes.EncodeHash(sha(Marshal(cx, v)))), true)
    case Mask => if AsString(v) == [] then (v, false) else (JsonString(MaskString(AsString(v))), true)
    case _ => (v, false)
  }

  // ---------------------------------------------------------------- the pointwise meaning

  predicate RuleMatches(r: Rule, service: Bytes, action: Bytes) {
    (r.service == STAR || r.service == service) && (r.action == STAR || r.action == action)
  }

  function MatchesTo(rules: seq<Rule>, service: Bytes, action: Bytes, n: nat): seq<Rule>
    requires n <= |rules|
  {
    if n == 0 then []
    else
      MatchesTo(rules, service, action, n - 1)
      + if RuleMatches(rules[n - 1], service, action) then [rules[n - 1]] else []
  }

  function DecidingFrom(rules: seq<Rule>, field: Bytes, from: nat): Option<Transform>
    requires from <= |rules|
    decreases |rules| - from
  {
    if from == |rules| then None
    else if field in rules[from].fields then Some(rules[from].fields[field])
    else DecidingFrom(rules, field, from + 1)
  }

  function Deciding(rules: seq<Rule>, field: Bytes): Option<Transform> {
    DecidingFrom(rules, field, 0)
  }

  /** Rule `i` names the field and no rule before it does. */
  ghost predicate FirstNaming(rules: seq<Rule>, field: Bytes, i: nat) {
    i < |rules| && field in rules[i].fields && forall j :: 0 <= j < i ==> field !in rules[j].fields
  }

  lemma {:induction false} DecidingIsFirst(rules: seq<Rule>, field: Bytes, from: nat)
    requires from <= |rules|
    requires forall j :: 0 <= j < from ==> field !in rules[j].fields
    ensures var t := DecidingFrom(rules, field, from);
            && (t.None? <==> forall j :: 0 <= j < |rules| ==> field !in rules[j].fields)
            && (t.Some? ==> exists i: nat :: FirstNaming(rules, field, i) && rules[i].fields[field] == t.value)
    decreases |rules| - from
  {
    if from == |rules| {
    } else {
      if field in rules[from].fields {
        assert FirstNaming(rules, field, from);
      } else {
        DecidingIsFirst(rules, field, from + 1);
      }
    }
  }

  datatype Fate = Keep | Replace(v: Json) | Remove

  function FateOf(sha: Sha, cx: Codec, rules: seq<Rule>, k: Bytes, v: Json): Fate {
    match Deciding(rules, cx.lower(k))
    case None => Keep
    case Some(t) =>
      if t == Drop then Remove
      else
        var (w, changed) := ApplyTransform(sha, cx, t, v);
        if changed then Replace(w) else Keep
  }

  /** Every field on its own: no order among fields. */
  function Redact(sha: Sha, cx: Codec, rules: seq<Rule>, obj: Object): Object {
    map k | k in obj && !FateOf(sha, cx, rules, k, obj[k]).Remove? ::
      var fate := FateOf(sha, cx, rules, k, obj[k]); if fate.Replace? then fate.v else obj[k]
  }

  predicate Touches(sha: Sha, cx: Codec, rules: seq<Rule>, obj: Object) {
    exists k :: k in obj && !FateOf(sha, cx, rules, k, obj[k]).Keep?
  }

  datatype Applied = Applied(body: Bytes, changed: bool) | DecodeError

  function ApplyResult(sha: Sha, cx: Codec, policy: seq<Rule>, service: Bytes, action: Bytes, body: Bytes): Applied {
    var rules := MatchesTo(policy, service, action, |policy|);
    if body == [] || rules == [] then Applied(body, false)
    else
      match cx.decode(body)
      case None => DecodeError
      case Some(obj) =>
        if Touches(sha, cx, rules, obj) then Applied(cx.encode(Redact(sha, cx, rules, obj)), true)
        else Applied(body, false)
  }

  // ---------------------------------------------------------------- the code

  method Matching(policy: seq<Rule>, service: Bytes, action: Bytes) returns (out: seq<Rule>)
    ensures out == MatchesTo(policy, service, action, |policy|)
  {
    out := [];
    var i := 0;
    while i < |policy|
      invariant 0 <= i <= |policy|
      invariant out == MatchesTo(policy, service, action, i)
    {
      var r := policy[i];
      i := i + 1;
      if r.service != STAR && r.service != service { continue; }
      if r.action != STAR && r.action != action { continue; }
      out := out + [r];
    }
  }

  /** One field: the first matching rule that names it is applied to the map entry. */
  method ApplyRules(sha: Sha, cx: Codec, rules: seq<Rule>, obj: Object, k: Bytes) returns (out: Object, changed: bool)
    requires k in obj
    ensures var fate := FateOf(sha, cx, rules, k, obj[k]);
            && changed == !fate.Keep?
            && out == match fate case Keep => obj case Replace(v) => obj[k := v] case Remove => obj - {k}
  {
    out, changed := obj, false;
    var lower := cx.lower(k);
    var i := 0;
    while i < |rules|
      invariant 0 <= i <= |rules|
      invariant out == obj && !changed
      invariant Deciding(rules, lower) == DecidingFrom(rules, lower, i)
    {
      var r := rules[i];
      i := i + 1;
      if lower !in r.fields { continue; }
      var t := r.fields[lower];
      if t == Drop {
        out, changed := out - {k}, true;
        break;
      }
      var (newVal, fieldChanged) := ApplyTransform(sha, cx, t, out[k]);
      if fieldChanged {
        out, changed := out[k := newVal], true;
      }
      break;
    }
  }

  /** Whatever order the keys of the map are visited in, the result is the pointwise one. */
  method Apply(sha: Sha, cx: Codec, policy: seq<Rule>, service: Bytes, action: Bytes, body: Bytes)
    returns (r: Applied)
    ensures r == ApplyResult(sha, cx, policy, service, action, body)
  {
    if |body| == 0 {
      return Applied(body, false);
    }
    var rules := Matching(policy, service, action);
    if |rules| == 0 {
      return Applied(body, false);
    }
    var decoded := cx.decode(body);
    if decoded.None? {
      return DecodeError;
    }
    var orig := decoded.value;
    var obj, changed := orig, false;
    var todo := orig.Keys;
    while todo != {}
      invariant todo <= orig.Keys
      invariant forall k :: k in todo ==> k in obj && obj[k] == orig[k]
      invariant forall k :: k in obj ==> k in orig
      invariant forall k :: k in orig && k !in todo ==> Settled(sha, cx, rules, orig, obj, k)
      invariant changed <==> exists k :: k in orig && k !in todo && !FateOf(sha, cx, rules, k, orig[k]).Keep?
      decreases todo
    {
      var k :| k in todo;
      todo := todo - {k};
      var fieldChanged;
      obj, fieldChanged := ApplyRules(sha, cx, rules, obj, k);
      if fieldChanged {
        changed := true;
      }
    }
    if !changed {
      return Applied(body, false);
    }
    assert obj == Redact(sha, cx, rules, orig);
    return Applied(cx.encode(obj), true);
  }

  ghost predicate Settled(sha: Sha, cx: Codec, rules: seq<Rule>, orig: Object, obj: Object, k: Bytes)
    requires k in orig
  {
    match FateOf(sha, cx, rules, k, orig[k])
    case Keep => k in obj && obj[k] == orig[k]
    case Replace(v) => k in obj && obj[k] == v
    case Remove => k !in obj
  }

  /** What the first rule naming a field does to it, whatever the later rules say. */
  lemma FirstRuleDecides(sha: Sha, cx: Codec, rules: seq<Rule>, obj: Object, k: Bytes, i: nat)
    requires k in obj && FirstNaming(rules, cx.lower(k), i)
    ensures var out, v, t := Redact(sha, cx, rules, obj), obj[k], rules[i].fields[cx.lower(k)];
            && (k in out <==> t != Drop)
            && (t == Hash ==>
                  out[k] == JsonString(Envelopes.EncodeHash(sha(if v.JsonString? then cx.quote(v.s) else v.json))))
            && (t == Mask ==>
                  var text := if v.JsonString? then v.s else v.json;
                  out[k] == if text == [] then v else JsonString(MaskString(text)))
            && (t == NoChange || t == Unknown ==> out[k] == v)
  {
    DecidingIsFirst(rules, cx.lower(k), 0);
    var j: nat :| FirstNaming(rules, cx.lower(k), j)
                  && Some(rules[j].fields[cx.lower(k)]) == Deciding(rules, cx.lower(k));
    assert i == j;
  }

  /** A field changes when its first rule drops or hashes it, or masks a value that is not the empty string. */
  ghost predicate ChangedBy(cx: Codec, rules: seq<Rule>, k: Bytes, v: Json, i: nat) {
    && FirstNaming(rules, cx.lower(k), i)
    && var t := rules[i].fields[cx.lower(k)];
       t == Drop || t == Hash || (t == Mask && v != JsonString([]) && v != JsonOther([]))
  }

  lemma ChangedIff(sha: Sha, cx: Codec, rules: seq<Rule>, k: Bytes, v: Json)
    ensures !FateOf(sha, cx, rules, k, v).Keep? <==> exists i: nat :: ChangedBy(cx, rules, k, v, i)
  {
    DecidingIsFirst(rules, cx.lower(k), 0);
    if Deciding(rules, cx.lower(k)).Some? {
      var j: nat :| FirstNaming(rules, cx.lower(k), j)
                    && rules[j].fields[cx.lower(k)] == Deciding(rules, cx.lower(k)).value;
      assert ChangedBy(cx, rules, k, v, j) <==> !FateOf(sha, cx, rules, k, v).Keep?;
    }
  }

  /** The rules for the pair are those that name it or "*", on either side. */
  lemma {:induction false} MatchingIff(policy: seq<Rule>, service: Bytes, action: Bytes, n: nat, r: Rule)
    requires n <= |policy|
    ensures r in MatchesTo(policy, service, action, n) <==>
            r in policy[..n] && r.service in {[42], service} && r.action in {[42], action}
  {
    if n == 0 {
    } else {
      MatchingIff(policy, service, action, n - 1, r);
      assert policy[..n] == policy[..n - 1] + [policy[n - 1]];
    }
  }

  lemma {:induction false} DecidingSnoc(rules: seq<Rule>, r: Rule, field: Bytes, from: nat)
    requires from <= |rules|
    ensures DecidingFrom(rules + [r], field, from)
         == if DecidingFrom(rules, field, from).Some? then DecidingFrom(rules, field, from)
            else if field in r.fields then Some(r.fields[field]) else None
    decreases |rules| - from
  {
    if from == |rules| {
      assert (rules + [r])[from] == r;
      assert DecidingFrom(rules + [r], field, from + 1).None?;
    } else {
      DecidingSnoc(rules, r, field, from + 1);
    }
  }

  ghost predicate Speaks(r: Rule, service: Bytes, action: Bytes, field: Bytes) {
    r.service in {[42], service} && r.action in {[42], action} && field in r.fields
  }

  /** Of the policy's rules for the pair, the first in policy order that names a field decides it. */
  lemma {:induction false} PolicyOrderDecides(policy: seq<Rule>, service: Bytes, action: Bytes, field: Bytes, n: nat,
                                              i: nat)
    requires n <= |policy| && forall j :: 0 <= j < i && j < n ==> !Speaks(policy[j], service, action, field)
    requires i < |policy| && Speaks(policy[i], service, action, field)
    ensures Deciding(MatchesTo(policy, service, action, n), field)
         == if i < n then Some(policy[i].fields[field]) else None
  {
    if n == 0 {
    } else {
      PolicyOrderDecides(policy, service, action, field, n - 1, i);
      DecidingSnoc(MatchesTo(policy, service, action, n - 1), policy[n - 1], field, 0);
      var before := MatchesTo(policy, service, action, n - 1);
      assert before + [] == before;
    }
  }

  ghost predicate SomeFieldChanges(cx: Codec, rules: seq<Rule>, obj: Object) {
    exists k, i: nat :: k in obj && ChangedBy(cx, rules, k, obj[k], i)
  }

  /** The body comes back as it was unless it decodes and some field of it changes under the rules for the pair. */
  lemma ApplyOutcomeIff(sha: Sha, cx: Codec, policy: seq<Rule>, service: Bytes, action: Bytes, body: Bytes)
    ensures var rules := MatchesTo(policy, service, action, |policy|);
            var r := ApplyResult(sha, cx, policy, service, action, body);
            && (r == DecodeError <==> body != [] && rules != [] && cx.decode(body).None?)
            && (r.Applied? ==>
                  (r.changed <==> body != [] && rules != [] && SomeFieldChanges(cx, rules, cx.decode(body).value))
                  && r.body == if r.changed then cx.encode(Redact(sha, cx, rules, cx.decode(body).value)) else body)
  {
    var rules := MatchesTo(policy, service, action, |policy|);
    if cx.decode(body).Some? {
      var obj := cx.decode(body).value;
      forall k | k in obj ensures !FateOf(sha, cx, rules, k, obj[k]).Keep?
                                  <==> exists i: nat :: ChangedBy(cx, rules, k, obj[k], i)
      {
        ChangedIff(sha, cx, rules, k, obj[k]);
      }
    }
  }

  /** Fields no rule names are untouched, and no field is invented. */
  lemma OtherFieldsUntouched(sha: Sha, cx: Codec, rules: seq<Rule>, obj: Object, k: Bytes)
    requires forall i :: 0 <= i < |rules| ==> cx.lower(k) !in rules[i].fields
    ensures var out := Redact(sha, cx, rules, obj);
            (k in out <==> k in obj) && (k in obj ==> out[k] == obj[k])
  {
    DecidingIsFirst(rules, cx.lower(k), 0);
  }

  // ---------------------------------------------------------------- masking twice

  predicate AsciiEnds(s: Bytes) {
    |s| <= 2 || (s[0] < 128 && s[|s| - 1] < 128)
  }

  /**
   * Masking keeps the first and last byte as if they were characters.  Masking a masked value again changes
   * nothing exactly when both are ASCII (or the value is too short to show any).
   */
  lemma MaskTwice(s: Bytes)
    ensures MaskString(MaskString(s)) == MaskString(s) <==> AsciiEnds(s)
  {
  }

  /** The code point a UTF-8 sequence of one or two bytes stands for. */
  function CodePoint(u: Bytes): int {
    var v: seq<int> := u;
    if |v| == 1 then v[0] else if |v| == 2 then 64 * (v[0] - 192) + (v[1] - 128) else -1
  }

  lemma RuneOf(b: Byte)
    ensures CodePoint(RuneString(b)) == b && |RuneString(b)| == if b < 128 then 1 else 2
  {
  }

  /** Masking shows the first and the last byte as characters, with a star for each byte between; short values go. */
  lemma MaskShows(s: Bytes)
    ensures |s| <= 2 ==> MaskString(s) == [42]
    ensures |s| > 2 ==>
              var m, p, q := MaskString(s), if s[0] < 128 then 1 else 2, if s[|s| - 1] < 128 then 1 else 2;
              && |m| == p + (|s| - 2) + q
              && CodePoint(m[..p]) == s[0] && CodePoint(m[|m| - q..]) == s[|s| - 1]
              && forall i :: p <= i < |m| - q ==> m[i] == 42
  {
    if |s| > 2 {
      var a, z := RuneString(s[0]), RuneString(s[|s| - 1]);
      RuneOf(s[0]);
      RuneOf(s[|s| - 1]);
      assert MaskString(s)[..|a|] == a && MaskString(s)[|a| + (|s| - 2)..] == z;
    }
  }

  /** No rule hashes. */
  predicate MaskAndDropOnly(rules: seq<Rule>) {
    forall i, f :: 0 <= i < |rules| && f in rules[i].fields ==> rules[i].fields[f] != Hash
  }

  lemma RedactTwiceAt(sha: Sha, cx: Codec, rules: seq<Rule>, obj: Object, k: Bytes)
    requires MaskAndDropOnly(rules) && k in Redact(sha, cx, rules, obj)
    ensures var once := Redact(sha, cx, rules, obj);
            var twice := Redact(sha, cx, rules, once);
            && k in twice
            && (twice[k] == once[k] <==>
                  (Deciding(rules, cx.lower(k)) == Some(Mask) ==> AsciiEnds(AsString(obj[k]))))
  {
    var once := Redact(sha, cx, rules, obj);
    var t := Deciding(rules, cx.lower(k));
    DecidingIsFirst(rules, cx.lower(k), 0);
    assert t != Some(Drop) && t != Some(Hash);
    if t == Some(Mask) {
      MaskTwice(AsString(obj[k]));
      if AsString(obj[k]) != [] {
        assert once[k] == JsonString(MaskString(AsString(obj[k])));
      }
    }
  }

  /** A policy that only masks and drops is idempotent on an object exactly when the masked values have ASCII ends. */
  lemma RedactTwice(sha: Sha, cx: Codec, rules: seq<Rule>, obj: Object)
    requires MaskAndDropOnly(rules)
    ensures var once := Redact(sha, cx, rules, obj);
            Redact(sha, cx, rules, once) == once <==>
            forall k :: k in obj && Deciding(rules, cx.lower(k)) == Some(Mask) ==> AsciiEnds(AsString(obj[k]))
  {
    var once := Redact(sha, cx, rules, obj);
    var twice := Redact(sha, cx, rules, once);
    forall k | k in once
      ensures k in twice
      ensures twice[k] == once[k] <==> (Deciding(rules, cx.lower(k)) == Some(Mask) ==> AsciiEnds(AsString(obj[k])))
    {
      RedactTwiceAt(sha, cx, rules, obj, k);
    }
    assert twice.Keys == once.Keys;
    assert forall k :: k in obj && Deciding(rules, cx.lower(k)) == Some(Mask) ==> k in once;
  }
}
