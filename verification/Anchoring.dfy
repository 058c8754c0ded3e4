/** The anchor job and the full-chain sweep, over the in-memory stores. */
module Anchoring {
  import opened ByteStrings
  import opened Store
  import opened Encoding
  import opened Chain
  import opened Tables
  import opened Paging
  import opened Memstore
  import Envelopes
  import Sorting

  // ---------------------------------------------------------------- the anchor store

  function AnchoredBefore(): (Anchor, Anchor) -> bool {
    (a: Anchor, b: Anchor) => a.anchoredAt < b.anchoredAt
  }

  /** Both ends of the window are inclusive here. */
  predicate InWindow(a: Anchor, from: Time, to: Time) {
    (from == ZERO_TIME || from <= a.anchoredAt) && (to == ZERO_TIME || a.anchoredAt <= to)
  }

  function InWindowTo(anchors: seq<Anchor>, from: Time, to: Time, n: nat): seq<Anchor>
    requires n <= |anchors|
  {
    if n == 0 then []
    else InWindowTo(anchors, from, to, n - 1) + if InWindow(anchors[n - 1], from, to) then [anchors[n - 1]] else []
  }

  function Listed(anchors: seq<Anchor>, from: Time, to: Time): seq<Anchor> {
    Sorting.StableSort(InWindowTo(anchors, from, to, |anchors|), AnchoredBefore())
  }

  ghost predicate InOrderOfTime(anchors: seq<Anchor>) {
    forall i, j :: 0 <= i < j < |anchors| ==> anchors[i].anchoredAt <= anchors[j].anchoredAt
  }

  function AtInstant(at: Time): Anchor -> bool {
    (a: Anchor) => a.anchoredAt == at
  }

  lemma AmongOneMore(xs: seq<Anchor>, a: Anchor, at: Time, taken: bool)
    ensures Sorting.Among(xs + if taken then [a] else [], AtInstant(at))
         == Sorting.Among(xs, AtInstant(at)) + if taken && a.anchoredAt == at then [a] else []
  {
    if taken {
      Sorting.AmongAppend(xs, a, AtInstant(at));
    } else {
      assert xs + [] == xs;
    }
  }

  lemma {:induction false} WindowKeepsOrder(anchors: seq<Anchor>, from: Time, to: Time, n: nat, at: Time)
    requires n <= |anchors|
    ensures Sorting.Among(InWindowTo(anchors, from, to, n), AtInstant(at))
         == if (from == ZERO_TIME || at >= from) && (to == ZERO_TIME || at <= to)
            then Sorting.Among(anchors[..n], AtInstant(at)) else []
  {
    if n == 0 {
    } else {
      var a := anchors[n - 1];
      WindowKeepsOrder(anchors, from, to, n - 1, at);
      AmongOneMore(InWindowTo(anchors, from, to, n - 1), a, at, InWindow(a, from, to));
      AmongOneMore(anchors[..n - 1], a, at, true);
      assert anchors[..n] == anchors[..n - 1] + [a];
    }
  }

  /** The listing has exactly the window's anchors, oldest first; those of one instant keep their order. */
  lemma ListedIsOrdered(anchors: seq<Anchor>, from: Time, to: Time, at: Time)
    ensures InOrderOfTime(Listed(anchors, from, to))
    ensures multiset(Listed(anchors, from, to)) == multiset(InWindowTo(anchors, from, to, |anchors|))
    ensures Sorting.Among(Listed(anchors, from, to), AtInstant(at))
         == if (from == ZERO_TIME || at >= from) && (to == ZERO_TIME || at <= to)
            then Sorting.Among(anchors, AtInstant(at)) else []
  {
    var xs := InWindowTo(anchors, from, to, |anchors|);
    Sorting.StableSortOrders(xs, AnchoredBefore());
    Sorting.StableSortPermutes(xs, AnchoredBefore());
    Sorting.StableSortKeeps(xs, AnchoredBefore(), AtInstant(at));
    WindowKeepsOrder(anchors, from, to, |anchors|, at);
    assert anchors[..|anchors|] == anchors;
  }

  lemma {:induction false} InWindowIff(anchors: seq<Anchor>, from: Time, to: Time, n: nat, a: Anchor)
    requires n <= |anchors|
    ensures a in InWindowTo(anchors, from, to, n) <==>
            a in anchors[..n] && (from == ZERO_TIME || a.anchoredAt >= from) && (to == ZERO_TIME || a.anchoredAt <= to)
  {
    if n == 0 {
    } else {
      InWindowIff(anchors, from, to, n - 1, a);
      assert anchors[..n] == anchors[..n - 1] + [anchors[n - 1]];
    }
  }

  /** An anchor is listed exactly when it is stored and lies in the window, both ends included. */
  lemma ListedAnchorIff(anchors: seq<Anchor>, from: Time, to: Time, a: Anchor)
    ensures a in Listed(anchors, from, to) <==>
            a in anchors && (from == ZERO_TIME || a.anchoredAt >= from) && (to == ZERO_TIME || a.anchoredAt <= to)
  {
    var xs := InWindowTo(anchors, from, to, |anchors|);
    InWindowIff(anchors, from, to, |anchors|, a);
    Sorting.StableSortPermutes(xs, AnchoredBefore());
    assert anchors[..|anchors|] == anchors;
    assert a in xs <==> a in multiset(xs);
    assert a in Listed(anchors, from, to) <==> a in multiset(Listed(anchors, from, to));
  }

  class AnchorStore {
    var anchors: seq<Anchor>

    constructor ()
      ensures anchors == []
    {
      anchors := [];
    }

    /** `now` and `newId` stand for the clock and the id generator. */
    method InsertAnchor(a: Anchor, now: Time, newId: Bytes) returns (id: Bytes)
      modifies this
      ensures id == newId
      ensures var at := if a.anchoredAt == ZERO_TIME then now else a.anchoredAt;
              anchors == old(anchors) + [a.(id := newId, anchoredAt := at)]
    {
      var c := a.(id := newId);
      if c.anchoredAt == ZERO_TIME {
        c := c.(anchoredAt := now);
      }
      anchors := anchors + [c];
      return newId;
    }

    method ListAnchors(from: Time, to: Time) returns (out: seq<Anchor>)
      ensures out == Listed(anchors, from, to)
    {
      out := [];
      var i := 0;
      while i < |anchors|
        invariant 0 <= i <= |anchors|
        invariant out == InWindowTo(anchors, from, to, i)
      {
        var a := anchors[i];
        i := i + 1;
        if from != ZERO_TIME && a.anchoredAt < from { continue; }
        if to != ZERO_TIME && a.anchoredAt > to { continue; }
        out := out + [a];
      }
      out := Sorting.SliceStable(out, AnchoredBefore());
    }
  }

  // ---------------------------------------------------------------- the anchor job

  type Signer = Bytes -> Option<(Bytes, Bytes)>

  datatype RunResult = Done(anchor: Anchor) | EmptyChain | BadRoot | SignFailed

  /** The record built from the head; its id is filled in by the store. */
  function AnchorFor(head: Core, signature: Bytes, keyId: Bytes, notaryUrl: Bytes, count: int): Anchor {
    Anchor([], ZERO_TIME, head.thisHash, head.id, head.ts, signature, keyId, notaryUrl, count)
  }

  class AnchorJob {
    const events: EventStore
    const anchors: AnchorStore
    const signer: Signer
    const notaryUrl: Bytes
    const eventCount: Option<int>

    constructor (events: EventStore, anchors: AnchorStore, signer: Signer, notaryUrl: Bytes, eventCount: Option<int>)
      ensures this.events == events && this.anchors == anchors && this.signer == signer
      ensures this.notaryUrl == notaryUrl && this.eventCount == eventCount
    {
      this.events, this.anchors, this.signer := events, anchors, signer;
      this.notaryUrl, this.eventCount := notaryUrl, eventCount;
    }

    function Outcome(t: Table, newId: Bytes): RunResult {
      if t == [] then EmptyChain
      else
        var head := t[|t| - 1].core;
        if |head.thisHash| != 32 then BadRoot
        else
          match signer(head.thisHash)
          case None => SignFailed
          case Some((signature, keyId)) =>
            Done(AnchorFor(head, signature, keyId, notaryUrl, if eventCount.Some? then eventCount.value else 1)
                 .(id := newId))
    }

    /** The record to be stored, without an id, or why there is none. */
    method SignHead() returns (r: RunResult)
      requires events.Valid()
      ensures r == Outcome(events.Contents(), [])
      ensures r.Done? ==> signer(r.anchor.rootHash) == Some((r.anchor.signature, r.anchor.kmsKeyId))
    {
      var found := events.ChainHead();
      if found.None? {
        return EmptyChain;
      }
      var head := found.value.core;
      var root := head.thisHash;
      if |root| != 32 {
        return BadRoot;
      }
      var count := 1;
      if eventCount.Some? {
        count := eventCount.value;
      }
      var signed := signer(root);
      if signed.None? {
        return SignFailed;
      }
      return Done(AnchorFor(head, signed.value.0, signed.value.1, notaryUrl, count));
    }

    /** Head read, anchor written, rows marked; a failure before the write leaves both stores as they were. */
    method Run(now: Time, newId: Bytes) returns (r: RunResult)
      requires events.Valid()
      modifies anchors, events.ordered
      ensures events.Valid()
      ensures r == Outcome(old(events.Contents()), newId)
      ensures r.Done? ==> signer(r.anchor.rootHash) == Some((r.anchor.signature, r.anchor.kmsKeyId))
      ensures anchors.anchors == old(anchors.anchors) + if r.Done? then [r.anchor.(anchoredAt := now)] else []
      ensures var t := old(events.Contents());
              events.Contents() == if r.Done? then Mark(t, Key(r.anchor.lastEventTs, r.anchor.lastEventId)) else t
    {
      ghost var t := events.Contents();
      r := SignHead();
      if !r.Done? {
        return;
      }
      var anchor := r.anchor;
      var id := anchors.InsertAnchor(anchor, now, newId);
      assert events.Valid() && events.Contents() == t;
      anchor := anchor.(id := id);
      r := Done(anchor);
      assert r == Outcome(t, newId);
      var _ := events.MarkAnchored(anchor.lastEventTs, anchor.lastEventId);
    }
  }

  /** The row with the largest key. */
  ghost predicate IsLargest(t: Table, e: Event) {
    e in t && forall i :: 0 <= i < |t| ==> KeyLe(KeyOf(t[i].core), KeyOf(e.core))
  }

  lemma LastIsLargest(t: Table)
    requires Sorted(t) && t != []
    ensures IsLargest(t, t[|t| - 1])
  {
  }

  /**
   * What a job anchors: the row with the largest key, with a signature over its this_hash, which is the root.  No
   * anchor is made exactly when there is no row, when that hash is not 32 bytes long, or when the signer refuses it.
   */
  lemma OutcomeMeaning(job: AnchorJob, t: Table, newId: Bytes, largest: Event)
    requires Sorted(t) && (t != [] ==> IsLargest(t, largest))
    ensures var r, root := job.Outcome(t, newId), largest.core.thisHash;
            && (r.EmptyChain? <==> t == [])
            && (r.BadRoot? <==> t != [] && |root| != 32)
            && (r.SignFailed? <==> t != [] && |root| == 32 && job.signer(root).None?)
            && (r.Done? ==>
                  && r.anchor.rootHash == root
                  && r.anchor.lastEventId == largest.core.id && r.anchor.lastEventTs == largest.core.ts
                  && job.signer(root) == Some((r.anchor.signature, r.anchor.kmsKeyId))
                  && r.anchor.notaryUrl == job.notaryUrl && r.anchor.id == newId && r.anchor.anchoredAt == ZERO_TIME
                  && r.anchor.eventCount == if job.eventCount.Some? then job.eventCount.value else 1)
  {
    if t != [] {
      LastIsLargest(t);
      LargestUnique(t, largest);
    }
  }

  lemma LargestUnique(t: Table, e: Event)
    requires Sorted(t) && t != [] && IsLargest(t, e)
    ensures e == t[|t| - 1]
  {
    var i :| 0 <= i < |t| && t[i] == e;
    var last := KeyOf(t[|t| - 1].core);
    KeyLeIff(last, KeyOf(e.core));
    KeyLtTotal(last, KeyOf(e.core));
    KeyLtIrreflexive(last);
  }

  /** Nothing stands above the head, so marking up to it marks every row that is not yet anchored. */
  lemma {:induction false} HeadCoversAll(t: Table, n: nat)
    requires Sorted(t) && t != [] && n <= |t|
    ensures CountTo(t, n) + NewlyTo(t, KeyOf(t[|t| - 1].core), n) == n
  {
    if n == 0 {
    } else {
      HeadCoversAll(t, n - 1);
    }
  }

  /**
   * Without a counter the record says 1.  That is the number of events it newly covers, as documented, exactly when
   * all rows but one are anchored already.
   */
  lemma DefaultCountIff(job: AnchorJob, t: Table, newId: Bytes)
    requires Sorted(t) && job.eventCount.None? && job.Outcome(t, newId).Done?
    ensures var a := job.Outcome(t, newId).anchor;
            a.eventCount == NewlyAnchored(t, Key(a.lastEventTs, a.lastEventId)) <==> CountAnchored(t) + 1 == |t|
  {
    HeadCoversAll(t, |t|);
  }

  // ---------------------------------------------------------------- the sweep

  datatype EventReport = EventReport(
    eventCount: nat,
    status: Status,
    firstBroken: Bytes,
    position: nat,
    rootHash: Option<Bytes>
  )

  datatype SignedRoot = SignedRoot(signature: Bytes, keyId: Bytes, signedAt: Time)

  datatype Report = Report(events: EventReport, anchorCount: nat, anchorMismatches: nat, signed: Option<SignedRoot>)

  /** "sig:" */
  const SIG: Bytes := [115, 105, 103, 58]

  function SignatureOver(signer: Option<Signer>, root: Bytes, now: Time): Option<SignedRoot> {
    if signer.Some? && signer.value(root).Some? then
      var (signature, keyId) := signer.value(root).value;
      Some(SignedRoot(SIG + Envelopes.HexEncode(signature), keyId, now))
    else None
  }

  /** The anchored event is missing, or its this_hash is not the anchored root. */
  predicate Mismatched(t: Table, a: Anchor) {
    var head := Find(t, a.lastEventId);
    head.None? || (|a.rootHash| == 32 && a.rootHash != head.value.core.thisHash)
  }

  function MismatchesTo(t: Table, anchors: seq<Anchor>, n: nat): nat
    requires n <= |anchors|
  {
    if n == 0 then 0 else MismatchesTo(t, anchors, n - 1) + if Mismatched(t, anchors[n - 1]) then 1 else 0
  }

  /** An anchor that names a stored row mismatches exactly when its root is not that row's this_hash. */
  lemma NamedRowMismatchIff(t: Table, a: Anchor, i: nat)
    requires UniqueIds(t) && i < |t| && a.lastEventId == t[i].core.id && |a.rootHash| == 32
    ensures Mismatched(t, a) <==> a.rootHash != t[i].core.thisHash
  {
    FindAt(t, i, 0);
  }

  /** With a root of 32 bytes, an anchor is accepted exactly when some row has its id and its root. */
  lemma AcceptedIff(t: Table, a: Anchor)
    requires UniqueIds(t) && |a.rootHash| == 32
    ensures !Mismatched(t, a) <==>
            exists i :: 0 <= i < |t| && t[i].core.id == a.lastEventId && t[i].core.thisHash == a.rootHash
  {
    if HasId(t, a.lastEventId) {
      var i :| 0 <= i < |t| && t[i].core.id == a.lastEventId;
      NamedRowMismatchIff(t, a, i);
    } else {
      FindNone(t, a.lastEventId, 0);
    }
  }

  function MismatchPositions(t: Table, anchors: seq<Anchor>, n: nat): set<nat>
    requires n <= |anchors|
  {
    set i: nat | i < n && Mismatched(t, anchors[i])
  }

  lemma {:induction false} MismatchesCount(t: Table, anchors: seq<Anchor>, n: nat)
    requires n <= |anchors|
    ensures MismatchesTo(t, anchors, n) == |MismatchPositions(t, anchors, n)|
  {
    if n == 0 {
    } else {
      MismatchesCount(t, anchors, n - 1);
      var before := MismatchPositions(t, anchors, n - 1);
      if Mismatched(t, anchors[n - 1]) {
        assert MismatchPositions(t, anchors, n) == before + {n - 1};
      } else {
        assert MismatchPositions(t, anchors, n) == before;
      }
    }
  }

  /** A sweep whose window has an anchor that names a row with another hash counts a mismatch. */
  lemma ForgedRowIsCounted(t: Table, anchors: seq<Anchor>, from: Time, to: Time, a: Anchor, i: nat)
    requires UniqueIds(t) && i < |t| && a in anchors && |a.rootHash| == 32
    requires (from == ZERO_TIME || a.anchoredAt >= from) && (to == ZERO_TIME || a.anchoredAt <= to)
    requires a.lastEventId == t[i].core.id && a.rootHash != t[i].core.thisHash
    ensures MismatchesTo(t, Listed(anchors, from, to), |Listed(anchors, from, to)|) > 0
  {
    var anchs := Listed(anchors, from, to);
    ListedAnchorIff(anchors, from, to, a);
    NamedRowMismatchIff(t, a, i);
    var j :| 0 <= j < |anchs| && anchs[j] == a;
    MismatchesCount(t, anchs, |anchs|);
    assert j in MismatchPositions(t, anchs, |anchs|);
  }

  function Window(from: Time, to: Time, cursor: Key): Filter {
    Filter(from, to, [], [], [], [], [], 1000, cursor)
  }

  /** The paged read of every event in the window. */
  method CollectWindow(events: EventStore, from: Time, to: Time) returns (all: seq<Event>)
    requires events.Valid() && NonZeroTimes(events.Contents())
    ensures all == Select(events.Contents(), Window(from, to, NO_CURSOR))
  {
    ghost var t := events.Contents();
    events.ValidContents();
    all := [];
    var f := Filter(from, to, [], [], [], [], [], 1000, NO_CURSOR);
    ghost var wanted := Select(t, f);
    while true
      invariant all + Select(t, f) == wanted
      decreases |Select(t, f)|
    {
      var res := events.List(f);
      PageRead(FullPage, t, f, res, all, wanted);
      if |res.events| == 0 {
        break;
      }
      all := all + res.events;
      if res.nextCursor.ts == ZERO_TIME {
        break;
      }
      f := f.(cursor := res.nextCursor);
    }
  }

  /** The documented window, with both ends. */
  predicate InClosedWindow(c: Core, from: Time, to: Time) {
    (from == ZERO_TIME || from <= c.ts) && (to == ZERO_TIME || c.ts <= to)
  }

  function ClosedWindowTo(t: Table, from: Time, to: Time, n: nat): Table
    requires n <= |t|
  {
    if n == 0 then []
    else ClosedWindowTo(t, from, to, n - 1) + if InClosedWindow(t[n - 1].core, from, to) then [t[n - 1]] else []
  }

  /** A row of the window at its very end. */
  predicate AtEnd(c: Core, from: Time, to: Time) {
    to != ZERO_TIME && c.ts == to && InClosedWindow(c, from, to)
  }

  predicate EndsClearTo(t: Table, from: Time, to: Time, n: nat)
    requires n <= |t|
  {
    forall i :: 0 <= i < n ==> !AtEnd(t[i].core, from, to)
  }

  lemma {:induction false} WindowMissesEnd(t: Table, from: Time, to: Time, n: nat)
    requires n <= |t|
    ensures var swept, documented := SelectTo(t, Window(from, to, NO_CURSOR), n), ClosedWindowTo(t, from, to, n);
            |swept| <= |documented| && (EndsClearTo(t, from, to, n) ==> swept == documented)
            && (!EndsClearTo(t, from, to, n) ==> |swept| < |documented|)
  {
    if n == 0 {
    } else {
      WindowMissesEnd(t, from, to, n - 1);
      assert EndsClearTo(t, from, to, n) <==> EndsClearTo(t, from, to, n - 1) && !AtEnd(t[n - 1].core, from, to);
    }
  }

  /** The sweep reads the documented window exactly when no row of the window lies at its end. */
  lemma SweptWindowIff(t: Table, from: Time, to: Time)
    ensures Select(t, Window(from, to, NO_CURSOR)) == ClosedWindowTo(t, from, to, |t|)
            <==> forall i :: 0 <= i < |t| ==> !AtEnd(t[i].core, from, to)
  {
    WindowMissesEnd(t, from, to, |t|);
  }

  /** One-based position of the first event with the id. */
  method PositionOf(all: seq<Event>, id: Bytes) returns (position: nat)
    requires exists k :: 0 <= k < |all| && all[k].core.id == id
    ensures 0 < position <= |all| && all[position - 1].core.id == id
    ensures forall j :: 0 <= j < position - 1 ==> all[j].core.id != id
  {
    var i := 0;
    while i < |all|
      invariant 0 <= i <= |all|
      invariant forall j :: 0 <= j < i ==> all[j].core.id != id
    {
      if all[i].core.id == id {
        return i + 1;
      }
      i := i + 1;
    }
    assert false;
  }

  method CheckAnchors(events: EventStore, anchs: seq<Anchor>) returns (mismatches: nat)
    requires events.Valid()
    ensures mismatches == MismatchesTo(events.Contents(), anchs, |anchs|)
  {
    mismatches := 0;
    var i := 0;
    while i < |anchs|
      invariant 0 <= i <= |anchs|
      invariant mismatches == MismatchesTo(events.Contents(), anchs, i)
    {
      var a := anchs[i];
      i := i + 1;
      var head := events.Get(a.lastEventId);
      if head.None? {
        mismatches := mismatches + 1;
        continue;
      }
      if |a.rootHash| == 32 && a.rootHash != head.value.core.thisHash {
        mismatches := mismatches + 1;
      }
    }
  }

  lemma SelectUniqueIds(t: Table, f: Filter)
    requires WellFormed(t)
    ensures UniqueIds(Select(t, f))
  {
    SelectFacts(t, f, |t|);
    var es := Select(t, f);
    forall i, j | 0 <= i < j < |es| ensures es[i].core.id != es[j].core.id {
      var a :| 0 <= a < |t| && t[a] == es[i];
      var b :| 0 <= b < |t| && t[b] == es[j];
      KeyLtIrreflexive(KeyOf(es[i].core));
    }
  }

  lemma IntactRootIsDigest(rowHash: RowHash, es: seq<Event>)
    requires Intact(rowHash, es)
    ensures |Root(es)| == 32
  {
    if es != [] {
      assert SoundAt(rowHash, es, |es| - 1);
      var d: Digest := EventHash(rowHash, es[|es| - 1].core);
      assert Root(es) == d;
    }
  }

  /** What a report says of the events: the first failure and its one-based position, or the root. */
  ghost predicate Describes(rowHash: RowHash, es: seq<Event>, r: EventReport) {
    && r.eventCount == |es|
    && (r.status == Ok <==> Intact(rowHash, es))
    && (r.rootHash == if Intact(rowHash, es) then Some(Envelopes.HASH_PREFIX + Envelopes.HexEncode(Root(es))) else None)
    && (if Intact(rowHash, es) then r.position == 0 && r.firstBroken == []
        else 0 < r.position && PointsAt(rowHash, es, r, r.position - 1))
  }

  ghost predicate PointsAt(rowHash: RowHash, es: seq<Event>, r: EventReport, i: nat) {
    && FirstFailure(rowHash, es, i)
    && r.firstBroken == es[i].core.id
    && r.status == if SelfConsistent(rowHash, es[i].core) then Gap else Broken
  }

  /** An intact window gives its last this_hash as text; any other the id, the one-based position and the kind. */
  lemma DescribesMeaning(rowHash: RowHash, es: seq<Event>, r: EventReport)
    requires Describes(rowHash, es, r)
    ensures r.eventCount == |es|
    ensures Intact(rowHash, es) ==>
              && r.status == Ok && r.position == 0 && r.firstBroken == []
              && r.rootHash == Some(Ascii("sha256:")
                                    + Envelopes.HexEncode(if es == [] then Zeros(32) else es[|es| - 1].core.thisHash))
    ensures !Intact(rowHash, es) ==>
              && r.rootHash.None? && 1 <= r.position <= |es| && FirstFailure(rowHash, es, r.position - 1)
              && var c := es[r.position - 1].core;
                 && r.firstBroken == c.id
                 && r.status == if rowHash(HashedOf(c)) == c.thisHash then Gap else Broken
  {
    assert Ascii("sha256:") == Envelopes.HASH_PREFIX;
  }

  lemma SameIdSamePosition(es: seq<Event>, i: nat, j: nat)
    requires UniqueIds(es) && i < |es| && j < |es| && es[i].core.id == es[j].core.id
    ensures i == j
  {
  }

  method VerifyWindow(rowHash: RowHash, all: seq<Event>) returns (r: EventReport, root: Option<Bytes>)
    requires UniqueIds(all)
    ensures Describes(rowHash, all, r)
    ensures root == if Intact(rowHash, all) then Some(Root(all)) else None
    ensures root.Some? ==> |root.value| == 32
  {
    var vres, verified := VerifyChain(rowHash, all);
    root := verified;
    if vres.status != Ok {
      ghost var i: nat :| FirstFailure(rowHash, all, i) && vres.event == Some(all[i])
                          && vres.status == if SelfConsistent(rowHash, all[i].core) then Gap else Broken;
      var id := vres.event.value.core.id;
      assert all[i].core.id == id;
      var position := PositionOf(all, id);
      SameIdSamePosition(all, i, position - 1);
      r := EventReport(|all|, vres.status, id, position, None);
      assert PointsAt(rowHash, all, r, i);
    } else {
      IntactRootIsDigest(rowHash, all);
      r := EventReport(|all|, Ok, [], 0, Some(Envelopes.HASH_PREFIX + Envelopes.HexEncode(root.value)));
    }
  }

  /** Only a verified root is signed; a signing failure leaves the report unsigned. */
  method SignRoot(root: Option<Bytes>, signer: Option<Signer>, now: Time) returns (signed: Option<SignedRoot>)
    ensures signed == if root.Some? && |root.value| == 32 then SignatureOver(signer, root.value, now) else None
    ensures signed.Some? <==> root.Some? && |root.value| == 32 && signer.Some? && signer.value(root.value).Some?
    ensures signed.Some? ==>
              var made := signer.value(root.value).value;
              signed.value == SignedRoot([115, 105, 103, 58] + Envelopes.HexEncode(made.0), made.1, now)
  {
    signed := None;
    if signer.Some? && root.Some? && |root.value| == 32 {
      var made := signer.value(root.value);
      if made.Some? {
        signed := Some(SignedRoot(SIG + Envelopes.HexEncode(made.value.0), made.value.1, now));
      }
    }
  }

  method SweepAnchors(events: EventStore, anchors: AnchorStore?, from: Time, to: Time)
    returns (count: nat, mismatches: nat)
    requires events.Valid()
    ensures anchors == null ==> count == 0 && mismatches == 0
    ensures anchors != null ==>
              var anchs := Listed(anchors.anchors, from, to);
              count == |anchs| && mismatches == MismatchesTo(events.Contents(), anchs, |anchs|)
  {
    if anchors == null {
      return 0, 0;
    }
    var anchs := anchors.ListAnchors(from, to);
    count := |anchs|;
    mismatches := CheckAnchors(events, anchs);
  }

  method ReportOn(rowHash: RowHash, all: seq<Event>, count: nat, mismatches: nat, signer: Option<Signer>, now: Time)
    returns (r: Report)
    requires UniqueIds(all)
    ensures Describes(rowHash, all, r.events) && r.anchorCount == count && r.anchorMismatches == mismatches
    ensures r.signed == if Intact(rowHash, all) then SignatureOver(signer, Root(all), now) else None
  {
    var report, root := VerifyWindow(rowHash, all);
    var signed := SignRoot(root, signer, now);
    r := Report(report, count, mismatches, signed);
  }

  method Sweep(rowHash: RowHash, events: EventStore, anchors: AnchorStore?, from: Time, to: Time,
               signer: Option<Signer>, now: Time)
    returns (r: Report)
    requires events.Valid() && NonZeroTimes(events.Contents())
    ensures var es := Select(events.Contents(), Window(from, to, NO_CURSOR));
            && Describes(rowHash, es, r.events)
            && r.signed == if Intact(rowHash, es) then SignatureOver(signer, Root(es), now) else None
    ensures anchors == null ==> r.anchorCount == 0 && r.anchorMismatches == 0
    ensures anchors != null ==>
              var anchs := Listed(anchors.anchors, from, to);
              r.anchorCount == |anchs| && r.anchorMismatches == MismatchesTo(events.Contents(), anchs, |anchs|)
  {
    var all := CollectWindow(events, from, to);
    var count, mismatches := SweepAnchors(events, anchors, from, to);
    events.ValidContents();
    SelectUniqueIds(events.Contents(), Window(from, to, NO_CURSOR));
    r := ReportOn(rowHash, all, count, mismatches, signer, now);
  }

  /** An anchor without a last event, as export writes them, is a mismatch in every store without an empty id. */
  lemma AnchorWithoutEventMismatches(t: Table, a: Anchor)
    requires a.lastEventId == [] && !HasId(t, [])
    ensures Mismatched(t, a)
  {
    FindNone(t, [], 0);
  }
}
