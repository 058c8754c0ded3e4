/** The hash chain verifier, for any per-row hash: the original's is Encoding.CanonicalHash. */
module Chain {
  import opened ByteStrings
  import opened Store
  import opened Encoding

  function EventHash(rowHash: RowHash, c: Core): Digest {
    rowHash(HashedOf(c))
  }

  datatype Status = Ok | Broken | Gap

  function VerifyEvent(rowHash: RowHash, c: Core, prev: Option<Bytes>): Status {
    if EventHash(rowHash, c) != c.thisHash then Broken
    else if prev.Some? && prev.value != c.prevHash then Gap
    else Ok
  }

  datatype VerifyResult = VerifyResult(status: Status, event: Option<Event>)

  predicate SelfConsistent(rowHash: RowHash, c: Core) {
    c.thisHash == EventHash(rowHash, c)
  }

  /** Row `i` continues row `i - 1`.  Nothing is asked of the first row's prev_hash. */
  predicate LinkedAt(es: seq<Event>, i: nat)
    requires i < |es|
  {
    i == 0 || es[i].core.prevHash == es[i - 1].core.thisHash
  }

  predicate SoundAt(rowHash: RowHash, es: seq<Event>, i: nat)
    requires i < |es|
  {
    SelfConsistent(rowHash, es[i].core) && LinkedAt(es, i)
  }

  ghost predicate Intact(rowHash: RowHash, es: seq<Event>) {
    forall i :: 0 <= i < |es| ==> SoundAt(rowHash, es, i)
  }

  function Root(es: seq<Event>): Bytes {
    if es == [] then ZERO_HASH else es[|es| - 1].core.thisHash
  }

  ghost predicate FirstFailure(rowHash: RowHash, es: seq<Event>, i: nat) {
    && i < |es|
    && !SoundAt(rowHash, es, i)
    && forall j :: 0 <= j < i ==> SoundAt(rowHash, es, j)
  }

  /** The failing row's hash is not its this_hash, or its prev_hash not that of the row before; no earlier row fails. */
  lemma FirstFailureMeaning(rowHash: RowHash, es: seq<Event>, i: nat)
    requires FirstFailure(rowHash, es, i)
    ensures i < |es| && !Intact(rowHash, es)
    ensures var c := es[i].core;
            rowHash(HashedOf(c)) != c.thisHash || (i > 0 && c.prevHash != es[i - 1].core.thisHash)
    ensures forall j :: 0 <= j < i ==> rowHash(HashedOf(es[j].core)) == es[j].core.thisHash
    ensures forall j :: 0 < j < i ==> es[j].core.prevHash == es[j - 1].core.thisHash
  {
    forall j | 0 <= j < i
      ensures rowHash(HashedOf(es[j].core)) == es[j].core.thisHash
      ensures j > 0 ==> es[j].core.prevHash == es[j - 1].core.thisHash
    {
      assert SoundAt(rowHash, es, j);
    }
  }

  method VerifyChain(rowHash: RowHash, events: seq<Event>) returns (res: VerifyResult, root: Option<Bytes>)
    ensures res.status == Ok <==> Intact(rowHash, events)
    ensures root == if Intact(rowHash, events) then Some(Root(events)) else None
    ensures res.event.None? <==> Intact(rowHash, events)
    ensures !Intact(rowHash, events) ==>
              exists i: nat :: FirstFailure(rowHash, events, i) && res.event == Some(events[i])
                               && res.status == if SelfConsistent(rowHash, events[i].core) then Gap else Broken
  {
    var prev: Bytes := ZERO_HASH;
    var i := 0;
    while i < |events|
      invariant 0 <= i <= |events|
      invariant forall j :: 0 <= j < i ==> SoundAt(rowHash, events, j)
      invariant prev == Root(events[..i])
    {
      var expectedPrev := Some(prev);
      if i == 0 {
        expectedPrev := None;
      }
      var status := VerifyEvent(rowHash, events[i].core, expectedPrev);
      if status != Ok {
        assert FirstFailure(rowHash, events, i);
        return VerifyResult(status, Some(events[i])), None;
      }
      prev := events[i].core.thisHash;
      i := i + 1;
    }
    assert events[..i] == events;
    return VerifyResult(Ok, None), Some(prev);
  }

  // ---------------------------------------------------------------- a root binds the history before it

  /** Different fields in the two lists with the same hash. */
  ghost predicate Clash(rowHash: RowHash, es: seq<Event>, fs: seq<Event>) {
    exists i, j :: 0 <= i < |es| && 0 <= j < |fs| && ClashAt(rowHash, es[i].core, fs[j].core)
  }

  predicate ClashAt(rowHash: RowHash, c: Core, d: Core) {
    HashedOf(c) != HashedOf(d) && EventHash(rowHash, c) == EventHash(rowHash, d)
  }

  predicate Agree(c: Core, d: Core) {
    HashedOf(c) == HashedOf(d) && c.thisHash == d.thisHash
  }

  ghost predicate AgreesWithSuffix(es: seq<Event>, fs: seq<Event>)
    requires |es| <= |fs|
  {
    forall i :: 0 <= i < |es| ==> Agree(es[i].core, fs[|fs| - |es| + i].core)
  }

  lemma RowsAgree(rowHash: RowHash, es: seq<Event>, fs: seq<Event>, m: nat, n: nat)
    requires m < |es| && n < |fs|
    requires Intact(rowHash, es) && Intact(rowHash, fs)
    requires !Clash(rowHash, es, fs)
    requires es[m].core.thisHash == fs[n].core.thisHash
    ensures Agree(es[m].core, fs[n].core)
  {
    assert SoundAt(rowHash, es, m) && SoundAt(rowHash, fs, n);
    assert !ClashAt(rowHash, es[m].core, fs[n].core);
  }

  /** Walking both histories back from their common root. */
  lemma {:induction false} AgreeFromEnd(rowHash: RowHash, es: seq<Event>, fs: seq<Event>, k: nat)
    requires k < |es| <= |fs|
    requires Intact(rowHash, es) && Intact(rowHash, fs)
    requires Root(es) == Root(fs)
    requires !Clash(rowHash, es, fs)
    ensures Agree(es[|es| - 1 - k].core, fs[|fs| - 1 - k].core)
  {
    var m, n := |es| - 1 - k, |fs| - 1 - k;
    if k > 0 {
      AgreeFromEnd(rowHash, es, fs, k - 1);
      assert SoundAt(rowHash, es, m + 1) && SoundAt(rowHash, fs, n + 1);
    }
    RowsAgree(rowHash, es, fs, m, n);
  }

  /** Equal roots: the shorter history is the tail of the longer one, or two rows clash. */
  lemma RootBindsHistory(rowHash: RowHash, es: seq<Event>, fs: seq<Event>)
    requires 0 < |es| <= |fs|
    requires Intact(rowHash, es) && Intact(rowHash, fs)
    requires Root(es) == Root(fs)
    ensures AgreesWithSuffix(es, fs) || Clash(rowHash, es, fs)
  {
    if !Clash(rowHash, es, fs) {
      forall i | 0 <= i < |es| ensures Agree(es[i].core, fs[|fs| - |es| + i].core) {
        AgreeFromEnd(rowHash, es, fs, |es| - 1 - i);
      }
    }
  }

  lemma SuffixIntact(rowHash: RowHash, es: seq<Event>, fs: seq<Event>)
    requires 0 < |es| <= |fs| && Intact(rowHash, fs) && AgreesWithSuffix(es, fs)
    ensures Intact(rowHash, es) && Root(es) == Root(fs)
  {
    var k := |fs| - |es|;
    forall i | 0 <= i < |es| ensures SoundAt(rowHash, es, i) {
      assert SoundAt(rowHash, fs, k + i);
      assert Agree(es[i].core, fs[k + i].core);
      assert i > 0 ==> Agree(es[i - 1].core, fs[k + (i - 1)].core);
    }
    assert Agree(es[|es| - 1].core, fs[k + (|es| - 1)].core);
  }

  /** The first row's prev_hash is not checked, so dropping the oldest rows leaves a chain with the same root. */
  lemma SuffixVerifies(rowHash: RowHash, fs: seq<Event>, k: nat)
    requires k < |fs| && Intact(rowHash, fs)
    ensures Intact(rowHash, fs[k..]) && Root(fs[k..]) == Root(fs)
  {
    SuffixIntact(rowHash, fs[k..], fs);
  }

  /** Exactly the tails of a verified history verify with its root. */
  lemma VerifiesIffSuffix(rowHash: RowHash, es: seq<Event>, fs: seq<Event>)
    requires 0 < |es| <= |fs| && Intact(rowHash, fs) && !Clash(rowHash, es, fs)
    ensures Intact(rowHash, es) && Root(es) == Root(fs) <==> AgreesWithSuffix(es, fs)
  {
    if AgreesWithSuffix(es, fs) {
      SuffixIntact(rowHash, es, fs);
    } else if Intact(rowHash, es) && Root(es) == Root(fs) {
      RootBindsHistory(rowHash, es, fs);
    }
  }

  lemma ClashIsSymmetric(rowHash: RowHash, es: seq<Event>, fs: seq<Event>)
    ensures Clash(rowHash, es, fs) ==> Clash(rowHash, fs, es)
  {
  }

  /** No row hashes to the genesis value. */
  ghost predicate NoZeroHash(es: seq<Event>) {
    forall i :: 0 <= i < |es| ==> es[i].core.thisHash != ZERO_HASH
  }

  /** A list that is a tail of another one, and not all of it, does not start at genesis. */
  lemma TailIsNotGenesis(rowHash: RowHash, es: seq<Event>, fs: seq<Event>)
    requires 0 < |es| < |fs| && Intact(rowHash, fs) && NoZeroHash(fs) && AgreesWithSuffix(es, fs)
    ensures es[0].core.prevHash != ZERO_HASH
  {
    var k := |fs| - |es|;
    assert Agree(es[0].core, fs[k + 0].core);
    assert SoundAt(rowHash, fs, k);
  }

  /**
   * With the documented check of the first prev_hash only the whole history passes, neither a part of it nor a
   * longer list, provided that nothing hashes to the genesis value.
   */
  lemma GenesisRootBindsWholeHistory(rowHash: RowHash, es: seq<Event>, fs: seq<Event>)
    requires es != [] && fs != [] && Intact(rowHash, fs) && !Clash(rowHash, es, fs) && NoZeroHash(fs)
    requires |es| <= |fs| || (fs[0].core.prevHash == ZERO_HASH && NoZeroHash(es))
    ensures Intact(rowHash, es) && Root(es) == Root(fs) && es[0].core.prevHash == ZERO_HASH
            <==> |es| == |fs| && AgreesWithSuffix(es, fs) && fs[0].core.prevHash == ZERO_HASH
  {
    if |es| <= |fs| {
      VerifiesIffSuffix(rowHash, es, fs);
      if |es| < |fs| && AgreesWithSuffix(es, fs) {
        TailIsNotGenesis(rowHash, es, fs);
      }
      assert |es| == |fs| && AgreesWithSuffix(es, fs) ==> Agree(es[0].core, fs[0].core);
    } else if Intact(rowHash, es) && Root(es) == Root(fs) {
      ClashIsSymmetric(rowHash, fs, es);
      VerifiesIffSuffix(rowHash, fs, es);
      TailIsNotGenesis(rowHash, fs, es);
    }
  }

  // ---------------------------------------------------------------- the original's hash

  ghost predicate AllFit(es: seq<Event>) {
    forall i :: 0 <= i < |es| ==> TextsFit(HashedOf(es[i].core))
  }

  ghost predicate AllInRange(es: seq<Event>) {
    forall i :: 0 <= i < |es| ==> InRange(HashedOf(es[i].core))
  }

  /** Two different byte strings, each the encoding of a row of one of the lists, with the same SHA-256. */
  ghost predicate Collision(sha: Sha, es: seq<Event>, fs: seq<Event>) {
    exists i, j :: 0 <= i < |es| && 0 <= j < |fs|
                   && Collide(sha, Canonical(HashedOf(es[i].core)), Canonical(HashedOf(fs[j].core)))
  }

  /** The row as the encoding sees it: its instant is an int64 of nanoseconds. */
  function WrapRow(e: Event): (r: Event)
    ensures HashedOf(r.core) == Wrapped(HashedOf(e.core))
  {
    e.(core := e.core.(ts := WrapInt64(e.core.ts)))
  }

  function WrapAll(es: seq<Event>): (r: seq<Event>)
    ensures |r| == |es| && forall i :: 0 <= i < |es| ==> r[i] == WrapRow(es[i])
  {
    seq(|es|, i requires 0 <= i < |es| => WrapRow(es[i]))
  }

  lemma InRangeIsWrapped(es: seq<Event>)
    requires AllInRange(es)
    ensures AllFit(es) && WrapAll(es) == es
  {
  }

  lemma WrapKeepsHash(sha: Sha, e: Event)
    requires TextsFit(HashedOf(e.core))
    ensures EventHash(CanonicalHash(sha), WrapRow(e).core) == EventHash(CanonicalHash(sha), e.core)
  {
    WrappedHash(sha, HashedOf(e.core));
  }

  lemma WrapKeepsSound(sha: Sha, es: seq<Event>, i: nat)
    requires i < |es| && TextsFit(HashedOf(es[i].core))
    ensures SoundAt(CanonicalHash(sha), es, i) <==> SoundAt(CanonicalHash(sha), WrapAll(es), i)
  {
    WrapKeepsHash(sha, es[i]);
  }

  lemma WrapKeepsIntact(sha: Sha, es: seq<Event>)
    requires AllFit(es)
    ensures Intact(CanonicalHash(sha), es) <==> Intact(CanonicalHash(sha), WrapAll(es))
    ensures Root(WrapAll(es)) == Root(es)
  {
    if Intact(CanonicalHash(sha), es) {
      forall i | 0 <= i < |es| ensures SoundAt(CanonicalHash(sha), WrapAll(es), i) {
        WrapKeepsSound(sha, es, i);
      }
    } else {
      var i :| 0 <= i < |es| && !SoundAt(CanonicalHash(sha), es, i);
      WrapKeepsSound(sha, es, i);
    }
  }

  lemma WrapClashAt(sha: Sha, e: Event, f: Event)
    requires TextsFit(HashedOf(e.core)) && TextsFit(HashedOf(f.core))
    requires ClashAt(CanonicalHash(sha), WrapRow(e).core, WrapRow(f).core)
    ensures Collide(sha, Canonical(HashedOf(e.core)), Canonical(HashedOf(f.core)))
  {
    WrapKeepsHash(sha, e);
    WrapKeepsHash(sha, f);
    ClashIsCollision(sha, HashedOf(e.core), HashedOf(f.core));
  }

  lemma WrapClashIsCollision(sha: Sha, es: seq<Event>, fs: seq<Event>)
    requires AllFit(es) && AllFit(fs) && Clash(CanonicalHash(sha), WrapAll(es), WrapAll(fs))
    ensures Collision(sha, es, fs)
  {
    var i, j :| 0 <= i < |es| && 0 <= j < |fs|
                && ClashAt(CanonicalHash(sha), WrapAll(es)[i].core, WrapAll(fs)[j].core);
    WrapClashAt(sha, es[i], fs[j]);
  }

  /** The exact form for the original's hash, whatever the instants are. */
  lemma CanonicalVerifiesIffSuffix(sha: Sha, es: seq<Event>, fs: seq<Event>)
    requires 0 < |es| <= |fs| && AllFit(es) && AllFit(fs)
    requires Intact(CanonicalHash(sha), fs) && !Collision(sha, es, fs)
    ensures Intact(CanonicalHash(sha), es) && Root(es) == Root(fs) <==> AgreesWithSuffix(WrapAll(es), WrapAll(fs))
  {
    if Clash(CanonicalHash(sha), WrapAll(es), WrapAll(fs)) {
      WrapClashIsCollision(sha, es, fs);
    }
    WrapKeepsIntact(sha, es);
    WrapKeepsIntact(sha, fs);
    VerifiesIffSuffix(CanonicalHash(sha), WrapAll(es), WrapAll(fs));
  }

  /** What an adversary must find is a collision of SHA-256. */
  lemma RootBindsHistoryOrCollision(sha: Sha, es: seq<Event>, fs: seq<Event>)
    requires 0 < |es| <= |fs|
    requires Intact(CanonicalHash(sha), es) && Intact(CanonicalHash(sha), fs)
    requires AllFit(es) && AllFit(fs)
    requires Root(es) == Root(fs)
    ensures AgreesWithSuffix(WrapAll(es), WrapAll(fs)) || Collision(sha, es, fs)
    ensures AllInRange(es) && AllInRange(fs) ==> AgreesWithSuffix(es, fs) || Collision(sha, es, fs)
  {
    if !Collision(sha, es, fs) {
      CanonicalVerifiesIffSuffix(sha, es, fs);
      if AllInRange(es) && AllInRange(fs) {
        InRangeIsWrapped(es);
        InRangeIsWrapped(fs);
      }
    }
  }
}
