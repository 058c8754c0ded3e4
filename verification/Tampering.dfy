/** Which lists the verifier accepts in the place of an intact chain. */
module Tampering {
  import opened Store
  import opened Encoding
  import opened Chain
  import opened Tables

  /** The verifier accepts `fs` with the root that was recorded for `es`. */
  ghost predicate PassesFor(rowHash: RowHash, es: seq<Event>, fs: seq<Event>) {
    Intact(rowHash, fs) && Root(fs) == Root(es)
  }

  lemma PrefixIntact(rowHash: RowHash, fs: seq<Event>, n: nat)
    requires n <= |fs| && Intact(rowHash, fs)
    ensures Intact(rowHash, fs[..n])
  {
    forall i | 0 <= i < n ensures SoundAt(rowHash, fs[..n], i) {
      assert SoundAt(rowHash, fs, i);
    }
  }

  /** Two intact stretches that share row `k`. */
  lemma JoinIntact(rowHash: RowHash, fs: seq<Event>, k: nat)
    requires k < |fs| && Intact(rowHash, fs[..k + 1]) && Intact(rowHash, fs[k..])
    ensures Intact(rowHash, fs)
  {
    forall i | 0 <= i < |fs| ensures SoundAt(rowHash, fs, i) {
      if i <= k {
        assert SoundAt(rowHash, fs[..k + 1], i);
      } else {
        assert SoundAt(rowHash, fs[k..], i - k);
      }
    }
  }

  lemma TailAgrees(es: seq<Event>, fs: seq<Event>)
    requires 0 < |es| <= |fs| && AgreesWithSuffix(es, fs)
    ensures AgreesWithSuffix(fs[|fs| - |es|..], es)
  {
  }

  lemma TailPasses(rowHash: RowHash, es: seq<Event>, fs: seq<Event>)
    requires 0 < |es| <= |fs| && AgreesWithSuffix(es, fs) && Intact(rowHash, es)
    ensures Intact(rowHash, fs[|fs| - |es|..]) && Root(fs) == Root(es)
  {
    var tail := fs[|fs| - |es|..];
    TailAgrees(es, fs);
    SuffixIntact(rowHash, tail, es);
    assert tail[|tail| - 1] == fs[|fs| - 1];
  }

  /** What `fs` has before the rows of `es` must chain up to the first of them. */
  ghost predicate Extends(rowHash: RowHash, es: seq<Event>, fs: seq<Event>)
    requires 0 < |es| <= |fs|
  {
    AgreesWithSuffix(es, fs) && Intact(rowHash, fs[..|fs| - |es| + 1])
  }

  lemma ExtensionPassesIff(rowHash: RowHash, es: seq<Event>, fs: seq<Event>)
    requires 0 < |es| <= |fs| && Intact(rowHash, es) && !Clash(rowHash, es, fs)
    ensures PassesFor(rowHash, es, fs) <==> Extends(rowHash, es, fs)
  {
    var k := |fs| - |es|;
    if PassesFor(rowHash, es, fs) {
      VerifiesIffSuffix(rowHash, es, fs);
      PrefixIntact(rowHash, fs, k + 1);
    } else if Extends(rowHash, es, fs) {
      TailPasses(rowHash, es, fs);
      JoinIntact(rowHash, fs, k);
    }
  }

  /**
   * Any list `fs` put in the place of an intact chain `es`, with rows changed, removed, added or moved, passes for
   * it exactly when it is a tail of `es`, or extends `es` at its old end.
   */
  lemma ReplacementPassesIff(rowHash: RowHash, es: seq<Event>, fs: seq<Event>)
    requires es != [] && fs != [] && Intact(rowHash, es) && !Clash(rowHash, es, fs)
    ensures PassesFor(rowHash, es, fs)
            <==> if |fs| <= |es| then AgreesWithSuffix(fs, es) else Extends(rowHash, es, fs)
  {
    if |fs| <= |es| {
      ClashIsSymmetric(rowHash, fs, es);
      VerifiesIffSuffix(rowHash, fs, es);
    } else {
      ExtensionPassesIff(rowHash, es, fs);
    }
  }

  /** The same for the original's hash, every instant being read as an int64 of nanoseconds. */
  lemma TamperingPassesIff(sha: Sha, es: seq<Event>, fs: seq<Event>)
    requires es != [] && fs != [] && AllFit(es) && AllFit(fs)
    requires Intact(CanonicalHash(sha), es) && !Collision(sha, es, fs)
    ensures PassesFor(CanonicalHash(sha), es, fs)
            <==> if |fs| <= |es| then AgreesWithSuffix(WrapAll(fs), WrapAll(es))
                 else Extends(CanonicalHash(sha), WrapAll(es), WrapAll(fs))
  {
    if Clash(CanonicalHash(sha), WrapAll(es), WrapAll(fs)) {
      WrapClashIsCollision(sha, es, fs);
    }
    WrapKeepsIntact(sha, es);
    WrapKeepsIntact(sha, fs);
    ReplacementPassesIff(CanonicalHash(sha), WrapAll(es), WrapAll(fs));
  }

  lemma NotASuffix(es: seq<Event>, fs: seq<Event>, i: nat)
    requires |es| == |fs| && i < |es| && !Agree(es[i].core, fs[i].core)
    ensures !AgreesWithSuffix(es, fs)
  {
  }

  /** Changing a hashed column or a this_hash of an intact chain breaks it, changes its root, or needs a collision. */
  lemma TamperingIsDetected(sha: Sha, es: seq<Event>, fs: seq<Event>, i: nat)
    requires |es| == |fs| && i < |es| && !Agree(WrapRow(es[i]).core, WrapRow(fs[i]).core)
    requires AllFit(es) && AllFit(fs) && !Collision(sha, es, fs)
    requires Intact(CanonicalHash(sha), es)
    ensures !PassesFor(CanonicalHash(sha), es, fs)
  {
    TamperingPassesIff(sha, es, fs);
    NotASuffix(WrapAll(fs), WrapAll(es), i);
  }

  // ---------------------------------------------------------------- removing and reordering rows

  predicate Positions(ps: seq<nat>, n: nat) {
    forall i :: 0 <= i < |ps| ==> ps[i] < n
  }

  /** The rows at the positions `ps`, in that order. */
  function Picked(es: seq<Event>, ps: seq<nat>): (r: seq<Event>)
    requires Positions(ps, |es|)
    ensures |r| == |ps| && forall i :: 0 <= i < |ps| ==> r[i] == es[ps[i]]
  {
    seq(|ps|, i requires 0 <= i < |ps| => es[ps[i]])
  }

  /** The newest rows, in their old order. */
  predicate AreLast(ps: seq<nat>, n: nat) {
    |ps| <= n && forall i :: 0 <= i < |ps| ==> ps[i] == n - |ps| + i
  }

  lemma PickedAgreesIff(es: seq<Event>, ps: seq<nat>)
    requires Positions(ps, |es|) && |ps| <= |es| && UniqueIds(es)
    ensures AgreesWithSuffix(Picked(es, ps), es) <==> AreLast(ps, |es|)
  {
  }

  lemma PickedClash(rowHash: RowHash, es: seq<Event>, ps: seq<nat>)
    requires Positions(ps, |es|) && Clash(rowHash, es, Picked(es, ps))
    ensures Clash(rowHash, es, es)
  {
  }

  /**
   * Removing rows of an intact chain, or putting some of them in another order, goes unnoticed exactly when the rows
   * that remain are the newest ones in their old order.
   */
  lemma RemovalPassesIff(rowHash: RowHash, es: seq<Event>, ps: seq<nat>)
    requires Positions(ps, |es|) && 0 < |ps| <= |es|
    requires UniqueIds(es) && Intact(rowHash, es) && !Clash(rowHash, es, es)
    ensures PassesFor(rowHash, es, Picked(es, ps)) <==> AreLast(ps, |es|)
  {
    if Clash(rowHash, es, Picked(es, ps)) {
      PickedClash(rowHash, es, ps);
    }
    ReplacementPassesIff(rowHash, es, Picked(es, ps));
    PickedAgreesIff(es, ps);
  }
}
