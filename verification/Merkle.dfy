/** The binary Merkle root over event hashes. */
module Merkle {
  import opened ByteStrings
  import opened Encoding

  // ---------------------------------------------------------------- the bottom-up loop

  /** One pass of the loop: hash neighbours pairwise, promote an odd last element. */
  function Level(sha: Sha, hs: seq<Bytes>): (next: seq<Bytes>)
    ensures |next| == (|hs| + 1) / 2
  {
    if |hs| < 2 then hs else [sha(hs[0] + hs[1])] + Level(sha, hs[2..])
  }

  method MerkleRoot(sha: Sha, hashes: seq<Bytes>) returns (root: Bytes)
    ensures root == if hashes == [] then ZERO_HASH else Tree(sha, hashes)
  {
    if |hashes| == 0 {
      return ZERO_HASH;
    }
    if |hashes| == 1 {
      return hashes[0];
    }
    var current := hashes;
    while |current| > 1
      invariant |current| > 0
      invariant Tree(sha, current) == Tree(sha, hashes)
      decreases |current|
    {
      var next := NextLevel(sha, current);
      LevelKeepsRoot(sha, current);
      current := next;
    }
    return current[0];
  }

  method NextLevel(sha: Sha, current: seq<Bytes>) returns (next: seq<Bytes>)
    requires |current| >= 2
    ensures next == Level(sha, current)
  {
    next := [];
    var i := 0;
    while i < |current|
      invariant 0 <= i <= |current| + 1
      invariant i <= |current| ==> next + Level(sha, current[i..]) == Level(sha, current)
      invariant i > |current| ==> next == Level(sha, current)
    {
      ghost var rest := current[i..];
      if i + 1 >= |current| {
        next := next + [current[i]];
        assert rest == [current[i]];
      } else {
        assert rest[2..] == current[i + 2..] && rest[0] == current[i] && rest[1] == current[i + 1];
        next := next + [sha(current[i] + current[i + 1])];
      }
      i := i + 2;
    }
  }

  // ---------------------------------------------------------------- the top-down tree it computes

  /** The largest power of two strictly below `n`. */
  function SplitPoint(n: nat): (k: nat)
    requires n >= 2
    ensures 0 < k < n <= 2 * k
    ensures n > 2 ==> k % 2 == 0
  {
    if n == 2 then 1 else 2 * SplitPoint((n + 1) / 2)
  }

  ghost predicate PowerOfTwo(k: nat) {
    k == 1 || (k > 1 && k % 2 == 0 && PowerOfTwo(k / 2))
  }

  /** With `k < n <= 2k` this pins the split point down. */
  lemma {:induction false} SplitPointIsPowerOfTwo(n: nat)
    requires n >= 2
    ensures PowerOfTwo(SplitPoint(n))
  {
    if n <= 2 {
    } else {
      SplitPointIsPowerOfTwo((n + 1) / 2);
    }
  }

  /** The shape of section 2.1 of RFC 6962, without its leaf and node prefix bytes. */
  function Tree(sha: Sha, hs: seq<Bytes>): Bytes
    requires hs != []
    decreases |hs|
  {
    if |hs| == 1 then hs[0]
    else
      var k := SplitPoint(|hs|);
      sha(Tree(sha, hs[..k]) + Tree(sha, hs[k..]))
  }

  lemma {:induction false} PowersApart(j: nat, k: nat)
    requires PowerOfTwo(j) && PowerOfTwo(k) && j < k
    ensures 2 * j <= k
  {
    if j == 1 {
    } else {
      PowersApart(j / 2, k / 2);
    }
  }

  /** The root is a leaf, or the hash of the left part's root followed by the right part's, as the RFC splits them. */
  lemma TreeMeaning(sha: Sha, hs: seq<Bytes>, k: nat)
    requires hs != [] && (|hs| > 1 ==> PowerOfTwo(k) && k < |hs| <= 2 * k)
    ensures |hs| == 1 ==> Tree(sha, hs) == hs[0]
    ensures |hs| > 1 ==> Tree(sha, hs) == sha(Tree(sha, hs[..k]) + Tree(sha, hs[k..]))
  {
    if |hs| > 1 {
      var s := SplitPoint(|hs|);
      SplitPointIsPowerOfTwo(|hs|);
      if s < k {
        PowersApart(s, k);
      } else if k < s {
        PowersApart(k, s);
      }
    }
  }

  lemma {:induction false} LevelSplits(sha: Sha, hs: seq<Bytes>, k: nat)
    requires k <= |hs| && k % 2 == 0
    ensures Level(sha, hs) == Level(sha, hs[..k]) + Level(sha, hs[k..])
  {
    if k == 0 {
      assert hs[0..] == hs;
    } else {
      LevelSplits(sha, hs[2..], k - 2);
      assert hs[..k][2..] == hs[2..][..k - 2] && hs[2..][k - 2..] == hs[k..];
      assert hs[..k][0] == hs[0] && hs[..k][1] == hs[1];
    }
  }

  /**
   * One pass of the loop does not change the root.  Read the other way: a list of two or more leaves always
   * has the root of a shorter list, so a root says nothing about how many leaves there are.
   */
  lemma {:induction false} LevelKeepsRoot(sha: Sha, hs: seq<Bytes>)
    requires |hs| >= 2
    ensures |Level(sha, hs)| < |hs|
    ensures Tree(sha, hs) == Tree(sha, Level(sha, hs))
    decreases |hs|
  {
    if |hs| == 2 {
      assert Level(sha, hs) == [sha(hs[0] + hs[1])];
      assert hs[..1] == [hs[0]] && hs[1..] == [hs[1]];
    } else {
      var k := SplitPoint(|hs|);
      var up := Level(sha, hs);
      LevelSplits(sha, hs, k);
      LevelKeepsRoot(sha, hs[..k]);
      if |hs| - k >= 2 {
        LevelKeepsRoot(sha, hs[k..]);
      }
      assert up[..k / 2] == Level(sha, hs[..k]) && up[k / 2..] == Level(sha, hs[k..]);
      assert SplitPoint(|up|) == k / 2;
    }
  }

  // ---------------------------------------------------------------- binding

  /** What is hashed at the root of a tree of two or more leaves. */
  function TopInput(sha: Sha, hs: seq<Bytes>): Bytes
    requires |hs| >= 2
  {
    var k := SplitPoint(|hs|);
    Tree(sha, hs[..k]) + Tree(sha, hs[k..])
  }

  /** Every byte string hashed while building the tree. */
  ghost function Inputs(sha: Sha, hs: seq<Bytes>): set<Bytes>
    requires hs != []
    decreases |hs|
  {
    if |hs| == 1 then {}
    else
      var k := SplitPoint(|hs|);
      {TopInput(sha, hs)} + Inputs(sha, hs[..k]) + Inputs(sha, hs[k..])
  }

  ghost predicate Collision(sha: Sha, xs: set<Bytes>, ys: set<Bytes>) {
    exists x, y :: x in xs && y in ys && Collide(sha, x, y)
  }

  lemma CollisionLifts(sha: Sha, xs: set<Bytes>, ys: set<Bytes>, xs': set<Bytes>, ys': set<Bytes>)
    requires xs <= xs' && ys <= ys' && Collision(sha, xs, ys)
    ensures Collision(sha, xs', ys')
  {
  }

  ghost predicate Leaves(hs: seq<Bytes>) {
    forall h :: h in hs ==> |h| == 32
  }

  lemma TreeIsDigest(sha: Sha, hs: seq<Bytes>)
    requires hs != [] && Leaves(hs)
    ensures |Tree(sha, hs)| == 32
  {
  }

  /** Lists of equal length with equal roots are equal, or two of the strings hashed on the way collide. */
  lemma {:induction false} RootBindsLeaves(sha: Sha, xs: seq<Bytes>, ys: seq<Bytes>)
    requires 0 < |xs| == |ys|
    requires Leaves(xs) && Leaves(ys)
    requires Tree(sha, xs) == Tree(sha, ys)
    ensures xs == ys || Collision(sha, Inputs(sha, xs), Inputs(sha, ys))
    decreases |xs|
  {
    if |xs| <= 1 {
    } else {
      var k := SplitPoint(|xs|);
      if TopInput(sha, xs) != TopInput(sha, ys) {
        assert Collide(sha, TopInput(sha, xs), TopInput(sha, ys));
      } else {
        TopInputUnique(sha, xs, ys);
        RootBindsLeaves(sha, xs[..k], ys[..k]);
        RootBindsLeaves(sha, xs[k..], ys[k..]);
        JoinBindings(sha, xs, ys, k);
      }
    }
  }

  lemma TopInputUnique(sha: Sha, xs: seq<Bytes>, ys: seq<Bytes>)
    requires 2 <= |xs| == |ys|
    requires Leaves(xs) && Leaves(ys)
    requires TopInput(sha, xs) == TopInput(sha, ys)
    ensures var k := SplitPoint(|xs|);
            Tree(sha, xs[..k]) == Tree(sha, ys[..k]) && Tree(sha, xs[k..]) == Tree(sha, ys[k..])
  {
    var k := SplitPoint(|xs|);
    TreeIsDigest(sha, xs[..k]);
    TreeIsDigest(sha, ys[..k]);
    ConcatUnique(Tree(sha, xs[..k]), Tree(sha, xs[k..]), Tree(sha, ys[..k]), Tree(sha, ys[k..]));
  }

  lemma JoinBindings(sha: Sha, xs: seq<Bytes>, ys: seq<Bytes>, k: nat)
    requires 2 <= |xs| == |ys| && k == SplitPoint(|xs|)
    requires xs[..k] == ys[..k] || Collision(sha, Inputs(sha, xs[..k]), Inputs(sha, ys[..k]))
    requires xs[k..] == ys[k..] || Collision(sha, Inputs(sha, xs[k..]), Inputs(sha, ys[k..]))
    ensures xs == ys || Collision(sha, Inputs(sha, xs), Inputs(sha, ys))
  {
    if Collision(sha, Inputs(sha, xs[..k]), Inputs(sha, ys[..k])) {
      CollisionLifts(sha, Inputs(sha, xs[..k]), Inputs(sha, ys[..k]), Inputs(sha, xs), Inputs(sha, ys));
    } else if Collision(sha, Inputs(sha, xs[k..]), Inputs(sha, ys[k..])) {
      CollisionLifts(sha, Inputs(sha, xs[k..]), Inputs(sha, ys[k..]), Inputs(sha, xs), Inputs(sha, ys));
    } else {
      assert xs == xs[..k] + xs[k..] && ys == ys[..k] + ys[k..];
    }
  }
}
