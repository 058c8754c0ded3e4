/** Byte strings: Go's `string` and `[]byte` are both finite sequences of bytes here. */
module ByteStrings {

  type Byte = b: int | 0 <= b < 256

  type Bytes = seq<Byte>

  /** Go's `<` on strings: bytewise lexicographic order. */
  predicate Less(a: Bytes, b: Bytes) {
    LessFrom(a, b, 0)
  }

  /** The comparison from position `i` on, everything before being equal. */
  predicate LessFrom(a: Bytes, b: Bytes, i: nat)
    decreases |b| - i
  {
    if i >= |b| then false
    else if i >= |a| then true
    else a[i] < b[i] || (a[i] == b[i] && LessFrom(a, b, i + 1))
  }

  lemma {:induction false} LessIrreflexive(a: Bytes, i: nat)
    ensures !LessFrom(a, a, i)
    decreases |a| - i
  {
    if i >= |a| {
    } else {
      LessIrreflexive(a, i + 1);
    }
  }

  lemma {:induction false} LessTransitive(a: Bytes, b: Bytes, c: Bytes, i: nat)
    requires LessFrom(a, b, i) && LessFrom(b, c, i)
    ensures LessFrom(a, c, i)
    decreases |b| - i
  {
    if i < |a| && a[i] == b[i] == c[i] {
      LessTransitive(a, b, c, i + 1);
    }
  }

  lemma {:induction false} LessTotal(a: Bytes, b: Bytes, i: nat)
    requires i <= |a| && i <= |b| && forall j :: 0 <= j < i ==> a[j] == b[j]
    ensures LessFrom(a, b, i) || a == b || LessFrom(b, a, i)
    decreases |a| - i
  {
    if i < |a| && i < |b| && a[i] == b[i] {
      LessTotal(a, b, i + 1);
    }
  }

  /** `b` goes on where `a` ends, or has the larger byte, and everything before is equal. */
  predicate FirstDifference(a: Bytes, b: Bytes, k: nat) {
    k <= |a| && k < |b| && a[..k] == b[..k] && (k == |a| || a[k] < b[k])
  }

  lemma {:induction false} LessFromIff(a: Bytes, b: Bytes, i: nat)
    requires i <= |a| && i <= |b| && a[..i] == b[..i]
    ensures LessFrom(a, b, i) <==> exists k: nat :: i <= k && FirstDifference(a, b, k)
    decreases |b| - i
  {
    if i == |b| {
    } else if i == |a| || a[i] < b[i] {
      assert FirstDifference(a, b, i);
    } else if a[i] == b[i] {
      assert a[..i + 1] == a[..i] + [a[i]] && b[..i + 1] == b[..i] + [b[i]];
      LessFromIff(a, b, i + 1);
      assert !FirstDifference(a, b, i);
    } else {
      forall k: nat | i < k <= |a| && k < |b| ensures !FirstDifference(a, b, k) {
        assert a[..k][i] != b[..k][i];
      }
    }
  }

  /** The order is the one of the first difference, a proper prefix coming first. */
  lemma LessIff(a: Bytes, b: Bytes)
    ensures Less(a, b) <==> exists k: nat :: FirstDifference(a, b, k)
  {
    LessFromIff(a, b, 0);
  }

  /** The bytes of an ASCII text. */
  function Ascii(s: string): (r: Bytes)
    requires forall i :: 0 <= i < |s| ==> s[i] < 128 as char
    ensures |r| == |s| && forall i :: 0 <= i < |s| ==> r[i] == s[i] as int
  {
    seq(|s|, i requires 0 <= i < |s| => s[i] as int)
  }

  lemma ConcatUnique(a: Bytes, restA: Bytes, b: Bytes, restB: Bytes)
    requires |a| == |b| && a + restA == b + restB
    ensures a == b && restA == restB
  {
    assert a == (a + restA)[..|a|] && b == (b + restB)[..|b|];
    assert restA == (a + restA)[|a|..] && restB == (b + restB)[|b|..];
  }

  lemma ConcatAssociative(a: Bytes, b: Bytes, c: Bytes, d: Bytes)
    ensures a + (b + (c + d)) == a + b + c + d
  {
  }

  /** binary.BigEndian.PutUint32. */
  function Uint32(n: nat): (r: Bytes)
    ensures |r| == 4
  {
    [n / 0x1_00_00_00 % 256, n / 0x1_00_00 % 256, n / 0x1_00 % 256, n % 256]
  }

  /** binary.BigEndian.PutUint64. */
  function Uint64(n: nat): (r: Bytes)
    ensures |r| == 8
  {
    Uint32(n / 0x1_0000_0000) + Uint32(n % 0x1_0000_0000)
  }

  lemma Uint32Injective(m: nat, n: nat)
    requires m < 0x1_0000_0000 && n < 0x1_0000_0000
    ensures Uint32(m) == Uint32(n) <==> m == n
  {
    if Uint32(m) == Uint32(n) {
      Uint32Value(m);
      Uint32Value(n);
    }
  }

  lemma Uint32Value(n: nat)
    requires n < 0x1_0000_0000
    ensures var b: seq<int> := Uint32(n); n == 0x1_00_00_00 * b[0] + 0x1_00_00 * b[1] + 0x1_00 * b[2] + b[3]
  {
    var q := n / 0x1_00;
    var r := q / 0x1_00;
    assert n / 0x1_00_00 == r && n / 0x1_00_00_00 == r / 0x1_00;
    assert n == 0x1_00 * q + n % 0x1_00 && q == 0x1_00 * r + q % 0x1_00;
  }

  lemma Uint64Injective(m: nat, n: nat)
    requires m < 0x1_0000_0000_0000_0000 && n < 0x1_0000_0000_0000_0000
    ensures Uint64(m) == Uint64(n) <==> m == n
  {
    if Uint64(m) == Uint64(n) {
      var k := 0x1_0000_0000;
      ConcatUnique(Uint32(m / k), Uint32(m % k), Uint32(n / k), Uint32(n % k));
      Uint32Injective(m / k, n / k);
      Uint32Injective(m % k, n % k);
    }
  }

  function Zeros(n: nat): (r: Bytes)
    ensures |r| == n
    ensures forall i :: 0 <= i < n ==> r[i] == 0
  {
    if n == 0 then [] else Zeros(n - 1) + [0]
  }
}
