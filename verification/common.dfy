/** Values and sequence facts shared by the modules of the model. */
module Common {

  datatype Option<T> = None | Some(value: T)

  /** One octet of a byte string. */
  type Byte = b: int | 0 <= b < 256

  /** The concatenation of a sequence of sequences. */
  function Flatten<T>(xs: seq<seq<T>>): seq<T>
  {
    if xs == [] then [] else xs[0] + Flatten(xs[1..])
  }

  /** n copies of v. */
  function Filled<T>(n: nat, v: T): (s: seq<T>)
    ensures |s| == n && forall k :: 0 <= k < n ==> s[k] == v
  {
    if n == 0 then [] else Filled(n - 1, v) + [v]
  }

  /** `s` with the |v| elements starting at `at` replaced by `v`: a slice assignment of equal length. */
  function Splice<T>(s: seq<T>, at: nat, v: seq<T>): (r: seq<T>)
    requires at + |v| <= |s|
    ensures |r| == |s|
    ensures r[at..at + |v|] == v
  {
    s[..at] + v + s[at + |v|..]
  }

  lemma {:induction false} FlattenAppend<T>(xs: seq<seq<T>>, x: seq<T>)
    ensures Flatten(xs + [x]) == Flatten(xs) + x
  {
    if xs == [] {
      assert xs + [x] == [x];
      assert Flatten([x]) == x + Flatten([x][1..]);
    } else {
      assert (xs + [x])[0] == xs[0];
      assert (xs + [x])[1..] == xs[1..] + [x];
      FlattenAppend(xs[1..], x);
    }
  }

  /** One more row of width w. */
  lemma MulSucc(a: nat, w: nat)
    ensures (a + 1) * w == a * w + w
  {
  }

  /** Every element has width `w`, so the concatenation has |xs| * w elements. */
  lemma {:induction false} FlattenLength<T>(xs: seq<seq<T>>, w: nat)
    requires forall j :: 0 <= j < |xs| ==> |xs[j]| == w
    ensures |Flatten(xs)| == |xs| * w
  {
    if xs != [] {
      FlattenLength(xs[1..], w);
      MulSucc(|xs| - 1, w);
    }
  }

  /** Element i of a uniform-width sequence sits at i * w in the concatenation. */
  lemma {:induction false} FlattenSlice<T>(xs: seq<seq<T>>, w: nat, i: nat)
    requires forall j :: 0 <= j < |xs| ==> |xs[j]| == w
    requires i < |xs|
    ensures |Flatten(xs)| == |xs| * w
    ensures i * w + w <= |Flatten(xs)|
    ensures Flatten(xs)[i * w..i * w + w] == xs[i]
  {
    FlattenLength(xs, w);
    var F := Flatten(xs[1..]);
    assert Flatten(xs) == xs[0] + F;
    if i == 0 {
      assert Flatten(xs)[..w] == xs[0];
    } else {
      FlattenSlice(xs[1..], w, i - 1);
      MulSucc(i - 1, w);
      MulSucc(|xs| - 1, w);
      assert Flatten(xs)[i * w..i * w + w] == F[(i - 1) * w..(i - 1) * w + w];
    }
  }

  /** The concatenation of two parts is the concatenation of their concatenations. */
  lemma {:induction false} FlattenConcat<T>(a: seq<seq<T>>, b: seq<seq<T>>)
    ensures Flatten(a + b) == Flatten(a) + Flatten(b)
  {
    if a != [] {
      assert (a + b)[0] == a[0] && (a + b)[1..] == a[1..] + b;
      FlattenConcat(a[1..], b);
    } else {
      assert a + b == b;
    }
  }

  /** Flatten of xs with element i exposed. */
  lemma {:induction false} FlattenAround<T>(xs: seq<seq<T>>, i: nat)
    requires i < |xs|
    ensures Flatten(xs) == Flatten(xs[..i]) + xs[i] + Flatten(xs[i + 1..])
  {
    var left, mid, right := xs[..i], [xs[i]], xs[i + 1..];
    assert xs == left + (mid + right);
    FlattenConcat(left, mid + right);
    FlattenConcat(mid, right);
    assert Flatten(mid) == xs[i] + Flatten(mid[1..]);
    assert mid[1..] == [];
  }

  /** Replacing element i of a uniform-width sequence is a splice of the concatenation at i * w. */
  lemma {:induction false} FlattenUpdate<T>(xs: seq<seq<T>>, w: nat, i: nat, v: seq<T>)
    requires forall j :: 0 <= j < |xs| ==> |xs[j]| == w
    requires i < |xs| && |v| == w
    ensures i * w + w <= |Flatten(xs)|
    ensures Flatten(xs[i := v]) == Splice(Flatten(xs), i * w, v)
  {
    var ys := xs[i := v];
    FlattenAround(xs, i);
    FlattenAround(ys, i);
    assert ys[..i] == xs[..i] && ys[i + 1..] == xs[i + 1..];
    FlattenLength(xs[..i], w);
    var pre := Flatten(xs[..i]);
    var post := Flatten(xs[i + 1..]);
    assert |pre| == i * w;
    assert (pre + xs[i] + post)[..i * w] == pre;
    assert (pre + xs[i] + post)[i * w + w..] == post;
  }

  /** A splice inside the right part of a concatenation only changes that part. */
  lemma {:induction false} SpliceShift<T>(p: seq<T>, s: seq<T>, at: nat, v: seq<T>)
    requires at + |v| <= |s|
    ensures Splice(p + s, |p| + at, v) == p + Splice(s, at, v)
  {
    assert (p + s)[..|p| + at] == p + s[..at];
    assert (p + s)[|p| + at + |v|..] == s[at + |v|..];
  }

  /** A splice inside the left part of a concatenation only changes that part. */
  lemma {:induction false} SpliceLeft<T>(s: seq<T>, q: seq<T>, at: nat, v: seq<T>)
    requires at + |v| <= |s|
    ensures Splice(s + q, at, v) == Splice(s, at, v) + q
  {
    assert (s + q)[..at] == s[..at];
    assert (s + q)[at + |v|..] == s[at + |v|..] + q;
  }

  /** Splicing into a block that sits at `a` is splicing at `a + k` of the whole. */
  lemma {:induction false} SpliceInside<T>(s: seq<T>, a: nat, y: seq<T>, k: nat, v: seq<T>)
    requires a + |y| <= |s| && s[a..a + |y|] == y
    requires k + |v| <= |y|
    ensures Splice(s, a, Splice(y, k, v)) == Splice(s, a + k, v)
  {
    var l := Splice(s, a, Splice(y, k, v));
    var r := Splice(s, a + k, v);
    assert |l| == |r|;
    forall p | 0 <= p < |l|
      ensures l[p] == r[p]
    {
      if a <= p < a + |y| {
        assert l[p] == Splice(y, k, v)[p - a];
        assert s[p] == y[p - a];
      }
    }
  }

  /** Concatenation is associative. */
  lemma {:induction false} ConcatAssoc<T>(a: seq<T>, b: seq<T>, c: seq<T>)
    ensures (a + b) + c == a + (b + c)
  {
  }

  /** A slice of the right part of a concatenation. */
  lemma {:induction false} SliceAfterPrefix<T>(p: seq<T>, s: seq<T>, i: nat, j: nat)
    requires i <= j <= |s|
    ensures (p + s)[|p| + i..|p| + j] == s[i..j]
  {
    assert |(p + s)[|p| + i..|p| + j]| == j - i;
    forall k | 0 <= k < j - i
      ensures (p + s)[|p| + i..|p| + j][k] == s[i..j][k]
    {
      assert (p + s)[|p| + i + k] == s[i + k];
    }
  }

  /** A slice of the left part of a concatenation. */
  lemma {:induction false} SliceBeforeSuffix<T>(s: seq<T>, q: seq<T>, i: nat, j: nat)
    requires i <= j <= |s|
    ensures (s + q)[i..j] == s[i..j]
  {
    assert |(s + q)[i..j]| == j - i;
    forall k | 0 <= k < j - i
      ensures (s + q)[i..j][k] == s[i..j][k]
    {
      assert (s + q)[i + k] == s[i + k];
    }
  }

  /** A slice of a slice is a slice. */
  lemma {:induction false} SliceOfSlice<T>(s: seq<T>, a: nat, b: nat, i: nat, j: nat)
    requires a <= b <= |s| && i <= j <= b - a
    ensures s[a..b][i..j] == s[a + i..a + j]
  {
    forall k | 0 <= k < j - i
      ensures s[a..b][i..j][k] == s[a + i..a + j][k]
    {
      assert s[a..b][i + k] == s[a + i + k];
    }
  }

  /** A slice of a block that sits at `a` is a slice of the whole at `a`. */
  lemma {:induction false} SliceWithin<T>(s: seq<T>, a: nat, y: seq<T>, i: nat, j: nat, z: seq<T>)
    requires a + |y| <= |s| && s[a..a + |y|] == y
    requires i <= j <= |y| && y[i..j] == z
    ensures s[a + i..a + j] == z
  {
    SliceOfSlice(s, a, a + |y|, i, j);
  }

  /** a * d is at least d when a is at least 1. */
  lemma {:induction false} MulAtLeast(a: int, d: int)
    requires a >= 1 && d > 0
    ensures a * d >= d
  {
    var e := a - 1;
    assert a * d == e * d + d;
    assert e * d >= 0;
  }

  /** Euclidean division is determined by quotient and remainder. */
  lemma {:induction false} DivModUnique(x: int, d: int, k: int, b: int)
    requires d > 0 && 0 <= b < d && x == k * d + b
    ensures x / d == k && x % d == b
  {
    var k', b' := x / d, x % d;
    assert x == k' * d + b';
    assert (k' - k) * d == b - b';
    if k' > k {
      MulAtLeast(k' - k, d);
    } else if k' < k {
      assert (k - k') * d == b' - b;
      MulAtLeast(k - k', d);
    }
  }

  /** Adding whole multiples of d moves the quotient and keeps the remainder. */
  lemma {:induction false} DivShift(q: int, m: int, d: int)
    requires d > 0
    ensures (q * d + m) / d == q + m / d
    ensures (q * d + m) % d == m % d
  {
    var a, b := m / d, m % d;
    assert q * d + m == (q + a) * d + b;
    DivModUnique(q * d + m, d, q + a, b);
  }

  /** Dividing by a and then by b is dividing by a * b. */
  lemma {:induction false} DivDiv(n: int, a: int, b: int)
    requires a > 0 && b > 0
    ensures n / a / b == n / (a * b)
  {
    var q, r := n / (a * b), n % (a * b);
    assert n == (q * b) * a + r;
    DivShift(q * b, r, a);
    assert (r / a) * a <= r < b * a;
    assert r / a < b;
    DivShift(q, r / a, b);
    DivModUnique(r / a, b, 0, r / a);
  }

  /** `str.lower()` on one character, for the ASCII letters. */
  function LowerChar(c: char): (r: char)
    ensures !('A' <= r <= 'Z')
    ensures !('A' <= c <= 'Z') ==> r == c
    ensures 'A' <= c <= 'Z' ==> r as int == c as int + 32
  {
    if 'A' <= c <= 'Z' then (c as int + 32) as char else c
  }

  /** `str.lower()`, for the ASCII letters. */
  function Lower(s: string): (r: string)
    ensures |r| == |s|
    ensures forall i :: 0 <= i < |s| ==> r[i] == LowerChar(s[i])
  {
    seq(|s|, i requires 0 <= i < |s| => LowerChar(s[i]))
  }

  /** Lowering twice is lowering once. */
  lemma LowerIdempotent(s: string)
    ensures Lower(Lower(s)) == Lower(s)
  {
  }

  /** The decimal digit character of d. */
  function DigitChar(d: nat): (c: char)
    requires d < 10
    ensures '0' <= c <= '9'
    ensures c as int - '0' as int == d
  {
    ('0' as int + d) as char
  }

  /** `str(n)` for a natural number: its decimal digits, most significant first. */
  function NatToString(n: nat): (s: string)
    ensures |s| >= 1
    ensures n < 10 <==> |s| == 1
    ensures n < 10 ==> s == [DigitChar(n)]
    ensures forall i :: 0 <= i < |s| ==> '0' <= s[i] <= '9'
  {
    if n < 10 then [DigitChar(n)] else NatToString(n / 10) + [DigitChar(n % 10)]
  }

  /** Some element of a non-empty set. */
  lemma Pick<T>(s: set<T>) returns (x: T)
    requires s != {}
    ensures x in s
  {
    x :| x in s;
  }
}
