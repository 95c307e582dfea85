/** Facts about Euclidean remainder and about sums of integer sequences that the vector,
    sharing and ciphertext proofs rely on. `x % p` is Dafny's Euclidean remainder, which for
    `p != 0` lies in `[0, |p|)`, the same value gmp's `Mod` computes. */
module ModArith {

  /** The sum of a sequence, accumulated from the left as the source's loops do. */
  function Sum(xs: seq<int>): int
    decreases |xs|
  {
    if |xs| == 0 then 0 else Sum(xs[..|xs| - 1]) + xs[|xs| - 1]
  }

  lemma MulAtLeast(d: int, p: int)
    requires d >= 1 && p > 0
    ensures d * p >= p
  {
    assert d * p == (d - 1) * p + p;
  }

  /** The quotient and remainder of a division are the only decomposition with the
      remainder in `[0, p)`. */
  lemma ModUnique(n: int, q: int, r: int, p: int)
    requires p > 0 && 0 <= r < p && n == q * p + r
    ensures n % p == r && n / p == q
  {
    var q', r' := n / p, n % p;
    var d := q - q';
    assert d * p == r' - r by {
      assert n == q' * p + r';
      assert d * p == q * p - q' * p;
    }
    if d >= 1 {
      MulAtLeast(d, p);
    } else if d <= -1 {
      MulAtLeast(-d, p);
    }
  }

  lemma ModShift(x: int, k: int, p: int)
    requires p > 0
    ensures (x + k * p) % p == x % p
  {
    var q, r := x / p, x % p;
    assert x + k * p == (q + k) * p + r;
    ModUnique(x + k * p, q + k, r, p);
  }

  lemma ModMod(x: int, p: int)
    requires p > 0
    ensures (x % p) % p == x % p
  {
    ModUnique(x % p, 0, x % p, p);
  }

  lemma ModAdd(x: int, y: int, p: int)
    requires p > 0
    ensures (x + y) % p == (x % p + y % p) % p
  {
    var qx, qy := x / p, y / p;
    assert x + y == (x % p + y % p) + (qx + qy) * p;
    ModShift(x % p + y % p, qx + qy, p);
  }

  lemma ModSub(x: int, y: int, p: int)
    requires p > 0
    ensures (x - y) % p == (x % p - y % p) % p
  {
    var qx, qy := x / p, y / p;
    assert x - y == (x % p - y % p) + (qx - qy) * p;
    ModShift(x % p - y % p, qx - qy, p);
  }

  lemma ModMulLeft(x: int, y: int, p: int)
    requires p > 0
    ensures (x * y) % p == ((x % p) * y) % p
  {
    var q, r := x / p, x % p;
    assert x * y == (q * p + r) * y;
    assert (q * p + r) * y == r * y + (q * y) * p;
    ModShift(r * y, q * y, p);
  }

  /** Congruence is kept by addition. */
  lemma AddCongruent(x: int, x': int, y: int, y': int, p: int)
    requires p > 0 && x % p == x' % p && y % p == y' % p
    ensures (x + y) % p == (x' + y') % p
  {
    ModAdd(x, y, p);
    ModAdd(x', y', p);
  }

  /** Congruence is kept by subtraction. */
  lemma SubCongruent(x: int, x': int, y: int, y': int, p: int)
    requires p > 0 && x % p == x' % p && y % p == y' % p
    ensures (x - y) % p == (x' - y') % p
  {
    ModSub(x, y, p);
    ModSub(x', y', p);
  }

  /** Congruence is kept by multiplication with the same factor. */
  lemma MulCongruent(x: int, x': int, y: int, p: int)
    requires p > 0 && x % p == x' % p
    ensures (x * y) % p == (x' * y) % p
  {
    ModMulLeft(x, y, p);
    ModMulLeft(x', y, p);
  }

  /** Sums of elementwise congruent sequences are congruent. */
  lemma {:induction false} SumCongruent(xs: seq<int>, ys: seq<int>, p: int)
    requires p > 0 && |xs| == |ys|
    requires forall i :: 0 <= i < |xs| ==> xs[i] % p == ys[i] % p
    ensures Sum(xs) % p == Sum(ys) % p
    decreases |xs|
  {
    if |xs| > 0 {
      var n := |xs| - 1;
      var xs', ys' := xs[..n], ys[..n];
      forall i | 0 <= i < n
        ensures xs'[i] % p == ys'[i] % p
      {
        assert xs'[i] == xs[i] && ys'[i] == ys[i];
      }
      SumCongruent(xs', ys', p);
      AddCongruent(Sum(xs[..n]), Sum(ys[..n]), xs[n], ys[n], p);
    }
  }

  /** The sum of an elementwise sum is the sum of the sums. */
  lemma {:induction false} SumOfSums(xs: seq<int>, ys: seq<int>, zs: seq<int>)
    requires |xs| == |ys| == |zs|
    requires forall i :: 0 <= i < |zs| ==> zs[i] == xs[i] + ys[i]
    ensures Sum(zs) == Sum(xs) + Sum(ys)
    decreases |zs|
  {
    if |zs| > 0 {
      var n := |zs| - 1;
      SumOfSums(xs[..n], ys[..n], zs[..n]);
    }
  }

  /** The sum of an elementwise difference is the difference of the sums. */
  lemma {:induction false} SumOfDifferences(xs: seq<int>, ys: seq<int>, zs: seq<int>)
    requires |xs| == |ys| == |zs|
    requires forall i :: 0 <= i < |zs| ==> zs[i] == xs[i] - ys[i]
    ensures Sum(zs) == Sum(xs) - Sum(ys)
    decreases |zs|
  {
    if |zs| > 0 {
      var n := |zs| - 1;
      SumOfDifferences(xs[..n], ys[..n], zs[..n]);
    }
  }

  /** Scaling every term scales the sum. */
  lemma {:induction false} SumScaled(xs: seq<int>, c: int, zs: seq<int>)
    requires |xs| == |zs|
    requires forall i :: 0 <= i < |zs| ==> zs[i] == xs[i] * c
    ensures Sum(zs) == Sum(xs) * c
    decreases |zs|
  {
    if |zs| > 0 {
      var n := |zs| - 1;
      SumScaled(xs[..n], c, zs[..n]);
      assert (Sum(xs[..n]) + xs[n]) * c == Sum(xs[..n]) * c + xs[n] * c;
    }
  }
}
