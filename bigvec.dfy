/** Vectors of arbitrary-precision integers (`BigVec`): elementwise arithmetic that updates the
    receiver in place, the dot product, reduction into `[0, n)` and the balanced decoding of
    `Z_n` back to signed integers. */
module BigVectors {
  import opened Errors
  import opened ModArith

  // ---------------------------------------------------------------------------------------
  // The coordinates as values: the functions the methods are specified by.
  // ---------------------------------------------------------------------------------------

  function Zeros(n: nat): seq<int> {
    seq(n, _ => 0)
  }

  function AddCoords(a: seq<int>, b: seq<int>): seq<int>
    requires |a| == |b|
  {
    seq(|a|, i requires 0 <= i < |a| => a[i] + b[i])
  }

  function SubCoords(a: seq<int>, b: seq<int>): seq<int>
    requires |a| == |b|
  {
    seq(|a|, i requires 0 <= i < |a| => a[i] - b[i])
  }

  function MulCoords(a: seq<int>, b: seq<int>): seq<int>
    requires |a| == |b|
  {
    seq(|a|, i requires 0 <= i < |a| => a[i] * b[i])
  }

  /** The sum of the products of the coordinates, accumulated from the left. */
  function DotProduct(a: seq<int>, b: seq<int>): int
    requires |a| == |b|
    decreases |a|
  {
    if |a| == 0 then 0
    else DotProduct(a[..|a| - 1], b[..|b| - 1]) + a[|a| - 1] * b[|b| - 1]
  }

  /** Every coordinate replaced by its Euclidean remainder modulo `n`. */
  function ReduceCoords(a: seq<int>, n: int): seq<int>
    requires |a| > 0 ==> n != 0
  {
    seq(|a|, i requires 0 <= i < |a| => a[i] % n)
  }

  /** `n / 2` truncated toward zero (gmp's `Quo`): residues above it decode as negative. */
  function NegThreshold(n: int): int {
    if n >= 0 then n / 2 else -((-n) / 2)
  }

  /** The balanced decoding of one coordinate: its residue `c` modulo `n`, minus `n` when `c`
      exceeds the threshold. */
  function DecodeSigned(x: int, n: int): int
    requires n != 0
  {
    var c := x % n;
    if c > NegThreshold(n) then c - n else c
  }

  function DecodeCoords(a: seq<int>, n: int): seq<int>
    requires |a| > 0 ==> n != 0
  {
    seq(|a|, i requires 0 <= i < |a| => DecodeSigned(a[i], n))
  }

  /** The signed integers that `Z_n` represents: `-n/2 < x <= n/2` over the rationals. */
  predicate InSignedRange(x: int, n: int) {
    -n < 2 * x <= n
  }

  // ---------------------------------------------------------------------------------------
  // Properties of the value-level operations.
  // ---------------------------------------------------------------------------------------

  /** Reducing twice is reducing once. */
  lemma ReduceIdempotent(a: seq<int>, n: int)
    requires n > 0
    ensures ReduceCoords(ReduceCoords(a, n), n) == ReduceCoords(a, n)
  {
    forall i | 0 <= i < |a|
      ensures ReduceCoords(ReduceCoords(a, n), n)[i] == ReduceCoords(a, n)[i]
    {
      ModMod(a[i], n);
    }
  }

  /** The decoded value is the signed representative of the residue class of `x`. */
  lemma DecodeSignedIsRepresentative(x: int, n: int)
    requires n > 0
    ensures InSignedRange(DecodeSigned(x, n), n)
    ensures DecodeSigned(x, n) % n == x % n
  {
    var c := x % n;
    ModMod(x, n);
    if c > NegThreshold(n) {
      ModShift(c, -1, n);
    }
  }

  /** Decoding returns `x` itself exactly when `x` is in the signed range of `Z_n`. */
  lemma DecodeSignedRoundTrip(x: int, n: int)
    requires n > 0
    ensures DecodeSigned(x, n) == x <==> InSignedRange(x, n)
  {
    DecodeSignedIsRepresentative(x, n);
    if InSignedRange(x, n) {
      if x >= 0 {
        ModUnique(x, 0, x, n);
      } else {
        ModUnique(x, -1, x + n, n);
      }
    }
  }

  /** Two signed-range integers with the same residue are equal. */
  lemma SignedRepresentativeUnique(x: int, y: int, n: int)
    requires n > 0 && InSignedRange(x, n) && InSignedRange(y, n) && x % n == y % n
    ensures x == y
  {
    DecodeSignedRoundTrip(x, n);
    DecodeSignedRoundTrip(y, n);
  }

  /** Decoding a reduced vector gives back the vector exactly when every coordinate is in
      the signed range of `Z_n`. */
  lemma DecodeReduceRoundTrip(a: seq<int>, n: int)
    requires n > 0
    ensures DecodeCoords(ReduceCoords(a, n), n) == a <==> forall i :: 0 <= i < |a| ==> InSignedRange(a[i], n)
  {
    forall i | 0 <= i < |a|
      ensures DecodeSigned(a[i] % n, n) == DecodeSigned(a[i], n)
      ensures DecodeSigned(a[i], n) == a[i] <==> InSignedRange(a[i], n)
    {
      ModMod(a[i], n);
      DecodeSignedRoundTrip(a[i], n);
    }
    if !(forall i :: 0 <= i < |a| ==> InSignedRange(a[i], n)) {
      var i :| 0 <= i < |a| && !InSignedRange(a[i], n);
      assert DecodeCoords(ReduceCoords(a, n), n)[i] != a[i];
    }
  }

  /** The dot product is additive in its left operand. */
  lemma {:induction false} DotProductAddLeft(a: seq<int>, a': seq<int>, b: seq<int>)
    requires |a| == |a'| == |b|
    ensures DotProduct(AddCoords(a, a'), b) == DotProduct(a, b) + DotProduct(a', b)
    decreases |a|
  {
    if |a| > 0 {
      var n := |a| - 1;
      assert AddCoords(a, a')[..n] == AddCoords(a[..n], a'[..n]);
      DotProductAddLeft(a[..n], a'[..n], b[..n]);
      assert (a[n] + a'[n]) * b[n] == a[n] * b[n] + a'[n] * b[n];
    }
  }

  /** The dot product with a fixed right operand respects congruence modulo `p`. */
  lemma {:induction false} DotProductCongruent(u: seq<int>, v: seq<int>, b: seq<int>, p: int)
    requires p > 0 && |u| == |v| == |b|
    requires forall j :: 0 <= j < |u| ==> u[j] % p == v[j] % p
    ensures DotProduct(u, b) % p == DotProduct(v, b) % p
    decreases |u|
  {
    if |u| > 0 {
      var n := |u| - 1;
      var u', v' := u[..n], v[..n];
      forall j | 0 <= j < n
        ensures u'[j] % p == v'[j] % p
      {
        assert u'[j] == u[j] && v'[j] == v[j];
      }
      DotProductCongruent(u', v', b[..n], p);
      MulCongruent(u[n], v[n], b[n], p);
      AddCongruent(DotProduct(u', b[..n]), DotProduct(v', b[..n]), u[n] * b[n], v[n] * b[n], p);
    }
  }

  // ---------------------------------------------------------------------------------------
  // The vector object. `Coords` is the slice's storage; every operation except the
  // constructors works on it in place. No operation of the core reassigns `Coords` itself.
  // ---------------------------------------------------------------------------------------

  class BigVec {
    var Coords: array<int>

    /** Wraps the given storage without copying it (`NewBigVec`). */
    constructor (coords: array<int>)
      ensures Coords == coords
    {
      Coords := coords;
    }

    function Size(): nat
      reads this
    {
      Coords.Length
    }

    function Coord(i: int): int
      requires 0 <= i < Size()
      reads this, Coords
    {
      Coords[i]
    }

    /** The dot product; neither vector is changed. */
    method Dot(b: BigVec) returns (r: Result<int>)
      ensures Coords.Length != b.Coords.Length ==> r == Err(DimensionMismatch)
      ensures Coords.Length == b.Coords.Length ==> r == Ok(DotProduct(Coords[..], b.Coords[..]))
    {
      if Coords.Length != b.Coords.Length {
        return Err(DimensionMismatch);
      }
      var res := 0;
      var i := 0;
      while i < Coords.Length
        invariant 0 <= i <= Coords.Length
        invariant res == DotProduct(Coords[..i], b.Coords[..i])
      {
        assert Coords[..i + 1][..i] == Coords[..i];
        assert b.Coords[..i + 1][..i] == b.Coords[..i];
        res := res + Coords[i] * b.Coords[i];
        i := i + 1;
      }
      assert Coords[..i] == Coords[..] && b.Coords[..i] == b.Coords[..];
      return Ok(res);
    }

    /** Adds `b` into the receiver and returns the receiver. On a length mismatch nothing is
        changed. `b` may share the receiver's storage. */
    method Add(b: BigVec) returns (r: Result<BigVec>)
      modifies Coords
      ensures Coords.Length != b.Coords.Length ==> r == Err(DimensionMismatch) && Coords[..] == old(Coords[..])
      ensures Coords.Length == b.Coords.Length ==>
                r == Ok(this) && Coords[..] == AddCoords(old(Coords[..]), old(b.Coords[..]))
      ensures b.Coords != Coords ==> b.Coords[..] == old(b.Coords[..])
    {
      if Coords.Length != b.Coords.Length {
        return Err(DimensionMismatch);
      }
      ghost var a0, b0 := Coords[..], b.Coords[..];
      var i := 0;
      while i < Coords.Length
        invariant 0 <= i <= Coords.Length
        invariant forall j :: 0 <= j < i ==> Coords[j] == a0[j] + b0[j]
        invariant forall j :: i <= j < Coords.Length ==> Coords[j] == a0[j] && b.Coords[j] == b0[j]
        invariant b.Coords != Coords ==> b.Coords[..] == b0
      {
        Coords[i] := Coords[i] + b.Coords[i];
        i := i + 1;
      }
      return Ok(this);
    }

    /** Subtracts `b` from the receiver and returns the receiver. On a length mismatch nothing
        is changed. */
    method Sub(b: BigVec) returns (r: Result<BigVec>)
      modifies Coords
      ensures Coords.Length != b.Coords.Length ==> r == Err(DimensionMismatch) && Coords[..] == old(Coords[..])
      ensures Coords.Length == b.Coords.Length ==>
                r == Ok(this) && Coords[..] == SubCoords(old(Coords[..]), old(b.Coords[..]))
      ensures b.Coords != Coords ==> b.Coords[..] == old(b.Coords[..])
    {
      if Coords.Length != b.Coords.Length {
        return Err(DimensionMismatch);
      }
      ghost var a0, b0 := Coords[..], b.Coords[..];
      var i := 0;
      while i < Coords.Length
        invariant 0 <= i <= Coords.Length
        invariant forall j :: 0 <= j < i ==> Coords[j] == a0[j] - b0[j]
        invariant forall j :: i <= j < Coords.Length ==> Coords[j] == a0[j] && b.Coords[j] == b0[j]
        invariant b.Coords != Coords ==> b.Coords[..] == b0
      {
        Coords[i] := Coords[i] - b.Coords[i];
        i := i + 1;
      }
      return Ok(this);
    }

    /** Multiplies the receiver by `b` coordinatewise and returns the receiver. On a length
        mismatch nothing is changed. */
    method Mul(b: BigVec) returns (r: Result<BigVec>)
      modifies Coords
      ensures Coords.Length != b.Coords.Length ==> r == Err(DimensionMismatch) && Coords[..] == old(Coords[..])
      ensures Coords.Length == b.Coords.Length ==>
                r == Ok(this) && Coords[..] == MulCoords(old(Coords[..]), old(b.Coords[..]))
      ensures b.Coords != Coords ==> b.Coords[..] == old(b.Coords[..])
    {
      if Coords.Length != b.Coords.Length {
        return Err(DimensionMismatch);
      }
      ghost var a0, b0 := Coords[..], b.Coords[..];
      var i := 0;
      while i < Coords.Length
        invariant 0 <= i <= Coords.Length
        invariant forall j :: 0 <= j < i ==> Coords[j] == a0[j] * b0[j]
        invariant forall j :: i <= j < Coords.Length ==> Coords[j] == a0[j] && b.Coords[j] == b0[j]
        invariant b.Coords != Coords ==> b.Coords[..] == b0
      {
        Coords[i] := Coords[i] * b.Coords[i];
        i := i + 1;
      }
      return Ok(this);
    }

    /** Reduces every coordinate into `[0, |n|)`, in place, and returns the receiver. */
    method Mod(n: int) returns (r: BigVec)
      requires Coords.Length > 0 ==> n != 0
      modifies Coords
      ensures r == this
      ensures Coords[..] == ReduceCoords(old(Coords[..]), n)
      ensures forall i :: 0 <= i < Coords.Length ==>
                0 <= Coords[i] < (if n > 0 then n else -n) && Coords[i] % n == old(Coords[i]) % n
    {
      ghost var a0 := Coords[..];
      var i := 0;
      while i < Coords.Length
        invariant 0 <= i <= Coords.Length
        invariant forall j :: 0 <= j < i ==> Coords[j] == a0[j] % n
        invariant forall j :: i <= j < Coords.Length ==> Coords[j] == a0[j]
      {
        var c := Coords[i] % n;
        if c < 0 {
          // gmp's remainder is never negative, so this correction is never applied.
          c := c + n;
        }
        Coords[i] := c;
        i := i + 1;
      }
      forall i | 0 <= i < Coords.Length
        ensures Coords[i] % n == a0[i] % n
      {
        if n > 0 {
          ModMod(a0[i], n);
        } else {
          ModMod(a0[i], -n);
          assert a0[i] % n == a0[i] % (-n) && Coords[i] % n == Coords[i] % (-n);
        }
      }
      return this;
    }

    /** Returns a fresh vector holding the balanced decoding of every coordinate; as a side
        effect the receiver's coordinates are reduced modulo `n` in place. */
    method DecodeSignedValues(n: int) returns (r: BigVec)
      requires Coords.Length > 0 ==> n != 0
      modifies Coords
      ensures fresh(r) && fresh(r.Coords)
      ensures r.Coords[..] == DecodeCoords(old(Coords[..]), n)
      ensures Coords[..] == ReduceCoords(old(Coords[..]), n)
    {
      ghost var a0 := Coords[..];
      r := NewBigZeroVec(Coords.Length);
      var negThresh := NegThreshold(n);
      var i := 0;
      while i < Coords.Length
        invariant 0 <= i <= Coords.Length
        invariant fresh(r) && fresh(r.Coords) && r.Coords.Length == Coords.Length
        invariant forall j :: 0 <= j < i ==> Coords[j] == a0[j] % n && r.Coords[j] == DecodeSigned(a0[j], n)
        invariant forall j :: i <= j < Coords.Length ==> Coords[j] == a0[j]
      {
        Coords[i] := Coords[i] % n;
        if Coords[i] > negThresh {
          r.Coords[i] := Coords[i] - n;
        } else {
          r.Coords[i] := Coords[i];
        }
        i := i + 1;
      }
    }

    /** True exactly when both vectors have the same length and the same coordinates. */
    method Equal(b: BigVec) returns (equal: bool)
      ensures equal <==> Coords[..] == b.Coords[..]
    {
      if Coords.Length != b.Coords.Length {
        assert |Coords[..]| != |b.Coords[..]|;
        return false;
      }
      equal := true;
      var i := 0;
      while i < Coords.Length
        invariant 0 <= i <= Coords.Length
        invariant equal
        invariant forall j :: 0 <= j < i ==> Coords[j] == b.Coords[j]
      {
        if Coords[i] != b.Coords[i] {
          equal := false;
          assert Coords[..][i] != b.Coords[..][i];
          break;
        }
        i := i + 1;
      }
    }

    /** A copy with its own storage. */
    method Clone() returns (r: BigVec)
      ensures fresh(r) && fresh(r.Coords)
      ensures r.Coords[..] == Coords[..]
    {
      var newCoords := new int[Coords.Length];
      var i := 0;
      while i < Coords.Length
        invariant 0 <= i <= Coords.Length
        invariant forall j :: 0 <= j < i ==> newCoords[j] == Coords[j]
      {
        newCoords[i] := Coords[i];
        i := i + 1;
      }
      r := new BigVec(newCoords);
    }
  }

  /** The all-zero vector of dimension `dim` (no coordinates when `dim` is not positive). */
  method NewBigZeroVec(dim: int) returns (r: BigVec)
    ensures fresh(r) && fresh(r.Coords)
    ensures r.Coords[..] == Zeros(if dim < 0 then 0 else dim)
  {
    var n := if dim < 0 then 0 else dim;
    var vector := new int[n];
    var j := 0;
    while j < n
      invariant 0 <= j <= n
      invariant forall k :: 0 <= k < j ==> vector[k] == 0
    {
      vector[j] := 0;
      j := j + 1;
    }
    r := new BigVec(vector);
  }

  /** A vector of dimension `dim` whose coordinates are drawn from the inclusive range
      `[min, max]`; the draw itself is an arbitrary choice in that range. */
  method NewBigRandomVec(dim: int, min: int, max: int) returns (r: BigVec)
    requires min < max && max > 0
    ensures fresh(r) && fresh(r.Coords)
    ensures r.Coords.Length == if dim < 0 then 0 else dim
    ensures forall i :: 0 <= i < r.Coords.Length ==> min <= r.Coords[i] <= max
  {
    var bound := max - min + 1;
    var n := if dim < 0 then 0 else dim;
    var vector := new int[n];
    var j := 0;
    while j < n
      invariant 0 <= j <= n
      invariant forall k :: 0 <= k < j ==> min <= vector[k] <= max
    {
      var rand :| 0 <= rand < bound;
      vector[j] := rand + min;
      j := j + 1;
    }
    r := new BigVec(vector);
  }
}
