/** Additive k-out-of-k secret sharing of `BigVec`s over a prime field (`ShareVec`): splitting a
    vector into shares, recovering it from all of them, and the operations each party applies
    to its own share without interaction. */
module SecretShares {
  import opened Errors
  import opened ModArith
  import opened BigVectors

  // ---------------------------------------------------------------------------------------
  // Share values and what it means for them to share a vector.
  // ---------------------------------------------------------------------------------------

  predicate Divides(d: int, x: int)
    requires d != 0
  {
    x % d == 0
  }

  /** No integer in `[2, k)` divides `p`. */
  predicate NoDivisorBelow(p: int, k: int)
    decreases k
  {
    k <= 2 || (!Divides(k - 1, p) && NoDivisorBelow(p, k - 1))
  }

  /** Primality; the source's 20-round Miller-Rabin test is taken to decide it exactly. */
  predicate IsPrime(p: int) {
    p > 1 && NoDivisorBelow(p, p)
  }

  lemma {:induction false} NoDivisorBelowIff(p: int, k: int)
    ensures NoDivisorBelow(p, k) <==> forall d :: 1 < d < k ==> !Divides(d, p)
    decreases k
  {
    if k > 2 {
      NoDivisorBelowIff(p, k - 1);
    }
  }

  /** `IsPrime` is the textbook definition: greater than one, with no divisor strictly
      between one and itself. */
  lemma IsPrimeIff(p: int)
    ensures IsPrime(p) <==> p > 1 && forall d :: 1 < d < p ==> !Divides(d, p)
  {
    NoDivisorBelowIff(p, p);
  }

  /** The coordinatewise sum of `vals`, accumulated from the all-zero vector of dimension `d`
      as `RecoverVector` does. */
  function SumAll(vals: seq<seq<int>>, d: nat): (s: seq<int>)
    requires forall i :: 0 <= i < |vals| ==> |vals[i]| == d
    ensures |s| == d
    decreases |vals|
  {
    if |vals| == 0 then Zeros(d)
    else AddCoords(SumAll(vals[..|vals| - 1], d), vals[|vals| - 1])
  }

  /** Coordinate `j` of every share. */
  function Column(vals: seq<seq<int>>, j: nat): seq<int>
    requires forall i :: 0 <= i < |vals| ==> j < |vals[i]|
  {
    seq(|vals|, i requires 0 <= i < |vals| => vals[i][j])
  }

  /** What `RecoverVector` computes from the share values: their sum, reduced modulo `p`,
      then decoded to signed integers. */
  function RecoverCoords(vals: seq<seq<int>>, p: int): seq<int>
    requires |vals| >= 1 && (|vals[0]| > 0 ==> p != 0)
    requires forall i :: 0 <= i < |vals| ==> |vals[i]| == |vals[0]|
  {
    DecodeCoords(ReduceCoords(SumAll(vals, |vals[0]|), p), p)
  }

  /** `vals` is a sharing of `a` modulo `p`: at least one share, every share of `a`'s
      dimension, and the shares sum to `a` modulo `p`. */
  ghost predicate IsSharing(vals: seq<seq<int>>, a: seq<int>, p: int) {
    && p > 0
    && |vals| >= 1
    && (forall i :: 0 <= i < |vals| ==> |vals[i]| == |a|)
    && ReduceCoords(SumAll(vals, |a|), p) == ReduceCoords(a, p)
  }

  /** What `RecoverInt` does with the sum of the scalar shares: subtract `p` once if the sum
      exceeds the threshold. */
  function ThresholdDecode(s: int, p: int): int {
    if s > NegThreshold(p) then s - p else s
  }

  // ---------------------------------------------------------------------------------------
  // Lemmas connecting vector sums and column sums.
  // ---------------------------------------------------------------------------------------

  lemma {:induction false} SumAllColumn(vals: seq<seq<int>>, d: nat, j: nat)
    requires forall i :: 0 <= i < |vals| ==> |vals[i]| == d
    requires j < d
    ensures SumAll(vals, d)[j] == Sum(Column(vals, j))
    decreases |vals|
  {
    if |vals| > 0 {
      var n := |vals| - 1;
      SumAllColumn(vals[..n], d, j);
      assert Column(vals, j)[..n] == Column(vals[..n], j);
    }
  }

  lemma SharingColumn(vals: seq<seq<int>>, a: seq<int>, p: int, j: nat)
    requires IsSharing(vals, a, p) && j < |a|
    ensures Sum(Column(vals, j)) % p == a[j] % p
  {
    SumAllColumn(vals, |a|, j);
    assert ReduceCoords(SumAll(vals, |a|), p)[j] == ReduceCoords(a, p)[j];
  }

  lemma SharingFromColumns(vals: seq<seq<int>>, a: seq<int>, p: int)
    requires p > 0 && |vals| >= 1 && forall i :: 0 <= i < |vals| ==> |vals[i]| == |a|
    requires forall j :: 0 <= j < |a| ==> Sum(Column(vals, j)) % p == a[j] % p
    ensures IsSharing(vals, a, p)
  {
    forall j | 0 <= j < |a|
      ensures ReduceCoords(SumAll(vals, |a|), p)[j] == ReduceCoords(a, p)[j]
    {
      SumAllColumn(vals, |a|, j);
    }
  }

  lemma {:induction false} DotProductZeros(b: seq<int>)
    ensures DotProduct(Zeros(|b|), b) == 0
    decreases |b|
  {
    if |b| > 0 {
      var n := |b| - 1;
      assert Zeros(|b|)[..n] == Zeros(n);
      DotProductZeros(b[..n]);
    }
  }

  /** The local dot products of the shares add up to the dot product of their sum. */
  lemma {:induction false} SumOfShareDots(vals: seq<seq<int>>, b: seq<int>, dots: seq<int>)
    requires forall i :: 0 <= i < |vals| ==> |vals[i]| == |b|
    requires |dots| == |vals| && forall i :: 0 <= i < |vals| ==> dots[i] == DotProduct(vals[i], b)
    ensures Sum(dots) == DotProduct(SumAll(vals, |b|), b)
    decreases |vals|
  {
    if |vals| == 0 {
      DotProductZeros(b);
    } else {
      var n := |vals| - 1;
      SumOfShareDots(vals[..n], b, dots[..n]);
      DotProductAddLeft(SumAll(vals[..n], |b|), vals[n], b);
    }
  }

  // ---------------------------------------------------------------------------------------
  // Sharing, recovery and the local operations, at the level of values.
  // ---------------------------------------------------------------------------------------

  /** The last share `SecretShare` computes, `(a - sum of the others) mod p`, completes a
      sharing of `a` whatever the other shares are. */
  lemma LastShareCompletesSharing(vals: seq<seq<int>>, a: seq<int>, p: int)
    requires p > 0 && |vals| >= 1 && forall i :: 0 <= i < |vals| ==> |vals[i]| == |a|
    requires vals[|vals| - 1] ==
             ReduceCoords(AddCoords(SubCoords(Zeros(|a|), SumAll(vals[..|vals| - 1], |a|)), a), p)
    ensures IsSharing(vals, a, p)
  {
    var d, n := |a|, |vals| - 1;
    var s := SumAll(vals[..n], d);
    assert SumAll(vals, d) == AddCoords(s, vals[n]);
    CompletesVector(s, vals[n], a, p);
  }

  lemma CompletesVector(s: seq<int>, last: seq<int>, a: seq<int>, p: int)
    requires p > 0 && |s| == |a|
    requires last == ReduceCoords(AddCoords(SubCoords(Zeros(|a|), s), a), p)
    ensures ReduceCoords(AddCoords(s, last), p) == ReduceCoords(a, p)
  {
    forall j | 0 <= j < |a|
      ensures ReduceCoords(AddCoords(s, last), p)[j] == ReduceCoords(a, p)[j]
    {
      CompletesCoordinate(s[j], a[j], last[j], p);
    }
  }

  lemma CompletesCoordinate(s: int, a: int, last: int, p: int)
    requires p > 0 && last == ((0 - s) + a) % p
    ensures (s + last) % p == a % p
  {
    var x := (0 - s) + a;
    ModMod(x, p);
    AddCongruent(s, s, x % p, x, p);
  }

  /** Recovering from a sharing gives back the shared vector exactly when every coordinate
      lies in the signed range of `Z_p`. */
  lemma ShareRoundTrip(vals: seq<seq<int>>, a: seq<int>, p: int)
    requires IsSharing(vals, a, p)
    ensures RecoverCoords(vals, p) == a <==> forall j :: 0 <= j < |a| ==> InSignedRange(a[j], p)
  {
    DecodeReduceRoundTrip(a, p);
  }

  /** Adding shares of the same index, each party on its own, shares the sum. */
  lemma LocalAddHomomorphic(A: seq<seq<int>>, B: seq<seq<int>>, C: seq<seq<int>>, a: seq<int>, b: seq<int>, p: int)
    requires IsSharing(A, a, p) && IsSharing(B, b, p) && |A| == |B| && |a| == |b|
    requires |C| == |A| && forall i :: 0 <= i < |C| ==> C[i] == ReduceCoords(AddCoords(A[i], B[i]), p)
    ensures IsSharing(C, AddCoords(a, b), p)
  {
    forall j | 0 <= j < |a|
      ensures Sum(Column(C, j)) % p == AddCoords(a, b)[j] % p
    {
      var cA, cB, cC := Column(A, j), Column(B, j), Column(C, j);
      var cAB := seq(|A|, i requires 0 <= i < |A| => cA[i] + cB[i]);
      forall i | 0 <= i < |C|
        ensures cC[i] % p == cAB[i] % p
      {
        ModMod(cAB[i], p);
      }
      SumCongruent(cC, cAB, p);
      SumOfSums(cA, cB, cAB);
      SharingColumn(A, a, p, j);
      SharingColumn(B, b, p, j);
      AddCongruent(Sum(cA), a[j], Sum(cB), b[j], p);
    }
    SharingFromColumns(C, AddCoords(a, b), p);
  }

  /** Subtracting shares of the same index, each party on its own, shares the difference. */
  lemma LocalSubHomomorphic(A: seq<seq<int>>, B: seq<seq<int>>, C: seq<seq<int>>, a: seq<int>, b: seq<int>, p: int)
    requires IsSharing(A, a, p) && IsSharing(B, b, p) && |A| == |B| && |a| == |b|
    requires |C| == |A| && forall i :: 0 <= i < |C| ==> C[i] == ReduceCoords(SubCoords(A[i], B[i]), p)
    ensures IsSharing(C, SubCoords(a, b), p)
  {
    forall j | 0 <= j < |a|
      ensures Sum(Column(C, j)) % p == SubCoords(a, b)[j] % p
    {
      var cA, cB, cC := Column(A, j), Column(B, j), Column(C, j);
      var cAB := seq(|A|, i requires 0 <= i < |A| => cA[i] - cB[i]);
      forall i | 0 <= i < |C|
        ensures cC[i] % p == cAB[i] % p
      {
        ModMod(cAB[i], p);
      }
      SumCongruent(cC, cAB, p);
      SumOfDifferences(cA, cB, cAB);
      SharingColumn(A, a, p, j);
      SharingColumn(B, b, p, j);
      SubCongruent(Sum(cA), a[j], Sum(cB), b[j], p);
    }
    SharingFromColumns(C, SubCoords(a, b), p);
  }

  /** Multiplying every share by the same public vector shares the elementwise product. */
  lemma LocalMulHomomorphic(A: seq<seq<int>>, C: seq<seq<int>>, a: seq<int>, b: seq<int>, p: int)
    requires IsSharing(A, a, p) && |a| == |b|
    requires |C| == |A| && forall i :: 0 <= i < |C| ==> C[i] == ReduceCoords(MulCoords(A[i], b), p)
    ensures IsSharing(C, MulCoords(a, b), p)
  {
    forall j | 0 <= j < |a|
      ensures Sum(Column(C, j)) % p == MulCoords(a, b)[j] % p
    {
      var cA, cC := Column(A, j), Column(C, j);
      var cAb := seq(|A|, i requires 0 <= i < |A| => cA[i] * b[j]);
      forall i | 0 <= i < |C|
        ensures cC[i] % p == cAb[i] % p
      {
        ModMod(cAb[i], p);
      }
      SumCongruent(cC, cAb, p);
      SumScaled(cA, b[j], cAb);
      SharingColumn(A, a, p, j);
      MulCongruent(Sum(cA), a[j], b[j], p);
    }
    SharingFromColumns(C, MulCoords(a, b), p);
  }

  /** The parties' local dot products with a public vector, reduced modulo `p`, sum to the
      dot product of the shared vector modulo `p`. */
  lemma LocalDotShares(A: seq<seq<int>>, a: seq<int>, b: seq<int>, p: int, dots: seq<int>)
    requires IsSharing(A, a, p) && |b| == |a|
    requires |dots| == |A| && forall i :: 0 <= i < |A| ==> dots[i] == DotProduct(A[i], b) % p
    ensures Sum(dots) % p == DotProduct(a, b) % p
  {
    var raw := seq(|A|, i requires 0 <= i < |A| => DotProduct(A[i], b));
    forall i | 0 <= i < |A|
      ensures dots[i] % p == raw[i] % p
    {
      ModMod(raw[i], p);
    }
    SumCongruent(dots, raw, p);
    SumOfShareDots(A, b, raw);
    var s := SumAll(A, |a|);
    forall j | 0 <= j < |a|
      ensures s[j] % p == a[j] % p
    {
      assert ReduceCoords(s, p)[j] == ReduceCoords(a, p)[j];
    }
    DotProductCongruent(s, a, b, p);
  }

  /** With the sum reduced before decoding, the dot-product shares recover the integer dot
      product exactly when it lies in the signed range of `Z_p`. */
  lemma LocalDotRecovers(A: seq<seq<int>>, a: seq<int>, b: seq<int>, p: int, dots: seq<int>)
    requires IsSharing(A, a, p) && |b| == |a|
    requires |dots| == |A| && forall i :: 0 <= i < |A| ==> dots[i] == DotProduct(A[i], b) % p
    ensures DecodeSigned(Sum(dots), p) == DotProduct(a, b) <==> InSignedRange(DotProduct(a, b), p)
  {
    LocalDotShares(A, a, b, p, dots);
    DecodeSignedRoundTrip(DotProduct(a, b), p);
  }

  /** Decoding an unreduced, non-negative sum `s` by subtracting `p` at most once yields the
      signed value `v` it is congruent to exactly when `s <= p + p/2`. */
  lemma ThresholdDecodeCorrectIff(s: int, v: int, p: int)
    requires p > 0 && s >= 0 && s % p == v % p && InSignedRange(v, p)
    ensures ThresholdDecode(s, p) == v <==> s <= p + NegThreshold(p)
  {
    var t := ThresholdDecode(s, p);
    if s > NegThreshold(p) {
      ModShift(s, -1, p);
    }
    if s <= p + NegThreshold(p) {
      assert InSignedRange(t, p);
      SignedRepresentativeUnique(t, v, p);
    }
  }

  /** As written, `RecoverInt` over the parties' dot-product shares gives a dot product that
      lies in `(-p/2, p/2]` exactly when the raw sum of the shares is at most `p + p/2`. */
  lemma LocalDotRecoversAsWritten(A: seq<seq<int>>, a: seq<int>, b: seq<int>, p: int, dots: seq<int>)
    requires IsSharing(A, a, p) && |b| == |a| && InSignedRange(DotProduct(a, b), p)
    requires |dots| == |A| && forall i :: 0 <= i < |A| ==> dots[i] == DotProduct(A[i], b) % p
    ensures ThresholdDecode(Sum(dots), p) == DotProduct(a, b) <==> Sum(dots) <= p + NegThreshold(p)
  {
    LocalDotShares(A, a, b, p, dots);
    SumNonNegative(dots);
    ThresholdDecodeCorrectIff(Sum(dots), DotProduct(a, b), p);
  }

  lemma {:induction false} SumNonNegative(xs: seq<int>)
    requires forall i :: 0 <= i < |xs| ==> xs[i] >= 0
    ensures Sum(xs) >= 0
    decreases |xs|
  {
    if |xs| > 0 {
      SumNonNegative(xs[..|xs| - 1]);
    }
  }

  /** A two-party instance `SecretShare` can produce (p = 7, a = [-2], first share drawn as
      [6]) on which `RecoverInt`, applied to the dot-product shares with b = [1], returns 5
      instead of -2, while reducing the sum first returns -2. */
  lemma RecoverIntSkipsReduction()
    ensures IsPrime(7)
    ensures ReduceCoords(AddCoords(SubCoords(Zeros(1), SumAll([[6]], 1)), [-2]), 7) == [6]
    ensures IsSharing([[6], [6]], [-2], 7)
    ensures DotProduct([6], [1]) % 7 == 6
    ensures DotProduct([-2], [1]) == -2 && InSignedRange(-2, 7)
    ensures ThresholdDecode(Sum([6, 6]), 7) == 5
    ensures DecodeSigned(Sum([6, 6]), 7) == -2
  {
    assert SumAll([[6]], 1) == [6] by {
      assert [[6]][..0] == [];
    }
    assert SumAll([[6], [6]], 1) == [12] by {
      assert [[6], [6]][..1] == [[6]];
      assert [[6]][..0] == [];
    }
    assert Sum([6, 6]) == 12 by {
      assert [6, 6][..1] == [6];
      assert [6][..0] == [];
    }
    assert DotProduct([6], [1]) == 6 && DotProduct([-2], [1]) == -2 by {
      assert [6][..0] == [] && [1][..0] == [] && [-2][..0] == [];
    }
  }

  // ---------------------------------------------------------------------------------------
  // The share object.
  // ---------------------------------------------------------------------------------------

  class ShareVec {
    var Vec: BigVec
    var P: int
    var Index: int

    constructor (vec: BigVec, p: int, index: int)
      ensures Vec == vec && P == p && Index == index
    {
      Vec, P, Index := vec, p, index;
    }

    function GetCoords(): array<int>
      reads this, Vec
    {
      Vec.Coords
    }

    function FieldModulus(): int
      reads this
    {
      P
    }

    /** Reduces `v` modulo the share's modulus in place and makes it the share's vector. */
    method SetCoords(v: BigVec)
      requires v.Coords.Length > 0 ==> P != 0
      modifies this, v.Coords
      ensures Vec == v && P == old(P) && Index == old(Index)
      ensures v.Coords[..] == ReduceCoords(old(v.Coords[..]), P)
    {
      var _ := v.Mod(P);
      Vec := v;
    }

    /** Adds `b`'s vector into this share's vector. A length mismatch changes nothing; an
        index mismatch is reported only after the vector has been updated. On success the
        vector is reduced modulo `P` and a new share around the same vector is returned. */
    method Add(b: ShareVec) returns (r: Result<ShareVec>)
      requires Vec.Coords.Length == b.Vec.Coords.Length && Index == b.Index && Vec.Coords.Length > 0
               ==> P != 0
      modifies Vec.Coords
      ensures Vec.Coords.Length != b.Vec.Coords.Length ==>
                r == Err(DimensionMismatch) && Vec.Coords[..] == old(Vec.Coords[..])
      ensures Vec.Coords.Length == b.Vec.Coords.Length && Index != b.Index ==>
                r == Err(IndexMismatch) &&
                Vec.Coords[..] == AddCoords(old(Vec.Coords[..]), old(b.Vec.Coords[..]))
      ensures Vec.Coords.Length == b.Vec.Coords.Length && Index == b.Index ==>
                r.Ok? && fresh(r.value) &&
                r.value.Vec == Vec && r.value.P == P && r.value.Index == Index &&
                Vec.Coords[..] == ReduceCoords(AddCoords(old(Vec.Coords[..]), old(b.Vec.Coords[..])), P)
    {
      var c := Vec.Add(b.Vec);
      if c.Err? {
        return Err(c.error);
      }
      if Index != b.Index {
        return Err(IndexMismatch);
      }
      var reduced := c.value.Mod(P);
      var share := new ShareVec(reduced, P, Index);
      r := Ok(share);
    }

    /** Subtracts `b`'s vector from this share's vector, with the same error order as `Add`. */
    method Sub(b: ShareVec) returns (r: Result<ShareVec>)
      requires Vec.Coords.Length == b.Vec.Coords.Length && Index == b.Index && Vec.Coords.Length > 0
               ==> P != 0
      modifies Vec.Coords
      ensures Vec.Coords.Length != b.Vec.Coords.Length ==>
                r == Err(DimensionMismatch) && Vec.Coords[..] == old(Vec.Coords[..])
      ensures Vec.Coords.Length == b.Vec.Coords.Length && Index != b.Index ==>
                r == Err(IndexMismatch) &&
                Vec.Coords[..] == SubCoords(old(Vec.Coords[..]), old(b.Vec.Coords[..]))
      ensures Vec.Coords.Length == b.Vec.Coords.Length && Index == b.Index ==>
                r.Ok? && fresh(r.value) &&
                r.value.Vec == Vec && r.value.P == P && r.value.Index == Index &&
                Vec.Coords[..] == ReduceCoords(SubCoords(old(Vec.Coords[..]), old(b.Vec.Coords[..])), P)
    {
      var c := Vec.Sub(b.Vec);
      if c.Err? {
        return Err(c.error);
      }
      if Index != b.Index {
        return Err(IndexMismatch);
      }
      var reduced := c.value.Mod(P);
      var share := new ShareVec(reduced, P, Index);
      r := Ok(share);
    }

    /** Multiplies this share's vector by the public vector `b` and reduces it modulo `P`. */
    method Mul(b: BigVec) returns (r: Result<ShareVec>)
      requires Vec.Coords.Length == b.Coords.Length && Vec.Coords.Length > 0 ==> P != 0
      modifies Vec.Coords
      ensures Vec.Coords.Length != b.Coords.Length ==>
                r == Err(DimensionMismatch) && Vec.Coords[..] == old(Vec.Coords[..])
      ensures Vec.Coords.Length == b.Coords.Length ==>
                r.Ok? && fresh(r.value) &&
                r.value.Vec == Vec && r.value.P == P && r.value.Index == Index &&
                Vec.Coords[..] == ReduceCoords(MulCoords(old(Vec.Coords[..]), old(b.Coords[..])), P)
    {
      var c := Vec.Mul(b);
      if c.Err? {
        return Err(c.error);
      }
      var reduced := c.value.Mod(P);
      var share := new ShareVec(reduced, P, Index);
      r := Ok(share);
    }

    /** This party's share of the dot product with the public vector `b`, in `[0, |P|)`. */
    method Dot(b: BigVec) returns (r: Result<int>)
      requires Vec.Coords.Length == b.Coords.Length ==> P != 0
      ensures Vec.Coords.Length != b.Coords.Length ==> r == Err(DimensionMismatch)
      ensures Vec.Coords.Length == b.Coords.Length ==>
                r == Ok(DotProduct(Vec.Coords[..], b.Coords[..]) % P)
    {
      if Vec.Coords.Length != b.Coords.Length {
        return Err(DimensionMismatch);
      }
      var res := 0;
      var i := 0;
      while i < Vec.Coords.Length
        invariant 0 <= i <= Vec.Coords.Length
        invariant res == DotProduct(Vec.Coords[..i], b.Coords[..i])
      {
        assert Vec.Coords[..i + 1][..i] == Vec.Coords[..i];
        assert b.Coords[..i + 1][..i] == b.Coords[..i];
        res := res + Vec.Coords[i] * b.Coords[i];
        i := i + 1;
      }
      assert Vec.Coords[..i] == Vec.Coords[..] && b.Coords[..i] == b.Coords[..];
      return Ok(res % P);
    }
  }

  /** The coordinate vectors of the shares, in order. */
  ghost function Values(shares: seq<ShareVec>): seq<seq<int>>
    reads set s | s in shares, set s | s in shares :: s.Vec, set s | s in shares :: s.Vec.Coords
  {
    seq(|shares|, i requires 0 <= i < |shares|
                    reads if 0 <= i < |shares| then {shares[i], shares[i].Vec, shares[i].Vec.Coords} else {} =>
      shares[i].Vec.Coords[..])
  }

  lemma ValuesAppend(shares: seq<ShareVec>, s: ShareVec)
    ensures Values(shares + [s]) == Values(shares) + [s.Vec.Coords[..]]
  {
    var l, r := Values(shares + [s]), Values(shares) + [s.Vec.Coords[..]];
    forall k | 0 <= k < |l|
      ensures l[k] == r[k]
    {
      assert (shares + [s])[k] == if k < |shares| then shares[k] else s;
    }
  }

  /** Subtracting one more share from the negated running sum negates the extended sum. */
  lemma SubtractAccumulated(acc: seq<int>, v: seq<int>)
    requires |acc| == |v|
    ensures SubCoords(SubCoords(Zeros(|acc|), acc), v) == SubCoords(Zeros(|acc|), AddCoords(acc, v))
  {
  }

  /** A share around the given storage with modulus `p` and index 0. */
  method NewShareVec(coords: array<int>, p: int) returns (s: ShareVec)
    ensures fresh(s) && fresh(s.Vec)
    ensures s.Vec.Coords == coords && s.P == p && s.Index == 0
  {
    var v := new BigVec(coords);
    s := new ShareVec(v, p, 0);
  }

  /** The random part of `SecretShare`: `count` fresh shares with indices `0 .. count-1`, each
      drawn from `[0, p]`, and the fresh vector `sum` holding minus their sum. */
  method DrawShares(dim: nat, count: nat, p: int) returns (shares: seq<ShareVec>, sum: BigVec, ghost vals: seq<seq<int>>)
    requires p > 0
    ensures |shares| == count && |vals| == count
    ensures fresh(sum) && fresh(sum.Coords) && sum.Coords.Length == dim
    ensures forall k :: 0 <= k < count ==>
              fresh(shares[k]) && fresh(shares[k].Vec) && fresh(shares[k].Vec.Coords) &&
              shares[k].Index == k && shares[k].P == p && shares[k].Vec.Coords.Length == dim &&
              shares[k].Vec.Coords != sum.Coords
    ensures forall k, l :: 0 <= k < l < count ==> shares[k].Vec.Coords != shares[l].Vec.Coords
    ensures Values(shares) == vals
    ensures forall k :: 0 <= k < count ==> |vals[k]| == dim && forall x :: x in vals[k] ==> 0 <= x <= p
    ensures sum.Coords[..] == SubCoords(Zeros(dim), SumAll(vals, dim))
  {
    sum := NewBigZeroVec(dim);
    shares := [];
    vals := [];
    var i := 0;
    while i < count
      invariant 0 <= i <= count
      invariant |shares| == i && |vals| == i
      invariant fresh(sum) && fresh(sum.Coords) && sum.Coords.Length == dim
      invariant forall k :: 0 <= k < i ==>
                  fresh(shares[k]) && fresh(shares[k].Vec) && fresh(shares[k].Vec.Coords) &&
                  shares[k].Index == k && shares[k].P == p && shares[k].Vec.Coords.Length == dim &&
                  shares[k].Vec.Coords != sum.Coords
      invariant forall k, l :: 0 <= k < l < i ==> shares[k].Vec.Coords != shares[l].Vec.Coords
      invariant forall k :: 0 <= k < i ==> shares[k].Vec.Coords[..] == vals[k]
      invariant forall k :: 0 <= k < i ==> |vals[k]| == dim && forall x :: x in vals[k] ==> 0 <= x <= p
      invariant sum.Coords[..] == SubCoords(Zeros(dim), SumAll(vals, dim))
    {
      ghost var acc := SumAll(vals, dim);
      var v := NewBigRandomVec(dim, 0, p);
      var share := new ShareVec(v, p, i);
      var _ := sum.Sub(v);
      assert (vals + [v.Coords[..]])[..i] == vals;
      assert SumAll(vals + [v.Coords[..]], dim) == AddCoords(acc, v.Coords[..]);
      SubtractAccumulated(acc, v.Coords[..]);
      ghost var drawn, drawnShares := vals, shares;
      shares := shares + [share];
      vals := vals + [v.Coords[..]];
      forall k | 0 <= k < i + 1
        ensures fresh(shares[k]) && fresh(shares[k].Vec) && fresh(shares[k].Vec.Coords)
        ensures shares[k].Index == k && shares[k].P == p && shares[k].Vec.Coords.Length == dim
        ensures shares[k].Vec.Coords != sum.Coords && shares[k].Vec.Coords[..] == vals[k]
        ensures |vals[k]| == dim && forall x :: x in vals[k] ==> 0 <= x <= p
      {
        if k < i {
          assert shares[k] == drawnShares[k] && vals[k] == drawn[k];
        } else {
          assert shares[k] == share && vals[k] == v.Coords[..];
        }
      }
      forall k, l | 0 <= k < l < i + 1
        ensures shares[k].Vec.Coords != shares[l].Vec.Coords
      {
        assert shares[k] == drawnShares[k];
        if l < i {
          assert shares[l] == drawnShares[l];
        } else {
          assert shares[l] == share;
        }
      }
      i := i + 1;
    }
    forall k | 0 <= k < count
      ensures Values(shares)[k] == vals[k]
    {
      assert Values(shares)[k] == shares[k].Vec.Coords[..];
    }
  }

  /** Splits `a` into `numShares` shares modulo the prime `p`: shares `0 .. numShares-2` are
      drawn from `[0, p]`, the last is `(a - their sum) mod p`. `a` is not changed. The ghost
      `vals` are the shares' coordinates. */
  method SecretShare(a: BigVec, numShares: int, p: int) returns (shares: seq<ShareVec>, ghost vals: seq<seq<int>>)
    requires IsPrime(p) && numShares >= 1
    ensures |shares| == numShares
    ensures forall i :: 0 <= i < numShares ==>
              fresh(shares[i]) && fresh(shares[i].Vec) && fresh(shares[i].Vec.Coords) &&
              shares[i].Index == i && shares[i].P == p && shares[i].Vec.Coords.Length == a.Coords.Length
    ensures forall i, j :: 0 <= i < j < numShares ==> shares[i].Vec.Coords != shares[j].Vec.Coords
    ensures Values(shares) == vals
    ensures forall i :: 0 <= i < numShares ==>
              forall x :: x in vals[i] ==> 0 <= x <= p && (i == numShares - 1 ==> x < p)
    ensures vals[numShares - 1] ==
            ReduceCoords(AddCoords(SubCoords(Zeros(a.Coords.Length), SumAll(vals[..numShares - 1], a.Coords.Length)),
                                   a.Coords[..]), p)
    ensures IsSharing(vals, a.Coords[..], p)
  {
    var dim := a.Coords.Length;
    var sum;
    shares, sum, vals := DrawShares(dim, numShares - 1, p);

    // Adding `a` coordinate by coordinate into `sum`, which has `a`'s length, is `sum.Add(a)`.
    var _ := sum.Add(a);
    var _ := sum.Mod(p);
    var last := new ShareVec(sum, p, numShares - 1);
    ghost var drawn, drawnShares := vals, shares;
    assert (drawn + [sum.Coords[..]])[..numShares - 1] == drawn;
    ValuesAppend(shares, last);
    shares := shares + [last];
    vals := drawn + [sum.Coords[..]];
    forall i | 0 <= i < numShares
      ensures fresh(shares[i]) && fresh(shares[i].Vec) && fresh(shares[i].Vec.Coords)
      ensures shares[i].Index == i && shares[i].P == p && shares[i].Vec.Coords.Length == dim
      ensures forall x :: x in vals[i] ==> 0 <= x <= p && (i == numShares - 1 ==> x < p)
    {
      if i < numShares - 1 {
        assert shares[i] == drawnShares[i] && vals[i] == drawn[i];
      } else {
        assert shares[i] == last && vals[i] == sum.Coords[..];
      }
    }
    forall i, j | 0 <= i < j < numShares
      ensures shares[i].Vec.Coords != shares[j].Vec.Coords
    {
      assert shares[i] == drawnShares[i];
      if j < numShares - 1 {
        assert shares[j] == drawnShares[j];
      } else {
        assert shares[j] == last;
      }
    }
    LastShareCompletesSharing(vals, a.Coords[..], p);
  }

  /** Sums the shares into a fresh vector, reduces the sum modulo the first share's modulus
      and decodes it to signed integers. No share is changed. Fails if some share's length
      differs from the first share's. */
  method RecoverVector(shares: seq<ShareVec>) returns (r: Result<BigVec>)
    requires |shares| >= 1
    requires (&& shares[0].Vec.Coords.Length > 0
              && forall i :: 0 <= i < |shares| ==> shares[i].Vec.Coords.Length == shares[0].Vec.Coords.Length)
             ==> shares[0].P != 0
    ensures r.Err? <==> exists i :: 0 <= i < |shares| && shares[i].Vec.Coords.Length != shares[0].Vec.Coords.Length
    ensures r.Err? ==> r.error == DimensionMismatch
    ensures r.Ok? ==> fresh(r.value) && fresh(r.value.Coords) &&
                      r.value.Coords[..] == RecoverCoords(Values(shares), shares[0].P)
  {
    var dim := shares[0].Vec.Coords.Length;
    var p := shares[0].P;
    var res := NewBigZeroVec(dim);
    ghost var vals := Values(shares);
    assert forall k :: 0 <= k < |shares| ==> |vals[k]| == shares[k].Vec.Coords.Length;
    var i := 0;
    while i < |shares|
      invariant 0 <= i <= |shares|
      invariant fresh(res) && fresh(res.Coords) && res.Coords.Length == dim
      invariant forall k :: 0 <= k < i ==> |vals[k]| == dim
      invariant res.Coords[..] == SumAll(vals[..i], dim)
    {
      var added := res.Add(shares[i].Vec);
      if added.Err? {
        return Err(added.error);
      }
      assert vals[..i + 1][..i] == vals[..i];
      i := i + 1;
    }
    assert vals[..i] == vals;
    var _ := res.Mod(p);
    var decoded := res.DecodeSignedValues(p);
    assert Values(shares) == vals;
    return Ok(decoded);
  }

  /** The source's `RecoverInt`: sums the scalar shares and subtracts `p` once if the sum
      exceeds `p / 2`, without reducing the sum modulo `p` first. */
  method RecoverInt(p: int, shares: seq<int>) returns (r: int)
    ensures r == ThresholdDecode(Sum(shares), p)
  {
    r := 0;
    for i := 0 to |shares|
      invariant r == Sum(shares[..i])
    {
      assert shares[..i + 1][..i] == shares[..i];
      r := r + shares[i];
    }
    assert shares[..|shares|] == shares;
    var negThresh := NegThreshold(p);
    if r > negThresh {
      r := r - p;
    }
  }

  /** `RecoverInt` with the sum reduced modulo `p` before the sign is decoded. */
  method RecoverIntReduced(p: int, shares: seq<int>) returns (r: int)
    requires p != 0
    ensures r == DecodeSigned(Sum(shares), p)
  {
    r := 0;
    for i := 0 to |shares|
      invariant r == Sum(shares[..i])
    {
      assert shares[..i + 1][..i] == shares[..i];
      r := r + shares[i];
    }
    assert shares[..|shares|] == shares;
    r := r % p;
    var negThresh := NegThreshold(p);
    if r > negThresh {
      r := r - p;
    }
  }
}
