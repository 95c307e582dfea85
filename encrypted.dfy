/** Vectors of Paillier ciphertexts (`EncryptedVec`): elementwise encryption, homomorphic
    addition and subtraction, the encrypted dot product with a public vector, and the in-place
    Fisher-Yates shuffle of a ciphertext slice. The Paillier library is not part of this model:
    its operations are arbitrary functions carried by the public key, and what decryption does
    with them is a hypothesis (`Homomorphic`) that the lemmas take as a premise. */
module EncryptedVectors {
  import opened Errors
  import opened ModArith
  import opened BigVectors

  /** A Paillier ciphertext; its value is never interpreted here. */
  datatype Ciphertext = Ciphertext(C: int)

  /** A Paillier public key: the plaintext modulus `N` and the library's operations on it.
      `Encrypt` and `EncryptZero` stand for one fixed outcome of the library's randomised
      encryption. */
  datatype PublicKey = PublicKey(
    N: int,
    Encrypt: int -> Ciphertext,
    Add: (Ciphertext, Ciphertext) -> Ciphertext,
    Sub: (Ciphertext, Ciphertext) -> Ciphertext,
    ConstMult: (Ciphertext, int) -> Ciphertext,
    EncryptZero: Ciphertext)

  /** `dec` decrypts the ciphertexts of `pk` the way Paillier does: into `Z_N`, with
      addition, subtraction and multiplication by a constant carried over modulo `N`. */
  ghost predicate Homomorphic(pk: PublicKey, dec: Ciphertext -> int) {
    && pk.N > 0
    && dec(pk.EncryptZero) == 0
    && (forall m :: dec(pk.Encrypt(m)) == m % pk.N)
    && (forall c, d :: dec(pk.Add(c, d)) == (dec(c) + dec(d)) % pk.N)
    && (forall c, d :: dec(pk.Sub(c, d)) == (dec(c) - dec(d)) % pk.N)
    && (forall c, k :: dec(pk.ConstMult(c, k)) == (dec(c) * k) % pk.N)
  }

  // ---------------------------------------------------------------------------------------
  // The operations on sequences of ciphertexts.
  // ---------------------------------------------------------------------------------------

  function EncryptCoords(pk: PublicKey, a: seq<int>): (cs: seq<Ciphertext>)
    ensures |cs| == |a|
  {
    seq(|a|, i requires 0 <= i < |a| => pk.Encrypt(a[i]))
  }

  function AddCiphertexts(pk: PublicKey, a: seq<Ciphertext>, b: seq<Ciphertext>): (cs: seq<Ciphertext>)
    requires |a| == |b|
    ensures |cs| == |a|
  {
    seq(|a|, i requires 0 <= i < |a| => pk.Add(a[i], b[i]))
  }

  function SubCiphertexts(pk: PublicKey, a: seq<Ciphertext>, b: seq<Ciphertext>): (cs: seq<Ciphertext>)
    requires |a| == |b|
    ensures |cs| == |a|
  {
    seq(|a|, i requires 0 <= i < |a| => pk.Sub(a[i], b[i]))
  }

  /** The encrypted dot product as the source folds it: from `EncryptZero`, add
      `ConstMult(cs[i], b[i])` for `i = 0, 1, ...` in order. */
  function DotFold(pk: PublicKey, cs: seq<Ciphertext>, b: seq<int>): Ciphertext
    requires |cs| == |b|
    decreases |cs|
  {
    if |cs| == 0 then pk.EncryptZero
    else
      var n := |cs| - 1;
      pk.Add(DotFold(pk, cs[..n], b[..n]), pk.ConstMult(cs[n], b[n]))
  }

  function DecryptCoords(dec: Ciphertext -> int, cs: seq<Ciphertext>): (m: seq<int>)
    ensures |m| == |cs|
  {
    seq(|cs|, i requires 0 <= i < |cs| => dec(cs[i]))
  }

  // ---------------------------------------------------------------------------------------
  // What the ciphertext operations decrypt to.
  // ---------------------------------------------------------------------------------------

  /** Encrypting coordinatewise and decrypting gives the plaintext reduced modulo `N`. */
  lemma EncryptDecrypts(pk: PublicKey, dec: Ciphertext -> int, a: seq<int>)
    requires Homomorphic(pk, dec)
    ensures DecryptCoords(dec, EncryptCoords(pk, a)) == ReduceCoords(a, pk.N)
  {
  }

  /** Encrypting, decrypting and decoding the sign gives back the plaintext exactly when every
      coordinate is in the signed range of `Z_N`. */
  lemma EncryptRoundTrip(pk: PublicKey, dec: Ciphertext -> int, a: seq<int>)
    requires Homomorphic(pk, dec)
    ensures DecodeCoords(DecryptCoords(dec, EncryptCoords(pk, a)), pk.N) == a <==>
            forall i :: 0 <= i < |a| ==> InSignedRange(a[i], pk.N)
  {
    EncryptDecrypts(pk, dec, a);
    DecodeReduceRoundTrip(a, pk.N);
  }

  /** Adding ciphertexts coordinatewise adds the plaintexts modulo `N`. */
  lemma AddDecrypts(pk: PublicKey, dec: Ciphertext -> int, a: seq<Ciphertext>, b: seq<Ciphertext>)
    requires Homomorphic(pk, dec) && |a| == |b|
    ensures DecryptCoords(dec, AddCiphertexts(pk, a, b)) ==
            ReduceCoords(AddCoords(DecryptCoords(dec, a), DecryptCoords(dec, b)), pk.N)
  {
  }

  /** Subtracting ciphertexts coordinatewise subtracts the plaintexts modulo `N`. */
  lemma SubDecrypts(pk: PublicKey, dec: Ciphertext -> int, a: seq<Ciphertext>, b: seq<Ciphertext>)
    requires Homomorphic(pk, dec) && |a| == |b|
    ensures DecryptCoords(dec, SubCiphertexts(pk, a, b)) ==
            ReduceCoords(SubCoords(DecryptCoords(dec, a), DecryptCoords(dec, b)), pk.N)
  {
  }

  /** The fold of `Dot` decrypts to the dot product of the decrypted coordinates with `b`,
      modulo `N`. */
  lemma {:induction false} DotFoldDecrypts(pk: PublicKey, dec: Ciphertext -> int, cs: seq<Ciphertext>, b: seq<int>)
    requires Homomorphic(pk, dec) && |cs| == |b|
    ensures dec(DotFold(pk, cs, b)) == DotProduct(DecryptCoords(dec, cs), b) % pk.N
    decreases |cs|
  {
    var p := pk.N;
    if |cs| > 0 {
      var n := |cs| - 1;
      DotFoldDecrypts(pk, dec, cs[..n], b[..n]);
      var m := DecryptCoords(dec, cs);
      assert DecryptCoords(dec, cs[..n]) == m[..n];
      var prev, scaled := DotFold(pk, cs[..n], b[..n]), pk.ConstMult(cs[n], b[n]);
      var prefix, x, y := DotProduct(m[..n], b[..n]), m[n], b[n];
      var term := x * y;
      assert DotProduct(m, b) == prefix + term;
      assert dec(prev) == prefix % p;
      assert dec(scaled) == term % p;
      assert dec(DotFold(pk, cs, b)) == (dec(prev) + dec(scaled)) % p;
      ModAdd(prefix, term, p);
    }
  }

  /** The encrypted dot product of an encrypted vector with a public vector decrypts to the
      plaintext dot product modulo `N`. */
  lemma EncryptedDotDecrypts(pk: PublicKey, dec: Ciphertext -> int, a: seq<int>, b: seq<int>)
    requires Homomorphic(pk, dec) && |a| == |b|
    ensures dec(DotFold(pk, EncryptCoords(pk, a), b)) == DotProduct(a, b) % pk.N
  {
    DotFoldDecrypts(pk, dec, EncryptCoords(pk, a), b);
    EncryptDecrypts(pk, dec, a);
    var m := DecryptCoords(dec, EncryptCoords(pk, a));
    forall i | 0 <= i < |a|
      ensures m[i] % pk.N == a[i] % pk.N
    {
      ModMod(a[i], pk.N);
    }
    DotProductCongruent(m, a, b, pk.N);
  }

  // ---------------------------------------------------------------------------------------
  // The shuffle.
  // ---------------------------------------------------------------------------------------

  function Swap(s: seq<Ciphertext>, i: int, j: int): (r: seq<Ciphertext>)
    requires 0 <= i < |s| && 0 <= j < |s|
    ensures |r| == |s|
  {
    s[i := s[j]][j := s[i]]
  }

  /** Valid random choices for shuffling a slice of length `len`: `picks[k]` is the index
      drawn from `[0, len - k)` in iteration `k`. */
  predicate ValidPicks(len: nat, picks: seq<int>) {
    |picks| <= len && forall k :: 0 <= k < |picks| ==> 0 <= picks[k] < len - k
  }

  /** The slice after the iterations of the shuffle that drew `picks`: iteration `k` swaps the
      last position of the window `[0, |s| - k)` with `picks[k]`. */
  function ShuffleBy(s: seq<Ciphertext>, picks: seq<int>): (r: seq<Ciphertext>)
    requires ValidPicks(|s|, picks)
    ensures |r| == |s|
    decreases |picks|
  {
    if |picks| == 0 then s
    else
      var k := |picks| - 1;
      Swap(ShuffleBy(s, picks[..k]), |s| - 1 - k, picks[k])
  }

  /** One more iteration: drawing `r` from the current window swaps its last position with `r`. */
  lemma ShuffleStep(s: seq<Ciphertext>, picks: seq<int>, r: int)
    requires ValidPicks(|s|, picks) && |picks| < |s| && 0 <= r < |s| - |picks|
    ensures ValidPicks(|s|, picks + [r])
    ensures ShuffleBy(s, picks + [r]) == Swap(ShuffleBy(s, picks), |s| - 1 - |picks|, r)
  {
    var drawn := picks + [r];
    assert drawn[..|picks|] == picks;
    forall k | 0 <= k < |drawn|
      ensures 0 <= drawn[k] < |s| - k
    {
      if k < |picks| {
        assert drawn[k] == picks[k];
      }
    }
  }

  /** Whatever indices are drawn, the shuffle permutes the slice. */
  lemma {:induction false} ShuffleByPermutes(s: seq<Ciphertext>, picks: seq<int>)
    requires ValidPicks(|s|, picks)
    ensures multiset(ShuffleBy(s, picks)) == multiset(s)
    decreases |picks|
  {
    if |picks| > 0 {
      var k := |picks| - 1;
      ShuffleByPermutes(s, picks[..k]);
    }
  }

  /** Once an iteration has shrunk the window past a position, later iterations never
      change it: the positions `[|s| - |picks|, |s|)` are final as soon as `picks` are drawn. */
  lemma {:induction false} ShuffleByFixesSuffix(s: seq<Ciphertext>, picks: seq<int>, more: seq<int>)
    requires ValidPicks(|s|, picks + more)
    ensures ValidPicks(|s|, picks)
    ensures ShuffleBy(s, picks + more)[|s| - |picks|..] == ShuffleBy(s, picks)[|s| - |picks|..]
    decreases |more|
  {
    assert (picks + more)[..|picks|] == picks;
    if |more| > 0 {
      var m := |more| - 1;
      var shorter := picks + more[..m];
      assert (picks + more)[..|picks| + m] == shorter;
      assert shorter + [more[m]] == picks + more;
      ShuffleByFixesSuffix(s, picks, more[..m]);
      var t := ShuffleBy(s, shorter);
      assert ShuffleBy(s, picks + more) == Swap(t, |s| - 1 - |shorter|, more[m]);
      SwapKeepsSuffix(t, |s| - 1 - |shorter|, more[m], |s| - |picks|);
    } else {
      assert picks + more == picks;
    }
  }

  lemma SwapKeepsSuffix(t: seq<Ciphertext>, i: int, j: int, lo: int)
    requires 0 <= i < lo <= |t| && 0 <= j < lo
    ensures Swap(t, i, j)[lo..] == t[lo..]
  {
  }

  // ---------------------------------------------------------------------------------------
  // The vector object.
  // ---------------------------------------------------------------------------------------

  class EncryptedVec {
    var Pk: PublicKey
    var Coords: array<Ciphertext>

    /** Wraps the given key and ciphertext storage, without copying. */
    constructor (pk: PublicKey, coords: array<Ciphertext>)
      ensures Pk == pk && Coords == coords
    {
      Pk, Coords := pk, coords;
    }

    function GetCoords(): array<Ciphertext>
      reads this
    {
      Coords
    }

    method SetCoords(v: array<Ciphertext>)
      modifies this
      ensures Coords == v && Pk == old(Pk)
    {
      Coords := v;
    }

    function GetCoord(i: int): Ciphertext
      requires 0 <= i < Coords.Length
      reads this, Coords
    {
      Coords[i]
    }

    function Size(): nat
      reads this
    {
      Coords.Length
    }

    /** Adds `b` coordinatewise under this vector's key, into fresh storage. */
    method Add(b: EncryptedVec) returns (r: Result<EncryptedVec>)
      ensures Coords.Length != b.Coords.Length ==> r == Err(DimensionMismatch)
      ensures Coords.Length == b.Coords.Length ==>
                r.Ok? && fresh(r.value) && fresh(r.value.Coords) && r.value.Pk == Pk &&
                r.value.Coords[..] == AddCiphertexts(Pk, Coords[..], b.Coords[..])
    {
      if Coords.Length != b.Coords.Length {
        return Err(DimensionMismatch);
      }
      var pk := Pk;
      var res := new Ciphertext[Coords.Length];
      for i := 0 to Coords.Length
        invariant forall k :: 0 <= k < i ==> res[k] == pk.Add(Coords[k], b.Coords[k])
      {
        res[i] := pk.Add(Coords[i], b.Coords[i]);
      }
      var v := new EncryptedVec(pk, res);
      return Ok(v);
    }

    /** Subtracts `b` coordinatewise under this vector's key, into fresh storage. */
    method Sub(b: EncryptedVec) returns (r: Result<EncryptedVec>)
      ensures Coords.Length != b.Coords.Length ==> r == Err(DimensionMismatch)
      ensures Coords.Length == b.Coords.Length ==>
                r.Ok? && fresh(r.value) && fresh(r.value.Coords) && r.value.Pk == Pk &&
                r.value.Coords[..] == SubCiphertexts(Pk, Coords[..], b.Coords[..])
    {
      if Coords.Length != b.Coords.Length {
        return Err(DimensionMismatch);
      }
      var pk := Pk;
      var res := new Ciphertext[Coords.Length];
      for i := 0 to Coords.Length
        invariant forall k :: 0 <= k < i ==> res[k] == pk.Sub(Coords[k], b.Coords[k])
      {
        res[i] := pk.Sub(Coords[i], b.Coords[i]);
      }
      var v := new EncryptedVec(pk, res);
      return Ok(v);
    }

    /** The encrypted dot product with the public vector `b`, under the key `pk` passed in
        (not this vector's own key). */
    method Dot(b: BigVec, pk: PublicKey) returns (r: Result<Ciphertext>)
      ensures Coords.Length != b.Coords.Length ==> r == Err(DimensionMismatch)
      ensures Coords.Length == b.Coords.Length ==> r == Ok(DotFold(pk, Coords[..], b.Coords[..]))
    {
      if Coords.Length != b.Coords.Length {
        return Err(DimensionMismatch);
      }
      var res := pk.EncryptZero;
      var i := 0;
      while i < Coords.Length
        invariant 0 <= i <= Coords.Length
        invariant res == DotFold(pk, Coords[..i], b.Coords[..i])
      {
        assert Coords[..i + 1][..i] == Coords[..i];
        assert b.Coords[..i + 1][..i] == b.Coords[..i];
        res := pk.Add(res, pk.ConstMult(Coords[i], b.Coords[i]));
        i := i + 1;
      }
      assert Coords[..i] == Coords[..] && b.Coords[..i] == b.Coords[..];
      return Ok(res);
    }
  }

  /** Encrypts `a` coordinatewise under `pk` into a fresh vector; `a` is not changed. */
  method Encrypt(a: BigVec, pk: PublicKey) returns (r: EncryptedVec)
    ensures fresh(r) && fresh(r.Coords)
    ensures r.Pk == pk && r.Coords[..] == EncryptCoords(pk, a.Coords[..])
  {
    var encrypted := new Ciphertext[a.Coords.Length];
    for i := 0 to a.Coords.Length
      invariant forall k :: 0 <= k < i ==> encrypted[k] == pk.Encrypt(a.Coords[k])
    {
      encrypted[i] := pk.Encrypt(a.Coords[i]);
    }
    r := new EncryptedVec(pk, encrypted);
  }

  /** Shuffles `vals` in place: while the window `[0, n)` is not empty, swap its last element
      with one drawn from it and shrink it by one. The ghost `picks` are the indices drawn. */
  method Shuffle(vals: array<Ciphertext>) returns (ghost picks: seq<int>)
    modifies vals
    ensures ValidPicks(vals.Length, picks) && |picks| == vals.Length
    ensures vals[..] == ShuffleBy(old(vals[..]), picks)
    ensures multiset(vals[..]) == multiset(old(vals[..]))
  {
    ghost var s := vals[..];
    picks := [];
    var n := vals.Length;
    while n > 0
      invariant 0 <= n <= vals.Length
      invariant ValidPicks(vals.Length, picks) && |picks| == vals.Length - n
      invariant vals[..] == ShuffleBy(s, picks)
      decreases n
    {
      var randIndex :| 0 <= randIndex < n;
      ghost var before := vals[..];
      vals[n - 1], vals[randIndex] := vals[randIndex], vals[n - 1];
      assert vals[..] == Swap(before, n - 1, randIndex);
      ShuffleStep(s, picks, randIndex);
      picks := picks + [randIndex];
      n := n - 1;
    }
    ShuffleByPermutes(s, picks);
  }
}
