# Verified model of the `vec` package: field vectors, secret sharing, encrypted vectors

This project is a Dafny model of the core of the Go package `vec`, which provides exact-integer
vector arithmetic for multiparty computation. The core has three layers:

- **`BigVec`** (`bigvec.dfy`, module `BigVectors`): a vector of arbitrary-precision integers.
  - `Add`, `Sub` and `Mul` change the receiver in place and return it. They reject vectors of
    unequal length.
  - `Dot` computes the dot product.
  - `Mod` reduces every coordinate into `[0, n)`.
  - `DecodeSignedValues` maps residues of `Z_n` back to the signed integers `(-n/2, n/2]`.
  - The module also has `Equal`, `Clone`, and the zero and bounded-random constructors.
  - `BigVec` is a class whose `Coords` field is an `array<int>`. The slice storage the Go code
    shares between vectors is therefore modelled as array aliasing. `Add`, `Sub` and `Mul`
    are proved correct even when both operands share one array.
- **`ShareVec`** (`secretshared.dfy`, module `SecretShares`): additive k-out-of-k secret
  sharing over a prime field `Z_p`.
  - `SecretShare` draws `k-1` random shares and sets the last one to `(a - their sum) mod p`.
  - `RecoverVector` and `RecoverInt` sum the shares and decode the sign.
  - Each party applies `Add`, `Sub`, `Mul` and `Dot` to its own share.
  - The model proves that the shares sum to the secret modulo `p`, that recovery round-trips,
    and that every local operation is a homomorphism.
- **`EncryptedVec`** (`encrypted.dfy`, module `EncryptedVectors`): a vector of Paillier
  ciphertexts.
  - There are coordinatewise `Encrypt`, `Add` and `Sub`, and `Dot` against a public vector,
    which folds from `EncryptZero`.
  - `shuffle` is an in-place Fisher-Yates shuffle.
  - The Paillier library is not modelled. A `PublicKey` carries its operations as arbitrary
    functions.
  - What decryption does with those operations is the predicate `Homomorphic(pk, dec)`. Every
    lemma about decryption takes it as a hypothesis, so the model contains no axiom.

`errors.dfy` (module `Errors`) holds the error values `DimensionMismatch` and `IndexMismatch`
and a `Result` type; the Go code returns these errors as `error` values. `modarith.dfy`
(module `ModArith`) holds facts about Euclidean remainder and about integer sums.

Modelling conventions:

- **Integers.** Coordinates are unbounded Dafny `int`s, like gmp's integers.
- **Remainder.** gmp's `Mod` is the Euclidean remainder, which lies in `[0, |n|)`. That is
  Dafny's `%`. The source's "add `n` if negative" correction in `Mod` is therefore never
  applied; the model keeps the branch.
- **Halving.** gmp's `Quo(n, 2)` truncates toward zero; it is `NegThreshold`.
- **Panics.** Where Go would panic the model has a precondition, and nowhere else:
  - a remainder by a zero modulus, which happens only when a coordinate is actually reduced;
    an empty vector with modulus 0 is accepted, as in Go, and `ShareVec.Dot` always reduces;
  - `NewBigRandomVec`'s range check;
  - the primality check in `SecretShare`;
  - `numShares >= 1` in `SecretShare`, because Go's `make` rejects a negative count and
    `shares[numShares-1]` fails for 0;
  - reading `shares[0]` of an empty list in `RecoverVector`;
  - an index outside the vector in `BigVec.Coord` and `EncryptedVec.GetCoord`, whose
    precondition is the index bound.
- **Randomness.** Random draws are arbitrary choices in the stated range. Primality is the
  exact predicate `IsPrime`. `NoDivisorBelow` defines it by recursion, and `IsPrimeIff`
  equates it with the textbook definition.
- **Getters.** The getters `Size`, `Coord`, `GetCoords`, `GetCoord` and `FieldModulus` are
  functions that read the fields. They have no postcondition, so they have no row below.

Behaviour of the code that the model keeps:

- **Share range.** `SecretShare` draws the non-final shares from the inclusive range
  `[0, p]`, because `NewBigRandomVec(dim, 0, p)` includes its upper bound.
- **Mutation before the error.** `ShareVec.Add` and `ShareVec.Sub` update the receiver's
  vector before they check the share indices. An index mismatch is therefore reported after
  the receiver has been changed.
- **Moduli.** `RecoverVector` does not check that the shares carry the same modulus. It uses
  the first share's.
- **Key for `Dot`.** `EncryptedVec.Dot` uses the key passed to it, not the vector's own key.

## Model

| member | source | states |
|---|---|---|
| BigVectors.BigVec.constructor | bigvec.go:17-21 | the vector wraps the given storage without copying it |
| BigVectors.NewBigZeroVec | bigvec.go:41-49 | a fresh vector of length `dim`, every coordinate 0; empty when `dim` is not positive |
| BigVectors.NewBigRandomVec | bigvec.go:52-75 | requires `min < max` and `max > 0`, which the source panics without; a fresh vector of length `dim` whose every coordinate lies in the inclusive range `[min, max]` |
| BigVectors.BigVec.Dot | bigvec.go:78-91 | a length mismatch is an error; otherwise the result is the sum of `a[i]*b[i]`; neither vector changes |
| BigVectors.BigVec.Add | bigvec.go:104-115 | a length mismatch is an error and leaves the receiver unchanged; otherwise the receiver becomes `old a[i] + old b[i]` and is returned, and `b` is unchanged unless it shares the receiver's storage |
| BigVectors.BigVec.Sub | bigvec.go:118-129 | as `Add`, with `old a[i] - old b[i]` |
| BigVectors.BigVec.Mul | bigvec.go:132-143 | as `Add`, with `old a[i] * old b[i]` |
| BigVectors.BigVec.Mod | bigvec.go:146-157 | requires `n != 0` when the vector is non-empty; the receiver is returned; every coordinate lies in `[0, abs(n))` and is congruent to its old value modulo `n` |
| BigVectors.ReduceIdempotent | bigvec.go:146-157 | reducing modulo `n` twice is reducing once |
| BigVectors.BigVec.DecodeSignedValues | bigvec.go:161-175 | requires `n != 0` when the vector is non-empty; a fresh vector whose coordinates are the balanced decodings of the old coordinates; the receiver is reduced modulo `n` in place |
| BigVectors.DecodeSignedIsRepresentative | bigvec.go:161-175 | a decoded value lies in `(-n/2, n/2]` and is congruent to the input modulo `n` |
| BigVectors.DecodeSignedRoundTrip | bigvec.go:161-175 | decoding returns `x` itself if and only if `x` lies in `(-n/2, n/2]`, for every modulus `n > 0` |
| BigVectors.SignedRepresentativeUnique | bigvec.go:161-175 | two values in `(-n/2, n/2]` with the same residue are equal |
| BigVectors.DecodeReduceRoundTrip | bigvec_test.go:161-174 | decoding the reduced vector gives back the vector if and only if every coordinate lies in `(-n/2, n/2]` |
| BigVectors.BigVec.Equal | bigvec.go:178-193 | true if and only if both vectors have the same length and the same coordinates |
| BigVectors.BigVec.Clone | bigvec.go:196-204 | a vector equal to the receiver, in fresh storage |
| BigVectors.DotProductAddLeft | bigvec.go:78-91 | the dot product is additive in its left operand |
| BigVectors.DotProductCongruent | bigvec.go:78-91 | left operands congruent modulo `p` coordinatewise have dot products congruent modulo `p` |
| SecretShares.IsPrimeIff | secretshared.go:19-22 | the primality predicate the sharing requires holds if and only if `p > 1` and no integer strictly between 1 and `p` divides `p` |
| SecretShares.ShareVec.constructor | secretshared.go:10-14 | a share holds its vector, modulus and index as given |
| SecretShares.NewShareVec | secretshared.go:54-59 | a fresh share around the given storage with modulus `p` and index 0 |
| SecretShares.ShareVec.SetCoords | secretshared.go:67-70 | requires a non-zero modulus when `v` is non-empty; `v` is reduced modulo the share's modulus in place and becomes the share's vector |
| SecretShares.DrawShares | secretshared.go:26-35 | `count` fresh shares in distinct storage, with indices `0..count-1` and modulus `p`, coordinates in `[0, p]`, and an accumulator holding minus their sum |
| SecretShares.SecretShare | secretshared.go:17-51 | requires `p` prime and at least one share; exactly `numShares` fresh shares with `Index = i` and modulus `p`; the non-final shares in `[0, p]` and the last in `[0, p)`; the last is `(a - sum of the others) mod p`; together they share `a` modulo `p` |
| SecretShares.LastShareCompletesSharing | secretshared.go:38-48 | whatever the other shares are, the last share computed this way makes all the shares sum to `a` modulo `p` |
| SecretShares.RecoverVector | secretshared.go:73-89 | requires at least one share, and a non-zero modulus in the first share when the shares are non-empty and of equal length; an error exactly when some share's length differs from the first share's; otherwise a fresh vector holding the sum of the shares, reduced modulo the first share's modulus and decoded |
| SecretShares.ShareRoundTrip | secretshared.go:73-89 | recovering from a sharing of `a` gives `a` if and only if every coordinate of `a` lies in `(-p/2, p/2]` |
| SecretShares.ShareVec.Add | secretshared.go:114-127 | requires a non-zero modulus only on the success path with a non-empty vector; a length mismatch is an error and changes nothing; an index mismatch is an error after the receiver's vector has become the plain sum; otherwise a new share with the receiver's vector, index and modulus, whose coordinates are the sum reduced modulo `p` |
| SecretShares.ShareVec.Sub | secretshared.go:131-145 | as `Add` (including its requires), with the difference |
| SecretShares.ShareVec.Mul | secretshared.go:149-159 | requires a non-zero modulus when the lengths match and the vector is non-empty; a length mismatch is an error and changes nothing; otherwise a new share around the receiver's vector holding the elementwise product with the public vector, reduced modulo `p` |
| SecretShares.ShareVec.Dot | secretshared.go:163-178 | requires a non-zero modulus when the lengths match, since the sum is always reduced; a length mismatch is an error; otherwise the dot product with the public vector, reduced modulo `p` |
| SecretShares.LocalAddHomomorphic | secretshared.go:114-127 | adding the parties' shares of `a` and of `b` locally gives a sharing of `a + b` |
| SecretShares.LocalSubHomomorphic | secretshared.go:131-145 | subtracting the parties' shares locally gives a sharing of `a - b` |
| SecretShares.LocalMulHomomorphic | secretshared.go:149-159 | multiplying every share by the same public vector gives a sharing of the elementwise product |
| SecretShares.LocalDotShares | secretshared.go:163-178 | the parties' local dot shares sum to the dot product of the secret with the public vector, modulo `p` |
| SecretShares.RecoverInt | secretshared.go:92-105 | the sum of the scalar shares, minus `p` once if it exceeds `p/2`, with no reduction modulo `p` |
| SecretShares.ThresholdDecodeCorrectIff | secretshared.go:92-105 | for a non-negative sum `s` congruent to a value `v` in `(-p/2, p/2]`, subtracting `p` at most once yields `v` if and only if `s <= p + p/2` |
| SecretShares.LocalDotRecoversAsWritten | secretshared.go:92-105 | when the dot product lies in `(-p/2, p/2]`, `RecoverInt` over the parties' dot shares yields it if and only if the sum of the shares is at most `p + p/2` |
| SecretShares.RecoverIntSkipsReduction | secretshared.go:92-105 | a two-share sharing that `SecretShare` can produce (`p = 7`, `a = [-2]`, shares `[6]`, `[6]`) on which `RecoverInt` of the dot shares with `b = [1]` gives 5 instead of -2 |
| SecretShares.RecoverIntReduced | secretshared.go:92-105 | the sum of the scalar shares reduced modulo `p`, then decoded into `(-p/2, p/2]` |
| SecretShares.LocalDotRecovers | secretshared.go:163-178 | recovering the dot shares with the reduction yields the dot product if and only if it lies in `(-p/2, p/2]` |
| EncryptedVectors.EncryptedVec.constructor | encrypted.go:23-36 | the vector holds the given key and ciphertext storage, without copying |
| EncryptedVectors.EncryptedVec.SetCoords | encrypted.go:58-60 | the coordinates are replaced by `v`; the key is unchanged |
| EncryptedVectors.Encrypt | encrypted.go:39-50 | a fresh vector with key `pk` whose coordinate `i` is `pk.Encrypt(a[i])` |
| EncryptedVectors.EncryptDecrypts | encrypted.go:39-50 | under the homomorphism hypothesis, decrypting the encryption gives the plaintext reduced modulo `N` |
| EncryptedVectors.EncryptRoundTrip | encrypted.go:39-50 | under the homomorphism hypothesis, encrypting, decrypting and decoding the sign gives back the plaintext if and only if every coordinate lies in `(-N/2, N/2]` |
| EncryptedVectors.EncryptedVec.Add | encrypted.go:74-91 | a length mismatch is an error; otherwise a fresh vector with the receiver's key whose coordinate `i` is `Pk.Add(a[i], b[i])`; neither input changes |
| EncryptedVectors.AddDecrypts | encrypted.go:74-91 | under the homomorphism hypothesis, the coordinatewise ciphertext sum decrypts to the plaintext sum modulo `N` |
| EncryptedVectors.EncryptedVec.Sub | encrypted.go:95-112 | as `Add`, with `Pk.Sub` |
| EncryptedVectors.SubDecrypts | encrypted.go:95-112 | under the homomorphism hypothesis, the coordinatewise ciphertext difference decrypts to the plaintext difference modulo `N` |
| EncryptedVectors.EncryptedVec.Dot | encrypted.go:116-128 | a length mismatch is an error; otherwise the left fold that starts from `EncryptZero` and adds `ConstMult(a[i], b[i])` for `i = 0..n-1`, under the key passed in |
| EncryptedVectors.DotFoldDecrypts | encrypted.go:122-127 | under the homomorphism hypothesis, the fold decrypts to the dot product of the decrypted coordinates with `b`, modulo `N` |
| EncryptedVectors.EncryptedDotDecrypts | encrypted.go:116-128 | under the homomorphism hypothesis, the encrypted dot product of an encrypted vector decrypts to the plaintext dot product modulo `N` |
| EncryptedVectors.Shuffle | encrypted.go:130-138 | the slice is permuted in place; its final contents are the result of the swaps with the indices drawn, each drawn from the current window |
| EncryptedVectors.ShuffleByPermutes | encrypted.go:132-137 | whatever indices are drawn, the swaps preserve the multiset of elements |
| EncryptedVectors.ShuffleByFixesSuffix | encrypted.go:132-137 | once the window has shrunk past a position, later iterations never change that position |

## Left out

- `vector.go` is not part of this model. It is float64 arithmetic with a non-cryptographic
  random source.
- `ToBigVec` (bigvec.go:24-38) is left out. It converts through `big.Float`, and the model has
  no floating point.
- The gmp byte-level conversions (`Bytes`/`SetBytes` with sign fix-ups) in `NewBigRandomVec` are
  treated as exact integer identities.
- BigVectors.NewBigRandomVec: draws an arbitrary value in the range. The distribution of
  `crypto/rand` is not modelled.
- SecretShares.IsPrimeIff: states exact primality. `ProbablyPrime(20)` is a probabilistic test
  and can accept a composite with small probability.
- Go stores pointers to individual gmp integers in a slice. The model keeps one integer per
  array cell, so two slices that share one `*gmp.Int` without sharing the slice are not
  modelled.
- The Paillier library (key generation, encryption, decryption, the ciphertext arithmetic
  modulo `N^2`) is not part of this model. Its operations are arbitrary functions of the key,
  and their decryption behaviour is a hypothesis, not a proved fact.
- EncryptedVectors.Encrypt: Paillier encryption is randomised. The model fixes one outcome per
  plaintext, so equal plaintexts encrypt to equal ciphertexts here.
- `newCryptoRandom` (encrypted.go:141-150) is left out. It wraps `crypto/rand` and only logs
  its error.
- EncryptedVectors.Shuffle: the time-seeded generator is left out. The index is an arbitrary
  choice in `[0, n)`, so the model says nothing about the uniformity of the permutation.
- `SecretShare` adds `a` into the accumulator through a coordinate loop. The model performs this
  step with `BigVec.Add`, which has the same effect on vectors of equal length.
- SecretShares.SecretShare and SecretShares.DrawShares: they return the share coordinates as a
  ghost sequence, beside the shares, so that their contracts can speak of them.
- The test `TestMod` (bigvec_test.go:176-197) compares a vector with itself after an in-place
  reduction, so no property is taken from it.

## Findings

| source | as written | input that shows it | evidently intended | confidence | as-written member | corrected member |
|---|---|---|---|---|---|---|
| secretshared.go:92-105 | `RecoverInt` adds the scalar shares and subtracts `p` once when the sum exceeds `p/2`, without first reducing the sum modulo `p`; the sum of `k` shares in `[0, p)` can reach `k(p-1)` | `p = 7`, `a = [-2]` shared as `[6]`, `[6]` (a draw `SecretShare` can make); the dot shares with `b = [1]` are 6 and 6, and `RecoverInt(7, 6, 6)` returns 5 instead of -2 | reduce the sum modulo `p` before decoding the sign, which recovers every dot product in `(-p/2, p/2]` | not executed | SecretShares.RecoverIntSkipsReduction | SecretShares.RecoverIntReduced |
