/** Shamir's secret sharing of the paper key: `split` and `combine` of
    public/backend/crypto/shamir.py over an arbitrary prime, and for the prime the program uses. */
module Shamir {
  import opened ByteStrings
  import opened ModularField
  import opened Polynomials

  datatype Error =
    | ThresholdAboveShards | ThresholdBelowTwo | EmptyKey
    | TooFewShards | NotHexadecimal | NoModularInverse | TooLongForKey

  datatype Result<+T> = Ok(value: T) | Err(error: Error)

  datatype Shard = Shard(index: int, value: string)

  // ---------- Shard values as text ----------

  /** `hex(n)[2:]`. */
  function HexOf(n: nat): (s: string)
    ensures |s| > 0
  {
    if n < 16 then [DigitChar(n)] else HexOf(n / 16) + [DigitChar(n % 16)]
  }

  /** `int(s, 16)` on plain digit strings; `None` is its ValueError. */
  function ParseHex(s: string): Option<nat> {
    if |s| == 0 || !IsHexDigit(s[|s| - 1]) then None
    else if |s| == 1 then Some(DigitValue(s[0]))
    else match ParseHex(s[..|s| - 1])
      case None => None
      case Some(n) => Some(n * 16 + DigitValue(s[|s| - 1]))
  }

  lemma {:induction false} ParseHexOf(n: nat)
    ensures ParseHex(HexOf(n)) == Some(n)
  {
    if n >= 16 {
      ParseHexOf(n / 16);
      assert HexOf(n)[..|HexOf(n)| - 1] == HexOf(n / 16);
    }
  }

  lemma {:induction false} ToHexAppend(b: Bytes, x: byte)
    ensures ToHex(b + [x]) == ToHex(b) + [DigitChar(x / 16)] + [DigitChar(x % 16)]
  {
    if |b| > 0 {
      ToHexAppend(b[1..], x);
      assert (b + [x])[1..] == b[1..] + [x];
    } else {
      assert (b + [x])[1..] == [] && b + [x] == [x];
    }
  }

  lemma ParseAppend(s: string, c: char)
    requires IsHexDigit(c)
    ensures |s| == 0 ==> ParseHex(s + [c]) == Some(DigitValue(c))
    ensures |s| > 0 && ParseHex(s).Some? ==> ParseHex(s + [c]) == Some(ParseHex(s).value * 16 + DigitValue(c))
  {
    assert (s + [c])[..|s|] == s;
  }

  /** The digits are read most significant first: the hexadecimal text of bytes is their number. */
  lemma {:induction false} ParseHexOfBytes(b: Bytes)
    requires |b| > 0
    ensures ParseHex(ToHex(b)) == Some(FromBigEndian(b))
  {
    var n := |b| - 1;
    assert b == b[..n] + [b[n]];
    ToHexAppend(b[..n], b[n]);
    ParseAppend(ToHex(b[..n]), DigitChar(b[n] / 16));
    ParseAppend(ToHex(b[..n]) + [DigitChar(b[n] / 16)], DigitChar(b[n] % 16));
    if n > 0 {
      ParseHexOfBytes(b[..n]);
    }
  }

  // ---------- Split ----------

  /** `_eval_polynomial`: Horner's rule, reducing at every step. */
  method EvalPolynomial(coefficients: seq<int>, x: int, prime: int) returns (result: int)
    requires prime > 0
    ensures result == Eval(coefficients, x) % prime
  {
    result := 0;
    SmallMod(prime, 0);
    var i := |coefficients|;
    assert coefficients[i..] == [];
    while i > 0
      invariant 0 <= i <= |coefficients|
      invariant result == Eval(coefficients[i..], x) % prime
    {
      i := i - 1;
      ghost var rest := Eval(coefficients[i + 1..], x);
      assert coefficients[i..][1..] == coefficients[i + 1..];
      ModMod(prime, rest);
      ModMul(prime, result, rest, x, x);
      ModAdd(prime, result * x, rest * x, coefficients[i], coefficients[i]);
      assert rest * x == x * rest;
      result := (result * x + coefficients[i]) % prime;
    }
    assert coefficients[0..] == coefficients;
  }

  /** The secret is the constant term; the other coefficients are drawn at random. */
  function Coefficients(key: Bytes, random: seq<nat>): Poly {
    [FromBigEndian(key)] + random
  }

  function ShardOf(p: int, f: Poly, index: int): Shard
    requires p > 0
  {
    Shard(index, HexOf(Eval(f, index) % p))
  }

  /** `split`, over the field of `p` elements and with the values `secrets.randbelow` returned. */
  method Split(p: int, key: Bytes, n: int, k: int, random: seq<nat>) returns (r: Result<seq<Shard>>)
    requires p > 0
    requires k >= 2 ==> |random| == k - 1
    ensures r.Err? <==> k > n || k < 2 || |key| == 0
    ensures r.Err? ==> r.error == if k > n then ThresholdAboveShards else if k < 2 then ThresholdBelowTwo else EmptyKey
    ensures r.Ok? ==> |r.value| == n
    ensures r.Ok? ==> forall i :: 0 <= i < n ==> r.value[i] == ShardOf(p, Coefficients(key, random), i + 1)
  {
    if k > n { return Err(ThresholdAboveShards); }
    if k < 2 { return Err(ThresholdBelowTwo); }
    if |key| == 0 { return Err(EmptyKey); }
    var coefficients: seq<int> := [FromBigEndian(key)];
    for i := 0 to k - 1
      invariant coefficients == [FromBigEndian(key)] + random[..i]
    {
      coefficients := coefficients + [random[i]];
    }
    assert random[..k - 1] == random;
    var shards := [];
    for i := 1 to n + 1
      invariant |shards| == i - 1
      invariant forall j :: 0 <= j < |shards| ==> shards[j] == ShardOf(p, coefficients, j + 1)
    {
      var value := EvalPolynomial(coefficients, i, p);
      shards := shards + [Shard(i, HexOf(value))];
    }
    return Ok(shards);
  }

  // ---------- Combine ----------

  function Indices(points: seq<(int, string)>): (xs: seq<int>)
    ensures |xs| == |points|
  {
    seq(|points|, i requires 0 <= i < |points| => points[i].0)
  }

  predicate AllHex(points: seq<(int, string)>) {
    forall i :: 0 <= i < |points| ==> ParseHex(points[i].1).Some?
  }

  function Values(points: seq<(int, string)>): (ys: seq<int>)
    requires AllHex(points)
    ensures |ys| == |points|
  {
    seq(|points|, i requires 0 <= i < |points| => ParseHex(points[i].1).value)
  }

  /** What `combine` is for: the value at zero of the polynomial through the given points. */
  ghost function Reconstruct(p: int, points: seq<(int, string)>, keyLength: nat): Result<Bytes>
    requires p > 0
  {
    var xs := Indices(points);
    if |points| < 2 then Err(TooFewShards)
    else if !AllHex(points) then Err(NotHexadecimal)
    else if !Invertible(p, xs, |xs|) then Err(NoModularInverse)
    else
      var secret: nat := Eval(Interpolate(p, xs, Values(points), |xs|), 0) % p;
      if secret >= Pow(256, keyLength) then Err(TooLongForKey)
      else Ok(ToBigEndian(secret, keyLength))
  }

  /** The last factor of the product over the other points. */
  lemma LastFactor(xs: seq<int>, i: nat, j: nat, x: int)
    requires i < |xs| && j < |xs| && i != j
    ensures DiffProduct(x, Others(xs, i, j + 1)) == DiffProduct(x, Others(xs, i, j)) * (x - xs[j])
  {
    var o := Others(xs, i, j + 1);
    assert o[..|o| - 1] == Others(xs, i, j) && o[|o| - 1] == xs[j];
  }

  lemma Scaled(p: int, a: int, b: int, d: int, product: int)
    requires p > 0 && a % p == b % p && product == b * d
    ensures (a * d) % p == product % p
  {
    ModMul(p, a, b, d, d);
  }

  /** One step of the inner loops: the factor `x - xs[j]` unless `j` is the excluded index. */
  lemma OthersStep(p: int, xs: seq<int>, i: nat, j: nat, x: int, acc: int)
    requires p > 0 && i < |xs| && j < |xs|
    requires acc % p == DiffProduct(x, Others(xs, i, j)) % p
    ensures i == j ==> Others(xs, i, j + 1) == Others(xs, i, j)
    ensures i != j ==> (acc * (x - xs[j])) % p == DiffProduct(x, Others(xs, i, j + 1)) % p
  {
    if i != j {
      LastFactor(xs, i, j, x);
      Scaled(p, acc, DiffProduct(x, Others(xs, i, j)), x - xs[j], DiffProduct(x, Others(xs, i, j + 1)));
    }
  }

  lemma TermResidue(p: int, y: int, inv: int, numerator: int, d: int)
    requires p > 0 && numerator % p == d % p
    ensures (y * numerator * inv) % p % p == (y * inv * d) % p
  {
    ModMul(p, y * inv, y * inv, numerator, d);
    assert y * inv * numerator == y * numerator * inv;
    ModMod(p, y * numerator * inv);
  }

  /** One term of the outer loop: the value at zero of one basis polynomial, reduced. */
  method LagrangeTerm(p: int, yi: int, numerator: int, inverse: int, ghost xs: seq<int>, ghost i: nat)
    returns (lagrange: int)
    requires p > 0 && i < |xs| && HasInverse(p, xs, i) && inverse == InverseDenominator(p, xs, i)
    requires numerator % p == DiffProduct(0, Others(xs, i, |xs|)) % p
    ensures lagrange % p == Eval(Basis(p, xs, i, yi), 0) % p && lagrange >= 0
  {
    BasisEval(p, xs, i, yi, 0);
    TermResidue(p, yi, inverse, numerator, DiffProduct(0, Others(xs, i, |xs|)));
    return (yi * numerator * inverse) % p;
  }

  /** One step of the outer loop adds one basis polynomial. */
  lemma LagrangeStep(p: int, xs: seq<int>, ys: seq<int>, i: nat, secret: int, lagrange: int)
    requires p > 0 && |xs| == |ys| && i < |xs| && Invertible(p, xs, i + 1)
    requires lagrange % p == Eval(Basis(p, xs, i, ys[i]), 0) % p
    requires secret == Eval(Interpolate(p, xs, ys, i), 0) % p
    ensures (secret + lagrange) % p == Eval(Interpolate(p, xs, ys, i + 1), 0) % p
  {
    InterpolateEval(p, xs, ys, i + 1, 0);
    ModMod(p, Eval(Interpolate(p, xs, ys, i), 0));
    ModAdd(p, secret, Eval(Interpolate(p, xs, ys, i), 0), lagrange, Eval(Basis(p, xs, i, ys[i]), 0));
  }

  method ParsePoints(shards: seq<(int, string)>) returns (points: Option<seq<(int, int)>>)
    ensures points.Some? <==> AllHex(shards)
    ensures points.Some? ==> |points.value| == |shards|
    ensures points.Some? ==> forall j ::
      0 <= j < |shards| ==> points.value[j] == (shards[j].0, ParseHex(shards[j].1).value)
  {
    var parsed: seq<(int, int)> := [];
    for i := 0 to |shards|
      invariant |parsed| == i
      invariant forall j :: 0 <= j < i
                  ==> ParseHex(shards[j].1).Some? && parsed[j] == (shards[j].0, ParseHex(shards[j].1).value)
    {
      var value := ParseHex(shards[i].1);
      if value.None? { return None; }
      parsed := parsed + [(shards[i].0, value.value)];
    }
    return Some(parsed);
  }

  /** The inner loop of `combine`: both products over the other points, reduced at every step. */
  method LagrangeFraction(p: int, points: seq<(int, int)>, i: nat, ghost xs: seq<int>)
    returns (numerator: int, denominator: int)
    requires p > 1 && i < |points| == |xs| && forall j :: 0 <= j < |xs| ==> xs[j] == points[j].0
    ensures numerator == DiffProduct(0, Others(xs, i, |xs|)) % p
    ensures denominator == DiffProduct(xs[i], Others(xs, i, |xs|)) % p
  {
    var xi := points[i].0;
    numerator, denominator := 1, 1;
    SmallMod(p, 1);
    for j := 0 to |points|
      invariant numerator == DiffProduct(0, Others(xs, i, j)) % p
      invariant denominator == DiffProduct(xi, Others(xs, i, j)) % p
    {
      var xj := points[j].0;
      ModMod(p, DiffProduct(0, Others(xs, i, j)));
      ModMod(p, DiffProduct(xi, Others(xs, i, j)));
      OthersStep(p, xs, i, j, 0, numerator);
      OthersStep(p, xs, i, j, xi, denominator);
      if i != j {
        assert 0 - xj == -xj;
        numerator := (numerator * (-xj)) % p;
        denominator := (denominator * (xi - xj)) % p;
      }
    }
  }

  /** The outer loop of `combine`; `None` is the error of `_mod_inverse`. */
  method LagrangeAtZero(p: int, points: seq<(int, int)>, ghost xs: seq<int>, ghost ys: seq<int>)
    returns (r: Option<nat>)
    requires p > 1 && |points| == |xs| == |ys|
    requires forall j :: 0 <= j < |xs| ==> points[j] == (xs[j], ys[j])
    ensures r.Some? <==> Invertible(p, xs, |xs|)
    ensures r.Some? ==> r.value == Eval(Interpolate(p, xs, ys, |xs|), 0) % p
  {
    var secret := 0;
    SmallMod(p, 0);
    for i := 0 to |points|
      invariant Invertible(p, xs, i)
      invariant 0 <= secret == Eval(Interpolate(p, xs, ys, i), 0) % p
    {
      var numerator, denominator := LagrangeFraction(p, points, i, xs);
      var inverse := ModInverse(denominator, p);
      assert inverse.Some? <==> HasInverse(p, xs, i);
      if inverse.None? { return None; }
      ModMod(p, DiffProduct(0, Others(xs, i, |xs|)));
      var lagrange := LagrangeTerm(p, points[i].1, numerator, inverse.value, xs, i);
      LagrangeStep(p, xs, ys, i, secret, lagrange);
      secret := (secret + lagrange) % p;
    }
    return Some(secret);
  }

  /** `combine`: Lagrange interpolation at zero. */
  method Combine(p: int, shards: seq<(int, string)>, keyLength: nat) returns (r: Result<Bytes>)
    requires p > 1
    ensures r == Reconstruct(p, shards, keyLength)
    ensures r == Err(TooFewShards) <==> |shards| < 2
    ensures r == Err(NotHexadecimal) <==> |shards| >= 2 && exists i :: 0 <= i < |shards| && ParseHex(shards[i].1).None?
    ensures r.Ok? ==> |r.value| == keyLength
  {
    if |shards| < 2 { return Err(TooFewShards); }
    var points := ParsePoints(shards);
    if points.None? { return Err(NotHexadecimal); }
    var secret := LagrangeAtZero(p, points.value, Indices(shards), Values(shards));
    if secret.None? { return Err(NoModularInverse); }
    if secret.value >= Pow(256, keyLength) { return Err(TooLongForKey); }
    return Ok(ToBigEndian(secret.value, keyLength));
  }

  // ---------- Reconstruction ----------

  /** With at least two well-formed shards `combine` fails to invert exactly when two shard
      indices are congruent. */
  lemma NoInverseIffRepeatedIndex(p: int, points: seq<(int, string)>, keyLength: nat)
    requires IsPrime(p) && |points| >= 2 && AllHex(points)
    ensures Reconstruct(p, points, keyLength) == Err(NoModularInverse) <==> !DistinctMod(p, Indices(points))
  {
    InvertibleIffDistinct(p, Indices(points));
  }

  /** The points are values of the polynomial `f`, written in hexadecimal. */
  ghost predicate ValuesOf(p: int, f: Poly, points: seq<(int, string)>)
    requires p > 0
  {
    forall i :: 0 <= i < |points| ==> points[i].1 == HexOf(Eval(f, points[i].0) % p)
  }

  lemma ReconstructsConstantTerm(p: int, f: Poly, points: seq<(int, string)>)
    requires IsPrime(p) && 0 < |f| <= |points| && ValuesOf(p, f, points) && DistinctMod(p, Indices(points))
    ensures AllHex(points) && Invertible(p, Indices(points), |points|)
    ensures Eval(Interpolate(p, Indices(points), Values(points), |points|), 0) % p == f[0] % p
  {
    var xs := Indices(points);
    InvertibleIffDistinct(p, xs);
    forall i | 0 <= i < |points| ensures ParseHex(points[i].1) == Some(Eval(f, xs[i]) % p) {
      ParseHexOf(Eval(f, xs[i]) % p);
    }
    var ys := Values(points);
    var g := Interpolate(p, xs, ys, |xs|);
    forall i | 0 <= i < |xs| ensures Agree(p, g, f, xs[i]) {
      InterpolateAtPoints(p, xs, ys, |xs|, i);
      ModMod(p, Eval(f, xs[i]));
    }
    AgreeEverywhere(p, g, f, xs, 0);
    EvalAtZero(f);
  }

  /** Of the values of a polynomial with no more coefficients than there are shards, `combine` returns the
      constant term modulo `p` in as many bytes as asked for, and fails exactly if it does not fit. */
  lemma CombineExactly(p: int, f: Poly, points: seq<(int, string)>, keyLength: nat)
    requires IsPrime(p) && |points| >= 2 && 0 < |f| <= |points|
    requires ValuesOf(p, f, points) && DistinctMod(p, Indices(points))
    ensures var r := Reconstruct(p, points, keyLength);
      && (r == Err(TooLongForKey) <==> f[0] % p >= Pow(256, keyLength))
      && (r.Ok? <==> f[0] % p < Pow(256, keyLength))
      && (r.Ok? ==> |r.value| == keyLength && FromBigEndian(r.value) == f[0] % p)
  {
    ReconstructsConstantTerm(p, f, points);
    if f[0] % p < Pow(256, keyLength) {
      FromToBigEndian(f[0] % p, keyLength);
    }
  }

  /** What any threshold of shards recovers: the key's integer modulo `p`. It is the key exactly
      when that integer is below `p`. */
  lemma CombineRecovers(p: int, key: Bytes, random: seq<nat>, points: seq<(int, string)>)
    requires IsPrime(p) && |points| >= 2 && |points| >= |random| + 1
    requires ValuesOf(p, Coefficients(key, random), points) && DistinctMod(p, Indices(points))
    ensures Reconstruct(p, points, |key|) == Ok(ToBigEndian(FromBigEndian(key) % p, |key|))
    ensures Reconstruct(p, points, |key|) == Ok(key) <==> FromBigEndian(key) < p
  {
    var n := FromBigEndian(key);
    ReconstructsConstantTerm(p, Coefficients(key, random), points);
    BigEndianBound(key);
    assert n % p <= n by {
      if n < p { SmallMod(p, n); }
    }
    if n < p {
      SmallMod(p, n);
      ToFromBigEndian(key);
    } else {
      FromToBigEndian(n % p, |key|);
    }
  }

  /** The shards at the chosen positions, in the chosen order. */
  function Chosen(shards: seq<Shard>, chosen: seq<nat>): (points: seq<(int, string)>)
    requires forall i :: 0 <= i < |chosen| ==> chosen[i] < |shards|
    ensures |points| == |chosen|
  {
    seq(|chosen|, i requires 0 <= i < |chosen| => (shards[chosen[i]].index, shards[chosen[i]].value))
  }

  /** Round trip through the shards `Split` returns: any `k` or more of them, in any order. */
  lemma RoundTrip(p: int, key: Bytes, n: int, k: int, random: seq<nat>, shards: seq<Shard>, chosen: seq<nat>)
    requires IsPrime(p) && 2 <= k <= n < p && |random| == k - 1 && FromBigEndian(key) < p
    requires |shards| == n && forall i :: 0 <= i < n ==> shards[i] == ShardOf(p, Coefficients(key, random), i + 1)
    requires |chosen| >= k && forall i :: 0 <= i < |chosen| ==> chosen[i] < n
    requires forall i, j :: 0 <= i < j < |chosen| ==> chosen[i] != chosen[j]
    ensures Reconstruct(p, Chosen(shards, chosen), |key|) == Ok(key)
  {
    var points := Chosen(shards, chosen);
    ChosenAreValues(p, Coefficients(key, random), shards, chosen);
    CombineRecovers(p, key, random, points);
  }

  lemma ChosenAreValues(p: int, f: Poly, shards: seq<Shard>, chosen: seq<nat>)
    requires |shards| < p && forall i :: 0 <= i < |shards| ==> shards[i] == ShardOf(p, f, i + 1)
    requires forall i :: 0 <= i < |chosen| ==> chosen[i] < |shards|
    requires forall i, j :: 0 <= i < j < |chosen| ==> chosen[i] != chosen[j]
    ensures ValuesOf(p, f, Chosen(shards, chosen)) && DistinctMod(p, Indices(Chosen(shards, chosen)))
  {
    var xs := Indices(Chosen(shards, chosen));
    assert forall i :: 0 <= i < |xs| ==> xs[i] == chosen[i] + 1;
    DistinctBelow(p, xs);
  }

  /** Different numbers between 0 and `p` are incongruent. */
  lemma DistinctBelow(p: int, xs: seq<int>)
    requires p > 0 && forall i :: 0 <= i < |xs| ==> 0 <= xs[i] < p
    requires forall i, j :: 0 <= i < j < |xs| ==> xs[i] != xs[j]
    ensures DistinctMod(p, xs)
  {
    forall i, j | 0 <= i < j < |xs| ensures (xs[i] - xs[j]) % p != 0 {
      CongruentIff(p, xs[i], xs[j]);
      SmallMod(p, xs[i]);
      SmallMod(p, xs[j]);
    }
  }

  // ---------- The prime of the program ----------

  /** `2**521 - 1`. That it is prime is a hypothesis where it is needed. */
  const M521: nat := Pow(2, 521) - 1

  lemma {:induction false} PowOfPower(n: nat)
    ensures Pow(256, n) == Pow(2, 8 * n)
  {
    if n > 0 {
      PowOfPower(n - 1);
      PowAdd(2, 8, 8 * (n - 1));
      assert Pow(2, 8) == 256 by {
        PowAdd(2, 4, 4);
        assert Pow(2, 4) == 16;
      }
    }
  }

  /** A key fits below a Mersenne number that has more bits. */
  lemma KeyBound(key: Bytes, bits: nat)
    requires 8 * |key| < bits
    ensures FromBigEndian(key) < Pow(2, bits) - 1
  {
    BigEndianBound(key);
    PowOfPower(|key|);
    var rest := bits - 1 - 8 * |key|;
    PowAdd(2, 8 * |key|, rest);
    MulAtLeast(Pow(2, 8 * |key|), Pow(2, rest));
    assert 8 * |key| + rest == bits - 1;
    assert Pow(2, bits - 1) >= Pow(2, 8 * |key|);
    assert Pow(2, bits) == 2 * Pow(2, bits - 1);
  }

  /** Every key of at most 65 bytes survives, leading zero bytes included. */
  lemma RoundTripM521(key: Bytes, n: int, k: int, random: seq<nat>, shards: seq<Shard>, chosen: seq<nat>)
    requires IsPrime(M521) && |key| <= 65 && 2 <= k <= n < M521 && |random| == k - 1
    requires |shards| == n && forall i :: 0 <= i < n ==> shards[i] == ShardOf(M521, Coefficients(key, random), i + 1)
    requires |chosen| >= k && forall i :: 0 <= i < |chosen| ==> chosen[i] < n
    requires forall i, j :: 0 <= i < j < |chosen| ==> chosen[i] != chosen[j]
    ensures Reconstruct(M521, Chosen(shards, chosen), |key|) == Ok(key)
  {
    KeyBound(key, 521);
    RoundTrip(M521, key, n, k, random, shards, chosen);
  }

  /** A byte 1 and then `m` bytes 255. */
  function OneThenOnes(m: nat): (b: Bytes)
    ensures |b| == m + 1
  {
    if m == 0 then [1] else OneThenOnes(m - 1) + [255]
  }

  lemma {:induction false} OneThenOnesValue(m: nat)
    ensures FromBigEndian(OneThenOnes(m)) == 2 * Pow(256, m) - 1
  {
    if m > 0 {
      OneThenOnesValue(m - 1);
      assert OneThenOnes(m)[..m] == OneThenOnes(m - 1);
    }
  }

  lemma MultipleIsLost(p: int, key: Bytes, random: seq<nat>, points: seq<(int, string)>)
    requires IsPrime(p) && |points| >= 2 && |points| >= |random| + 1 && FromBigEndian(key) == p
    requires ValuesOf(p, Coefficients(key, random), points) && DistinctMod(p, Indices(points))
    ensures Reconstruct(p, points, |key|) == Ok(ToBigEndian(0, |key|)) != Ok(key)
  {
    CombineRecovers(p, key, random, points);
    DivModUnique(p, p, 1, 0);
  }

  /** The bound is sharp: this key of 66 bytes is congruent to zero, so what any shards of it
      recover is 66 zero bytes. */
  lemma OneThenOnesIsMersenne(m: nat)
    ensures FromBigEndian(OneThenOnes(m)) == Pow(2, 8 * m + 1) - 1
  {
    OneThenOnesValue(m);
    PowOfPower(m);
  }

  lemma LongKeyIsLost(random: seq<nat>, points: seq<(int, string)>)
    requires IsPrime(M521) && |points| >= 2 && |points| >= |random| + 1
    requires ValuesOf(M521, Coefficients(OneThenOnes(65), random), points) && DistinctMod(M521, Indices(points))
    ensures Reconstruct(M521, points, 66) == Ok(ToBigEndian(0, 66)) != Ok(OneThenOnes(65))
  {
    var m := 65;
    OneThenOnesIsMersenne(m);
    MultipleIsLost(M521, OneThenOnes(m), random, points);
  }

  // ---------- Perfect secrecy ----------

  /** `f` is a sharing polynomial with `k` reduced coefficients, constant term `secret` and the
      shard values `ys` at `xs`. */
  ghost predicate Explains(p: int, f: Poly, k: nat, secret: int, xs: seq<int>, ys: seq<int>)
    requires p > 0 && |xs| == |ys|
  {
    && |f| == k > 0 && f[0] == secret
    && (forall i :: 0 <= i < k ==> 0 <= f[i] < p)
    && (forall i :: 0 <= i < |xs| ==> Eval(f, xs[i]) % p == ys[i])
  }

  /** The polynomial that reconciles the shards with a secret: interpolation through the shards
      and the point at zero. */
  function Reconciling(p: int, secret: int, xs: seq<int>, ys: seq<int>): Poly
    requires p > 0 && |xs| == |ys| && Invertible(p, [0] + xs, |xs| + 1)
  {
    Reduce(p, Interpolate(p, [0] + xs, [secret] + ys, |xs| + 1))
  }

  lemma ZeroAndDistinct(p: int, xs: seq<int>)
    requires p > 0 && DistinctMod(p, xs) && forall i :: 0 <= i < |xs| ==> xs[i] % p != 0
    ensures DistinctMod(p, [0] + xs)
  {
    var zs := [0] + xs;
    forall i, j | 0 <= i < j < |zs| ensures (zs[i] - zs[j]) % p != 0 {
      assert zs[j] == xs[j - 1];
      if i == 0 {
        ModNegate(p, xs[j - 1]);
        assert 0 - xs[j - 1] == -xs[j - 1];
      } else {
        assert zs[i] == xs[i - 1];
      }
    }
  }

  /** One shard short of the threshold nothing is learned: for every secret of the field exactly
      one choice of coefficients produces the shards held. */
  lemma PerfectSecrecy(p: int, k: nat, secret: int, xs: seq<int>, ys: seq<int>)
    requires IsPrime(p) && k >= 1 && |xs| == |ys| == k - 1 && 0 <= secret < p
    requires DistinctMod(p, xs)
    requires forall i :: 0 <= i < |xs| ==> xs[i] % p != 0 && 0 <= ys[i] < p
    ensures Invertible(p, [0] + xs, |xs| + 1)
    ensures forall f :: Explains(p, f, k, secret, xs, ys) <==> f == Reconciling(p, secret, xs, ys)
  {
    var zs, ws := [0] + xs, [secret] + ys;
    ZeroAndDistinct(p, xs);
    InvertibleIffDistinct(p, zs);
    var g := Interpolate(p, zs, ws, k);
    var f := Reconciling(p, secret, xs, ys);
    forall i | 0 <= i < k ensures Eval(f, zs[i]) % p == ws[i] {
      InterpolateAtPoints(p, zs, ws, k, i);
      EvalReduce(p, g, zs[i]);
      assert 0 <= ws[i] < p;
      SmallMod(p, ws[i]);
    }
    assert Explains(p, f, k, secret, xs, ys) by {
      assert zs[0] == 0 && ws[0] == secret;
      EvalAtZero(f);
      SmallMod(p, f[0]);
      forall i | 0 <= i < |xs| ensures Eval(f, xs[i]) % p == ys[i] {
        assert zs[i + 1] == xs[i] && ws[i + 1] == ys[i];
      }
    }
    forall f' | Explains(p, f', k, secret, xs, ys) ensures f' == f {
      forall i | 0 <= i < |zs| ensures Agree(p, f', f, zs[i]) {
        if i == 0 {
          EvalAtZero(f');
          EvalAtZero(f);
        } else {
          assert zs[i] == xs[i - 1] && ws[i] == ys[i - 1];
        }
      }
      SameCoefficients(p, f', f, zs);
    }
  }
}
