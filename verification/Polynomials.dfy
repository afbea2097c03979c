/** Polynomials over the integers, lowest coefficient first, and what they satisfy modulo a prime:
    a polynomial with as many distinct roots as coefficients vanishes, and through any points
    with distinct abscissae goes exactly one polynomial with that many coefficients. */
module Polynomials {
  import opened ModularField

  type Poly = seq<int>

  function Eval(f: Poly, x: int): int {
    if |f| == 0 then 0 else f[0] + x * Eval(f[1..], x)
  }

  function Add(f: Poly, g: Poly): (r: Poly)
    ensures |r| == if |f| >= |g| then |f| else |g|
  {
    if |f| == 0 then g
    else if |g| == 0 then f
    else [f[0] + g[0]] + Add(f[1..], g[1..])
  }

  function Scale(c: int, f: Poly): (r: Poly)
    ensures |r| == |f| && forall i :: 0 <= i < |f| ==> r[i] == c * f[i]
  {
    if |f| == 0 then [] else [c * f[0]] + Scale(c, f[1..])
  }

  /** `f * (X - r)`. */
  function TimesLinear(f: Poly, r: int): (g: Poly)
    ensures |g| == |f| + 1
  {
    Add([0] + f, Scale(-r, f))
  }

  /** The product of `X - r` over `rs`. */
  function LinearProduct(rs: seq<int>): (g: Poly)
    ensures |g| == |rs| + 1
  {
    if |rs| == 0 then [1] else TimesLinear(LinearProduct(rs[..|rs| - 1]), rs[|rs| - 1])
  }

  /** The product of `x - r` over `rs`. */
  function DiffProduct(x: int, rs: seq<int>): int {
    if |rs| == 0 then 1 else DiffProduct(x, rs[..|rs| - 1]) * (x - rs[|rs| - 1])
  }

  // ---------- Evaluation is a ring homomorphism ----------

  lemma {:induction false} EvalAdd(f: Poly, g: Poly, x: int)
    ensures Eval(Add(f, g), x) == Eval(f, x) + Eval(g, x)
  {
    if |f| > 0 && |g| > 0 {
      EvalAdd(f[1..], g[1..], x);
      assert Add(f, g)[1..] == Add(f[1..], g[1..]);
      Distribute(x, Eval(f[1..], x), Eval(g[1..], x));
    }
  }

  lemma {:induction false} EvalScale(c: int, f: Poly, x: int)
    ensures Eval(Scale(c, f), x) == c * Eval(f, x)
  {
    if |f| > 0 {
      EvalScale(c, f[1..], x);
      assert Scale(c, f)[1..] == Scale(c, f[1..]);
      var e := Eval(f[1..], x);
      assert x * (c * e) == c * (x * e);
      Distribute(c, f[0], x * e);
    }
  }

  lemma EvalTimesLinear(f: Poly, r: int, x: int)
    ensures Eval(TimesLinear(f, r), x) == Eval(f, x) * (x - r)
  {
    EvalAdd([0] + f, Scale(-r, f), x);
    EvalScale(-r, f, x);
    assert ([0] + f)[1..] == f;
    Distribute(Eval(f, x), x, r);
  }

  lemma {:induction false} EvalLinearProduct(rs: seq<int>, x: int)
    ensures Eval(LinearProduct(rs), x) == DiffProduct(x, rs)
  {
    if |rs| > 0 {
      EvalLinearProduct(rs[..|rs| - 1], x);
      EvalTimesLinear(LinearProduct(rs[..|rs| - 1]), rs[|rs| - 1], x);
    } else {
      assert Eval([1], x) == 1 + x * Eval([], x);
    }
  }

  /** A product with a vanishing factor vanishes. */
  lemma {:induction false} DiffProductZero(x: int, rs: seq<int>, i: nat)
    requires i < |rs| && rs[i] == x
    ensures DiffProduct(x, rs) == 0
  {
    if i < |rs| - 1 {
      DiffProductZero(x, rs[..|rs| - 1], i);
    }
  }

  /** `x` is congruent to the `k`-th number. */
  ghost predicate Meets(p: int, xs: seq<int>, x: int, k: int)
    requires p > 0
  {
    0 <= k < |xs| && (x - xs[k]) % p == 0
  }

  /** Modulo a prime a product vanishes only through one of its factors. */
  lemma {:induction false} DiffProductNonZero(p: int, x: int, rs: seq<int>)
    requires IsPrime(p)
    ensures DiffProduct(x, rs) % p == 0 <==> exists i :: Meets(p, rs, x, i)
  {
    if |rs| == 0 {
      SmallMod(p, 1);
    } else {
      var init, last := rs[..|rs| - 1], rs[|rs| - 1];
      DiffProductNonZero(p, x, init);
      SmallMod(p, 0);
      if DiffProduct(x, rs) % p == 0 {
        NoZeroDivisors(p, DiffProduct(x, init), x - last);
        if DiffProduct(x, init) % p == 0 {
          var i :| Meets(p, init, x, i);
          assert Meets(p, rs, x, i);
        } else {
          assert Meets(p, rs, x, |rs| - 1);
        }
      }
      if i :| Meets(p, rs, x, i) {
        if i < |rs| - 1 {
          assert Meets(p, init, x, i);
          ModMul(p, DiffProduct(x, init), 0, x - last, x - last);
        } else {
          ModMul(p, DiffProduct(x, init), DiffProduct(x, init), x - last, 0);
        }
      }
    }
  }

  // ---------- Roots modulo a prime ----------

  ghost predicate AllZero(p: int, f: Poly)
    requires p > 0
  {
    forall i :: 0 <= i < |f| ==> f[i] % p == 0
  }

  ghost predicate IsRoot(p: int, f: Poly, r: int)
    requires p > 0
  {
    Eval(f, r) % p == 0
  }

  /** No two of the numbers are congruent. */
  ghost predicate DistinctMod(p: int, xs: seq<int>)
    requires p > 0
  {
    forall i, j :: 0 <= i < j < |xs| ==> (xs[i] - xs[j]) % p != 0
  }

  /** Synthetic division: the quotient of `f(X) - f(r)` by `X - r`. */
  function Quotient(f: Poly, r: int): (q: Poly)
    ensures |q| == if |f| == 0 then 0 else |f| - 1
  {
    if |f| <= 1 then [] else [Eval(f[1..], r)] + Quotient(f[1..], r)
  }

  lemma {:induction false} QuotientEval(f: Poly, r: int, x: int)
    ensures Eval(f, x) - Eval(f, r) == (x - r) * Eval(Quotient(f, r), x)
  {
    if |f| > 1 {
      var g := f[1..];
      QuotientEval(g, r, x);
      assert Quotient(f, r)[1..] == Quotient(g, r);
      QuotientAlgebra(x, r, Eval(g, x), Eval(g, r), Eval(Quotient(g, r), x));
    } else {
      assert |f| == 1 ==> f[1..] == [];
    }
  }

  lemma QuotientAlgebra(x: int, r: int, gx: int, gr: int, q: int)
    requires gx - gr == (x - r) * q
    ensures x * gx - r * gr == (x - r) * (gr + x * q)
  {
    Distribute(x - r, gr, x * q);
    assert (x - r) * (x * q) == x * ((x - r) * q);
    Distribute(x, gx, gr);
    Distribute(gr, x, r);
  }

  /** If the quotient and the value at `r` vanish, so does every coefficient. */
  lemma {:induction false} ZeroQuotient(p: int, f: Poly, r: int)
    requires p > 0 && AllZero(p, Quotient(f, r)) && IsRoot(p, f, r)
    ensures AllZero(p, f)
  {
    if |f| > 0 {
      var g := f[1..];
      SmallMod(p, 0);
      assert Eval(g, r) % p == 0 && AllZero(p, Quotient(g, r)) by {
        if |f| > 1 {
          var q := Quotient(f, r);
          assert q[0] == Eval(g, r);
          assert q[1..] == Quotient(g, r);
          assert forall i :: 0 <= i < |q| - 1 ==> q[1..][i] == q[i + 1];
        } else {
          assert g == [];
        }
      }
      ZeroQuotient(p, g, r);
      ModMul(p, r, r, Eval(g, r), 0);
      ModSub(p, Eval(f, r), 0, r * Eval(g, r), 0);
      forall i | 0 <= i < |f| ensures f[i] % p == 0 {
        if i > 0 {
          assert f[i] == g[i - 1];
        }
      }
    }
  }

  /** Root counting: a polynomial with as many distinct roots as coefficients is zero. */
  lemma {:induction false} RootsForceZero(p: int, f: Poly, roots: seq<int>)
    requires IsPrime(p) && |roots| >= |f| && DistinctMod(p, roots)
    requires forall i :: 0 <= i < |roots| ==> IsRoot(p, f, roots[i])
    ensures AllZero(p, f)
    decreases |f|
  {
    if |f| > 0 {
      var r, rest := roots[0], roots[1..];
      var q := Quotient(f, r);
      SmallMod(p, 0);
      forall i | 0 <= i < |rest| ensures IsRoot(p, q, rest[i]) {
        var x := rest[i];
        assert x == roots[i + 1];
        QuotientEval(f, r, x);
        ModSub(p, Eval(f, x), 0, Eval(f, r), 0);
        NoZeroDivisors(p, x - r, Eval(q, x));
        assert (roots[0] - roots[i + 1]) % p != 0;
        ModNegate(p, x - r);
        assert -(x - r) == r - x;
      }
      assert DistinctMod(p, rest) by {
        forall i, j | 0 <= i < j < |rest| ensures (rest[i] - rest[j]) % p != 0 {
          assert rest[i] == roots[i + 1] && rest[j] == roots[j + 1];
        }
      }
      RootsForceZero(p, q, rest);
      ZeroQuotient(p, f, r);
    }
  }

  /** A polynomial of zero coefficients vanishes everywhere. */
  lemma {:induction false} EvalAllZero(p: int, f: Poly, x: int)
    requires p > 0 && AllZero(p, f)
    ensures Eval(f, x) % p == 0
  {
    SmallMod(p, 0);
    if |f| > 0 {
      assert forall i :: 0 <= i < |f[1..]| ==> f[1..][i] == f[i + 1];
      EvalAllZero(p, f[1..], x);
      ModMul(p, x, x, Eval(f[1..], x), 0);
      ModAdd(p, f[0], 0, x * Eval(f[1..], x), 0);
    }
  }

  function Difference(f: Poly, g: Poly): (d: Poly)
    ensures |d| == if |f| >= |g| then |f| else |g|
  {
    Add(f, Scale(-1, g))
  }

  lemma EvalDifference(f: Poly, g: Poly, x: int)
    ensures Eval(Difference(f, g), x) == Eval(f, x) - Eval(g, x)
  {
    EvalAdd(f, Scale(-1, g), x);
    EvalScale(-1, g, x);
  }

  lemma {:induction false} AddAt(f: Poly, g: Poly, i: nat)
    requires |f| == |g| && i < |f|
    ensures Add(f, g)[i] == f[i] + g[i]
  {
    if i > 0 {
      AddAt(f[1..], g[1..], i - 1);
    }
  }

  /** `f` and `g` take congruent values at `x`. */
  ghost predicate Agree(p: int, f: Poly, g: Poly, x: int)
    requires p > 0
  {
    Eval(f, x) % p == Eval(g, x) % p
  }

  lemma DifferenceVanishes(p: int, f: Poly, g: Poly, xs: seq<int>)
    requires IsPrime(p) && |xs| >= |f| && |xs| >= |g| && DistinctMod(p, xs)
    requires forall i :: 0 <= i < |xs| ==> Agree(p, f, g, xs[i])
    ensures AllZero(p, Difference(f, g))
  {
    forall i | 0 <= i < |xs| ensures IsRoot(p, Difference(f, g), xs[i]) {
      assert Agree(p, f, g, xs[i]);
      EvalDifference(f, g, xs[i]);
      CongruentIff(p, Eval(f, xs[i]), Eval(g, xs[i]));
    }
    RootsForceZero(p, Difference(f, g), xs);
  }

  /** Short polynomials that agree at enough points agree everywhere. */
  lemma AgreeEverywhere(p: int, f: Poly, g: Poly, xs: seq<int>, x: int)
    requires IsPrime(p) && |xs| >= |f| && |xs| >= |g| && DistinctMod(p, xs)
    requires forall i :: 0 <= i < |xs| ==> Agree(p, f, g, xs[i])
    ensures Agree(p, f, g, x)
  {
    DifferenceVanishes(p, f, g, xs);
    EvalAllZero(p, Difference(f, g), x);
    EvalDifference(f, g, x);
    CongruentIff(p, Eval(f, x), Eval(g, x));
  }

  /** Two reduced polynomials of one length that agree at that many points are the same. */
  lemma SameCoefficients(p: int, f: Poly, g: Poly, xs: seq<int>)
    requires IsPrime(p) && |f| == |g| <= |xs| && DistinctMod(p, xs)
    requires forall i :: 0 <= i < |f| ==> 0 <= f[i] < p && 0 <= g[i] < p
    requires forall i :: 0 <= i < |xs| ==> Agree(p, f, g, xs[i])
    ensures f == g
  {
    DifferenceVanishes(p, f, g, xs);
    forall i | 0 <= i < |f| ensures f[i] == g[i] {
      AddAt(f, Scale(-1, g), i);
      CongruentIff(p, f[i], g[i]);
      SmallMod(p, f[i]);
      SmallMod(p, g[i]);
    }
  }

  // ---------- Lagrange interpolation ----------

  /** The first `j` numbers without the one at position `i`. */
  function Others(xs: seq<int>, i: nat, j: nat): (r: seq<int>)
    requires i < |xs| && j <= |xs|
  {
    if j <= i then xs[..j] else xs[..i] + xs[i + 1..j]
  }

  lemma OthersAt(xs: seq<int>, i: nat, k: nat)
    requires i < |xs| && k < |xs| - 1
    ensures |Others(xs, i, |xs|)| == |xs| - 1
    ensures Others(xs, i, |xs|)[k] == xs[if k < i then k else k + 1]
  {
  }

  lemma OthersMembers(p: int, xs: seq<int>, i: nat, x: int)
    requires p > 0 && i < |xs|
    ensures (exists k :: Meets(p, Others(xs, i, |xs|), x, k)) <==> (exists j :: j != i && Meets(p, xs, x, j))
  {
    var o := Others(xs, i, |xs|);
    if k :| Meets(p, o, x, k) {
      OthersAt(xs, i, k);
      assert Meets(p, xs, x, if k < i then k else k + 1);
    }
    if j :| j != i && Meets(p, xs, x, j) {
      OthersAt(xs, i, if j < i then j else j - 1);
      assert Meets(p, o, x, if j < i then j else j - 1);
    }
  }

  /** The denominators of the interpolation are invertible exactly when no two abscissae are
      congruent. */
  lemma DenominatorInvertible(p: int, xs: seq<int>, i: nat)
    requires IsPrime(p) && i < |xs|
    ensures DiffProduct(xs[i], Others(xs, i, |xs|)) % p == 0
       <==> exists j :: j != i && Meets(p, xs, xs[i], j)
  {
    DiffProductNonZero(p, xs[i], Others(xs, i, |xs|));
    OthersMembers(p, xs, i, xs[i]);
  }

  /** The denominator that belongs to `xs[i]` is invertible. */
  predicate HasInverse(p: int, xs: seq<int>, i: nat)
    requires p > 0 && i < |xs|
  {
    ModInverse(DiffProduct(xs[i], Others(xs, i, |xs|)) % p, p).Some?
  }

  /** The inverse of the product of the differences from `xs[i]` to the other abscissae. */
  function InverseDenominator(p: int, xs: seq<int>, i: nat): nat
    requires p > 0 && i < |xs| && HasInverse(p, xs, i)
  {
    ModInverse(DiffProduct(xs[i], Others(xs, i, |xs|)) % p, p).value
  }

  /** The `i`-th basis polynomial scaled to take the value `y` at `xs[i]`. */
  function Basis(p: int, xs: seq<int>, i: nat, y: int): (f: Poly)
    requires p > 0 && i < |xs| && HasInverse(p, xs, i)
    ensures |f| == |xs|
  {
    Scale(y * InverseDenominator(p, xs, i), LinearProduct(Others(xs, i, |xs|)))
  }

  lemma BasisEval(p: int, xs: seq<int>, i: nat, y: int, x: int)
    requires p > 0 && i < |xs| && HasInverse(p, xs, i)
    ensures Eval(Basis(p, xs, i, y), x) == y * InverseDenominator(p, xs, i) * DiffProduct(x, Others(xs, i, |xs|))
  {
    EvalScale(y * InverseDenominator(p, xs, i), LinearProduct(Others(xs, i, |xs|)), x);
    EvalLinearProduct(Others(xs, i, |xs|), x);
  }

  /** The denominators of the first `n` abscissae are invertible. */
  ghost predicate Invertible(p: int, xs: seq<int>, n: nat)
    requires p > 0 && n <= |xs|
  {
    forall i :: 0 <= i < n ==> HasInverse(p, xs, i)
  }

  /** Over a prime the denominators are invertible exactly for pairwise incongruent abscissae. */
  lemma InvertibleIffDistinct(p: int, xs: seq<int>)
    requires IsPrime(p)
    ensures Invertible(p, xs, |xs|) <==> DistinctMod(p, xs)
  {
    forall i | 0 <= i < |xs| ensures HasInverse(p, xs, i) <==> forall j :: j != i ==> !Meets(p, xs, xs[i], j) {
      DenominatorInvertible(p, xs, i);
      ModMod(p, DiffProduct(xs[i], Others(xs, i, |xs|)));
      InverseExists(DiffProduct(xs[i], Others(xs, i, |xs|)) % p, p);
    }
    if Invertible(p, xs, |xs|) {
      forall i, j | 0 <= i < j < |xs| ensures (xs[i] - xs[j]) % p != 0 {
        assert HasInverse(p, xs, i) && !Meets(p, xs, xs[i], j);
      }
    }
    if DistinctMod(p, xs) {
      DistinctInvertible(p, xs);
    }
  }

  lemma DistinctInvertible(p: int, xs: seq<int>)
    requires IsPrime(p) && DistinctMod(p, xs)
    ensures Invertible(p, xs, |xs|)
  {
    forall i | 0 <= i < |xs| ensures HasInverse(p, xs, i) {
      DistinctMeetNowhere(p, xs, i);
      DenominatorInvertible(p, xs, i);
      ModMod(p, DiffProduct(xs[i], Others(xs, i, |xs|)));
      InverseExists(DiffProduct(xs[i], Others(xs, i, |xs|)) % p, p);
    }
  }

  lemma DistinctMeetNowhere(p: int, xs: seq<int>, i: nat)
    requires p > 0 && DistinctMod(p, xs) && i < |xs|
    ensures forall j :: j != i ==> !Meets(p, xs, xs[i], j)
  {
    forall j | j != i ensures !Meets(p, xs, xs[i], j) {
      if 0 <= j < |xs| {
        ModNegate(p, xs[i] - xs[j]);
        assert xs[j] - xs[i] == -(xs[i] - xs[j]);
      }
    }
  }

  lemma BasisAtOwnPoint(p: int, xs: seq<int>, i: nat, y: int)
    requires p > 0 && i < |xs| && HasInverse(p, xs, i)
    ensures Eval(Basis(p, xs, i, y), xs[i]) % p == y % p
  {
    BasisEval(p, xs, i, y, xs[i]);
    UnitTimes(p, y, InverseDenominator(p, xs, i), DiffProduct(xs[i], Others(xs, i, |xs|)));
  }

  lemma OthersProductZero(xs: seq<int>, i: nat, j: nat)
    requires i < |xs| && j < |xs| && i != j
    ensures DiffProduct(xs[j], Others(xs, i, |xs|)) == 0
  {
    var k := if j < i then j else j - 1;
    OthersAt(xs, i, k);
    DiffProductZero(xs[j], Others(xs, i, |xs|), k);
  }

  lemma BasisAtOtherPoint(p: int, xs: seq<int>, i: nat, y: int, j: nat)
    requires p > 0 && i < |xs| && j < |xs| && i != j && HasInverse(p, xs, i)
    ensures Eval(Basis(p, xs, i, y), xs[j]) == 0
  {
    BasisEval(p, xs, i, y, xs[j]);
    OthersProductZero(xs, i, j);
  }

  lemma UnitTimes(p: int, y: int, inv: int, d: int)
    requires p > 0 && ((d % p) * inv) % p == 1 % p
    ensures (y * inv * d) % p == y % p
  {
    ModMod(p, d);
    ModMul(p, d, d % p, inv, inv);
    ModMul(p, y, y, d * inv, 1);
    assert y * inv * d == y * (d * inv);
  }

  /** The sum of the first `n` basis polynomials. */
  function Interpolate(p: int, xs: seq<int>, ys: seq<int>, n: nat): (f: Poly)
    requires p > 0 && |xs| == |ys| && n <= |xs| && Invertible(p, xs, n)
    ensures |f| <= |xs| && (n > 0 ==> |f| == |xs|)
  {
    if n == 0 then [] else Add(Interpolate(p, xs, ys, n - 1), Basis(p, xs, n - 1, ys[n - 1]))
  }

  lemma InterpolateEval(p: int, xs: seq<int>, ys: seq<int>, n: nat, x: int)
    requires p > 0 && |xs| == |ys| && 0 < n <= |xs| && Invertible(p, xs, n)
    ensures Eval(Interpolate(p, xs, ys, n), x)
         == Eval(Interpolate(p, xs, ys, n - 1), x) + Eval(Basis(p, xs, n - 1, ys[n - 1]), x)
  {
    EvalAdd(Interpolate(p, xs, ys, n - 1), Basis(p, xs, n - 1, ys[n - 1]), x);
  }

  lemma ZeroPlus(p: int, a: int, b: int, y: int)
    requires p > 0 && a % p == 0 && b % p == y % p
    ensures (a + b) % p == y % p
  {
    SmallMod(p, 0);
    ModAdd(p, a, 0, b, y);
  }

  lemma {:induction false} InterpolateAtPoints(p: int, xs: seq<int>, ys: seq<int>, n: nat, j: nat)
    requires p > 0 && |xs| == |ys| && n <= |xs| && Invertible(p, xs, n) && j < |xs|
    ensures Eval(Interpolate(p, xs, ys, n), xs[j]) % p == if j < n then ys[j] % p else 0
  {
    SmallMod(p, 0);
    if n > 0 {
      InterpolateAtPoints(p, xs, ys, n - 1, j);
      InterpolateEval(p, xs, ys, n, xs[j]);
      if j == n - 1 {
        BasisAtOwnPoint(p, xs, j, ys[j]);
        ZeroPlus(p, Eval(Interpolate(p, xs, ys, n - 1), xs[j]), Eval(Basis(p, xs, j, ys[j]), xs[j]), ys[j]);
      } else {
        BasisAtOtherPoint(p, xs, n - 1, ys[n - 1], j);
      }
    }
  }

  // ---------- Reduced coefficients ----------

  function Reduce(p: int, f: Poly): (r: Poly)
    requires p > 0
    ensures |r| == |f| && forall i :: 0 <= i < |f| ==> r[i] == f[i] % p && 0 <= r[i] < p
  {
    seq(|f|, i requires 0 <= i < |f| => f[i] % p)
  }

  lemma {:induction false} EvalReduce(p: int, f: Poly, x: int)
    requires p > 0
    ensures Agree(p, Reduce(p, f), f, x)
  {
    if |f| > 0 {
      EvalReduce(p, f[1..], x);
      assert Reduce(p, f)[1..] == Reduce(p, f[1..]);
      ModMod(p, f[0]);
      ModMul(p, x, x, Eval(Reduce(p, f)[1..], x), Eval(f[1..], x));
      ModAdd(p, f[0] % p, f[0], x * Eval(Reduce(p, f)[1..], x), x * Eval(f[1..], x));
    }
  }

  lemma EvalAtZero(f: Poly)
    requires |f| > 0
    ensures Eval(f, 0) == f[0]
  {
    assert 0 * Eval(f[1..], 0) == 0;
  }
}
