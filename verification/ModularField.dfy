/** Residues modulo a prime: the extended Euclid of the key splitter and the field laws its
    correctness needs. Congruence modulo `p` is written `a % p == b % p`. */
module ModularField {
  import opened ByteStrings

  ghost predicate Divides(d: int, n: int)
    requires d > 0
  {
    n % d == 0
  }

  ghost predicate IsPrime(p: int) {
    p >= 2 && forall d :: 1 < d < p ==> !Divides(d, p)
  }

  // ---------- Residues of sums and products ----------

  /** Multiplication by `p` distributes; stated alone so that no residue is in sight. */
  lemma Distribute(p: int, s: int, t: int)
    ensures p * (s + t) == p * s + p * t
    ensures p * (s - t) == p * s - p * t
  {
  }

  lemma MulAtLeast(p: int, k: int)
    requires p > 0 && k >= 1
    ensures p * k >= p
  {
  }

  /** Quotient and residue are unique. */
  lemma DivModUnique(p: int, n: int, q: int, r: int)
    requires p > 0 && 0 <= r < p && n == p * q + r
    ensures n % p == r && n / p == q
  {
    var q', r' := n / p, n % p;
    assert n == p * q' + r';
    Distribute(p, q, q');
    Distribute(p, q', q);
    if q > q' {
      MulAtLeast(p, q - q');
    } else if q < q' {
      MulAtLeast(p, q' - q);
    }
  }

  lemma ModMultiple(p: int, k: int, a: int)
    requires p > 0
    ensures (a + p * k) % p == a % p
  {
    Distribute(p, a / p, k);
    DivModUnique(p, a + p * k, a / p + k, a % p);
  }

  lemma SameResidue(p: int, a: int, b: int, k: int)
    requires p > 0 && a == b + p * k
    ensures a % p == b % p
  {
    ModMultiple(p, k, b);
  }

  /** Numbers with equal residues differ by a multiple. */
  lemma ModDifference(p: int, a: int, b: int) returns (k: int)
    requires p > 0 && a % p == b % p
    ensures a == b + p * k
  {
    k := a / p - b / p;
    Distribute(p, a / p, b / p);
    assert a == p * (a / p) + a % p && b == p * (b / p) + b % p;
  }

  lemma ModAdd(p: int, a: int, b: int, c: int, d: int)
    requires p > 0 && a % p == b % p && c % p == d % p
    ensures (a + c) % p == (b + d) % p
  {
    var s := ModDifference(p, a, b);
    var t := ModDifference(p, c, d);
    Distribute(p, s, t);
    SameResidue(p, a + c, b + d, s + t);
  }

  lemma ModSub(p: int, a: int, b: int, c: int, d: int)
    requires p > 0 && a % p == b % p && c % p == d % p
    ensures (a - c) % p == (b - d) % p
  {
    var s := ModDifference(p, a, b);
    var t := ModDifference(p, c, d);
    Distribute(p, s, t);
    SameResidue(p, a - c, b - d, s - t);
  }

  lemma ModMul(p: int, a: int, b: int, c: int, d: int)
    requires p > 0 && a % p == b % p && c % p == d % p
    ensures (a * c) % p == (b * d) % p
  {
    var s := ModDifference(p, a, b);
    var t := ModDifference(p, c, d);
    ProductOfShifted(p, b, s, d, t);
    SameResidue(p, a * c, b * d, b * t + s * c);
  }

  lemma ProductOfShifted(p: int, b: int, s: int, d: int, t: int)
    ensures (b + p * s) * (d + p * t) == b * d + p * (b * t + s * (d + p * t))
  {
    var c := d + p * t;
    assert (b + p * s) * c == b * c + (p * s) * c;
    assert b * c == b * d + b * (p * t);
    assert b * (p * t) == p * (b * t);
    assert (p * s) * c == p * (s * c);
    Distribute(p, b * t, s * c);
  }

  lemma ModMod(p: int, a: int)
    requires p > 0
    ensures a % p % p == a % p
  {
    DivModUnique(p, a % p, 0, a % p);
  }

  lemma SmallMod(p: int, a: int)
    requires 0 <= a < p
    ensures a % p == a
  {
    DivModUnique(p, a, 0, a);
  }

  /** Equal residues are a difference divisible by `p`. */
  lemma CongruentIff(p: int, a: int, b: int)
    requires p > 0
    ensures a % p == b % p <==> (a - b) % p == 0
  {
    SmallMod(p, 0);
    if a % p == b % p {
      ModSub(p, a, b, b, b);
    }
    if (a - b) % p == 0 {
      ModAdd(p, a - b, 0, b, b);
    }
  }

  lemma ModNegate(p: int, a: int)
    requires p > 0
    ensures a % p == 0 <==> (-a) % p == 0
  {
    CongruentIff(p, 0, a);
    CongruentIff(p, 0, -a);
    SmallMod(p, 0);
  }

  // ---------- Extended Euclid ----------

  /** `_extended_gcd`: a recursion on `(b % a, a)` that carries Bezout coefficients back up. */
  function ExtendedGcd(a: nat, b: nat): (r: (int, int, int))
    ensures a * r.1 + b * r.2 == r.0
    decreases a
  {
    if a == 0 then (b, 0, 1)
    else
      var (g, x1, y1) := ExtendedGcd(b % a, a);
      BezoutStep(a, b, x1, y1);
      (g, y1 - (b / a) * x1, x1)
  }

  lemma BezoutStep(a: nat, b: nat, x: int, y: int)
    requires a > 0
    ensures a * (y - (b / a) * x) + b * x == (b % a) * x + a * y
  {
    assert b == a * (b / a) + b % a;
    assert b * x == a * ((b / a) * x) + (b % a) * x;
  }

  /** The first component is the greatest common divisor: it divides both arguments and, by
      Bezout, every common divisor divides it. */
  lemma {:induction false} ExtendedGcdIsGcd(a: nat, b: nat)
    requires a > 0 || b > 0
    ensures var g := ExtendedGcd(a, b).0;
      && g > 0 && Divides(g, a) && Divides(g, b)
      && forall d :: d > 0 && Divides(d, a) && Divides(d, b) ==> Divides(d, g)
    decreases a
  {
    var (g, x, y) := ExtendedGcd(a, b);
    if a > 0 {
      ExtendedGcdIsGcd(b % a, a);
      DividesRest(g, a, b);
    } else {
      assert g == b;
    }
    forall d | d > 0 && Divides(d, a) && Divides(d, b) ensures Divides(d, g) {
      DividesCombination(d, a, b, x, y);
    }
  }

  /** A divisor of `a` and of `b % a` divides `b`. */
  lemma DividesRest(g: int, a: nat, b: nat)
    requires g > 0 && a > 0 && Divides(g, a) && Divides(g, b % a)
    ensures Divides(g, b)
  {
    ModMul(g, a, 0, b / a, b / a);
    ModAdd(g, a * (b / a), 0, b % a, 0);
    assert b == a * (b / a) + b % a;
  }

  lemma DividesCombination(d: int, a: int, b: int, x: int, y: int)
    requires d > 0 && Divides(d, a) && Divides(d, b)
    ensures Divides(d, a * x + b * y)
  {
    ModMul(d, a, 0, x, x);
    ModMul(d, b, 0, y, y);
    ModAdd(d, a * x, 0, b * y, 0);
  }

  /** `_mod_inverse`: `None` is the error "Modular inverse does not exist". */
  function ModInverse(a: int, p: int): (r: Option<nat>)
    requires p > 0
    ensures r.Some? ==> r.value < p && (a * r.value) % p == 1 % p
  {
    var a' := if a < 0 then a % p else a;
    ModMod(p, a);
    var (g, x, y) := ExtendedGcd(a', p);
    if g != 1 then None
    else
      InverseFromBezout(a, a', x, y, p);
      Some(x % p)
  }

  lemma InverseFromBezout(a: int, a': int, x: int, y: int, p: int)
    requires p > 0 && a' * x + p * y == 1 && a' % p == a % p
    ensures (a * (x % p)) % p == 1 % p
  {
    ModMod(p, x);
    ModMul(p, a, a', x % p, x);
    ModMultiple(p, -y, 1);
    assert a' * x == 1 + p * (-y);
  }

  /** Over a prime modulus exactly the multiples of the modulus have no inverse. */
  lemma InverseExists(a: int, p: int)
    requires IsPrime(p)
    ensures ModInverse(a, p).None? <==> a % p == 0
  {
    var a' := if a < 0 then a % p else a;
    ModMod(p, a);
    var (g, x, y) := ExtendedGcd(a', p);
    ExtendedGcdIsGcd(a', p);
    assert g <= p by {
      if g > p {
        SmallMod(g, p);
      }
    }
    if a % p == 0 {
      SmallMod(p, 0);
      assert Divides(p, a') && Divides(p, p);
      assert Divides(p, g);
      assert g != 1 by {
        if g == 1 { SmallMod(p, 1); }
      }
    } else if g == p {
      assert false;
    }
  }

  // ---------- A prime modulus has no zero divisors ----------

  lemma NoZeroDivisors(p: int, a: int, b: int)
    requires IsPrime(p) && (a * b) % p == 0
    ensures a % p == 0 || b % p == 0
  {
    if a % p != 0 {
      InverseExists(a, p);
      var i := ModInverse(a, p).value;
      ModMul(p, a * i, 1, b, b);
      ModMul(p, a * b, 0, i, i);
      assert (a * i) * b == (a * b) * i;
      assert 1 * b == b && 0 * i == 0;
      SmallMod(p, 0);
    }
  }

  /** Cancelling an invertible factor. */
  lemma CancelFactor(p: int, c: int, a: int, b: int)
    requires IsPrime(p) && c % p != 0 && (c * a) % p == (c * b) % p
    ensures a % p == b % p
  {
    CongruentIff(p, c * a, c * b);
    assert c * a - c * b == c * (a - b);
    NoZeroDivisors(p, c, a - b);
    CongruentIff(p, a, b);
  }
}
