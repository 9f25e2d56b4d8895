/** Integer alignment, greatest common divisor and least common multiple.
    Division and remainder follow C++: the quotient is truncated toward
    zero, so the remainder takes the sign of the dividend. */
module IntegerTools {

  /** C++ integer division: truncated toward zero. */
  function TDiv(v: int, a: int): (q: int)
    requires a != 0
  {
    var q := (if v < 0 then -v else v) / (if a < 0 then -a else a);
    if (v < 0) != (a < 0) then -q else q
  }

  /** C++ remainder: v == TDiv(v, a) * a + TMod(v, a). */
  function TMod(v: int, a: int): (r: int)
    requires a != 0
  {
    v - TDiv(v, a) * a
  }

  /** The remainder is smaller than the divisor in magnitude and is zero
      or has the dividend's sign. */
  lemma TModBounds(v: int, a: int)
    requires a != 0
    ensures v == TDiv(v, a) * a + TMod(v, a)
    ensures (if TMod(v, a) < 0 then -TMod(v, a) else TMod(v, a)) < (if a < 0 then -a else a)
    ensures v >= 0 ==> TMod(v, a) >= 0
    ensures v <= 0 ==> TMod(v, a) <= 0
  {
    var av := if v < 0 then -v else v;
    var aa := if a < 0 then -a else a;
    var q := av / aa;
    assert av == q * aa + av % aa;
    if v < 0 && a < 0 {
      assert TDiv(v, a) * a == -(q * aa);
    } else if v < 0 {
      assert TDiv(v, a) * a == -(q * aa);
    } else if a < 0 {
      assert TDiv(v, a) * a == q * aa;
    } else {
      assert TDiv(v, a) * a == q * aa;
    }
  }

  /** The C++ remainder is zero exactly when Dafny's is. */
  lemma TModZeroIff(v: int, a: int)
    requires a != 0
    ensures TMod(v, a) == 0 <==> v % a == 0
  {
    TModBounds(v, a);
    var m := TMod(v, a);
    var q := TDiv(v, a);
    if m == 0 {
      assert v == q * a;
      MulMod(q, a);
    } else {
      assert v == (v / a) * a + v % a;
      if v % a == 0 {
        assert (q - v / a) * a == -m by {
          assert q * a - (v / a) * a == -m;
        }
        NoSmallMultiple(q - v / a, a, -m);
      }
    }
  }

  lemma MulMod(q: int, a: int)
    requires a != 0
    ensures (q * a) % a == 0
  {
    var r := (q * a) % a;
    var d := (q * a) / a;
    assert q * a == d * a + r;
    assert (q - d) * a == r;
    NoSmallMultiple(q - d, a, r);
  }

  /** A nonzero multiple of a is at least |a| in magnitude. */
  lemma MulMagnitude(k: int, a: int)
    ensures k != 0 ==> (if k * a < 0 then -(k * a) else k * a) >= (if a < 0 then -a else a)
  {
    var ak := if k < 0 then -k else k;
    var aa := if a < 0 then -a else a;
    MulGrows(ak, aa);
    assert (if k * a < 0 then -(k * a) else k * a) == ak * aa;
  }

  lemma {:induction false} MulGrows(k: nat, a: nat)
    ensures k > 0 ==> k * a >= a
    decreases k
  {
    if k > 1 {
      MulGrows(k - 1, a);
      assert k * a == (k - 1) * a + a;
    }
  }

  lemma NoSmallMultiple(k: int, a: int, m: int)
    requires a != 0 && k * a == m
    requires (if m < 0 then -m else m) < (if a < 0 then -a else a)
    ensures m == 0
  {
    MulMagnitude(k, a);
  }

  /** aligned: every value is 0-aligned; otherwise the remainder is zero. */
  function Aligned(v: int, alignment: int): bool {
    alignment == 0 || TMod(v, alignment) == 0
  }

  /** A value is aligned iff alignment is 0 or the value is one of its
      multiples. */
  lemma AlignedIff(v: int, alignment: int)
    ensures Aligned(v, alignment) <==> (alignment == 0 || v % alignment == 0)
  {
    if alignment != 0 {
      TModZeroIff(v, alignment);
    }
  }

  /** floor: round down to a multiple of the alignment. */
  function Floor(v: int, alignment: int): (r: int) {
    if alignment == 0 then v
    else
      var result := TDiv(v, alignment) * alignment;
      if result == v then result else if v < 0 then result - alignment else result
  }

  /** ceil: round up to a multiple of the alignment. */
  function Ceil(v: int, alignment: int): (r: int) {
    var result := Floor(v, alignment);
    if result != v then result + alignment else result
  }

  /** strictInfimum: the multiple of the alignment just below v. */
  function StrictInfimum(v: int, alignment: int): (r: int) {
    var result := Floor(v, alignment);
    if result == v then result - alignment else result
  }

  /** For a positive alignment, floor is the largest multiple not above v,
      negative v included. */
  lemma FloorIsLargestMultipleBelow(v: int, a: int)
    requires a > 0
    ensures Floor(v, a) % a == 0
    ensures Floor(v, a) <= v < Floor(v, a) + a
  {
    TModBounds(v, a);
    MulMod(TDiv(v, a), a);
    var result := TDiv(v, a) * a;
    if result != v && v < 0 {
      assert result - a == (TDiv(v, a) - 1) * a;
      MulMod(TDiv(v, a) - 1, a);
    }
  }

  lemma FloorZero(v: int)
    ensures Floor(v, 0) == v && Ceil(v, 0) == v && StrictInfimum(v, 0) == v
  {
  }

  /** For a positive alignment, ceil is the smallest multiple not below v. */
  lemma CeilIsSmallestMultipleAbove(v: int, a: int)
    requires a > 0
    ensures Ceil(v, a) % a == 0
    ensures Ceil(v, a) - a < v <= Ceil(v, a)
  {
    FloorIsLargestMultipleBelow(v, a);
    var f := Floor(v, a);
    if f != v {
      assert f + a == (f / a + 1) * a;
      MulMod(f / a + 1, a);
    }
  }

  /** For a positive alignment, strictInfimum is the largest multiple
      strictly below v. */
  lemma StrictInfimumIsLargestMultipleStrictlyBelow(v: int, a: int)
    requires a > 0
    ensures StrictInfimum(v, a) % a == 0
    ensures StrictInfimum(v, a) < v <= StrictInfimum(v, a) + a
  {
    FloorIsLargestMultipleBelow(v, a);
    var f := Floor(v, a);
    if f == v {
      assert f - a == (f / a - 1) * a;
      MulMod(f / a - 1, a);
    }
  }

  // ---------------------------------------------------------------------
  // gcd and lcm, on non-negative integers.

  predicate Divides(d: nat, n: nat) {
    if d == 0 then n == 0 else n % d == 0
  }

  /** Euclid's algorithm, larger argument first. */
  function Gcd(a: nat, b: nat): (r: nat)
    ensures Divides(r, a) && Divides(r, b)
    decreases if a < b then a else b, if a < b then 1 else 0
  {
    if a < b then Gcd(b, a)
    else if b == 0 then
      assert Divides(a, a) by { if a > 0 { MulMod(1, a); } }
      a
    else
      var r := Gcd(b, a % b);
      EuclidStep(r, a, b);
      r
  }

  /** A divisor of b and of a % b divides a. */
  lemma EuclidStep(d: nat, a: nat, b: nat)
    requires b > 0 && Divides(d, b) && Divides(d, a % b)
    ensures Divides(d, a)
  {
    DivisionIdentity(a, b);
    DividesCombination(d, b, a % b, a / b);
  }

  lemma DivisionIdentity(a: nat, b: nat)
    requires b > 0
    ensures a == (a / b) * b + a % b
  {
  }

  /** d divides q*x + y when it divides x and y. */
  lemma DividesCombination(d: nat, x: nat, y: nat, q: nat)
    requires Divides(d, x) && Divides(d, y)
    ensures Divides(d, q * x + y)
  {
    if d > 0 {
      var s := x / d;
      var t := y / d;
      assert x == s * d && y == t * d;
      assert q * x + y == (q * s + t) * d;
      MulMod(q * s + t, d);
    }
  }

  /** Every common divisor of a and b divides Gcd(a, b): it is the
      greatest. */
  lemma {:induction false} GcdGreatest(a: nat, b: nat, d: nat)
    requires Divides(d, a) && Divides(d, b)
    ensures Divides(d, Gcd(a, b))
    decreases if a < b then a else b, if a < b then 1 else 0
  {
    if a < b {
      GcdGreatest(b, a, d);
    } else if b != 0 {
      if d > 0 {
        var s := a / d;
        var t := b / d;
        assert a == s * d && b == t * d;
        var q := a / b;
        assert a % b == a - q * b;
        assert a % b == (s - q * t) * d;
        MulMod(s - q * t, d);
      }
      GcdGreatest(b, a % b, d);
    }
  }

  lemma GcdSymmetric(a: nat, b: nat)
    ensures Gcd(a, b) == Gcd(b, a) && Gcd(a, 0) == a && Gcd(0, a) == a
  {
  }

  /** lcm: a when the two are equal (0 included), else a*b/gcd. */
  function Lcm(a: nat, b: nat): (r: nat)
    ensures Divides(a, r) && Divides(b, r)
    ensures r == 0 <==> (a == 0 || b == 0)
  {
    if a == b then
      assert Divides(a, a) by { if a > 0 { MulMod(1, a); } }
      a
    else
      var g := Gcd(a, b);
      assert g > 0;
      LcmDivisible(a, b, g);
      a * b / g
  }

  lemma LcmDivisible(a: nat, b: nat, g: nat)
    requires g > 0 && Divides(g, a) && Divides(g, b)
    ensures Divides(a, a * b / g) && Divides(b, a * b / g)
    ensures a * b / g == 0 <==> (a == 0 || b == 0)
    ensures g * (a * b / g) == a * b
  {
    var x := a / g;
    var y := b / g;
    assert a == x * g && b == y * g;
    assert a * b == (a * y) * g;
    assert a * b / g == a * y by {
      MulDiv(a * y, g);
    }
    assert a * y == x * b;
    if a > 0 { MulMod(y, a); }
    if b > 0 { MulMod(x, b); }
    if a > 0 && b > 0 {
      assert y > 0;
      assert a * y > 0;
    }
  }

  lemma MulDiv(k: nat, g: nat)
    requires g > 0
    ensures (k * g) / g == k
  {
    var d := (k * g) / g;
    var r := (k * g) % g;
    assert k * g == d * g + r;
    assert (k - d) * g == r;
    NoSmallMultiple(k - d, g, r);
    assert (k - d) * g == 0;
  }

  /** Gcd and Lcm together give the product. */
  lemma GcdLcmProduct(a: nat, b: nat)
    ensures Gcd(a, b) * Lcm(a, b) == a * b || a == b
  {
    if a != b {
      LcmDivisible(a, b, Gcd(a, b));
    }
  }

  /** Division by d > 0 has one quotient and one remainder. */
  lemma DivModUnique(n: nat, d: nat, q: nat, r: nat)
    requires d > 0 && n == q * d + r && r < d
    ensures n / d == q && n % d == r
  {
    var q' := n / d;
    var r' := n % d;
    assert n == q' * d + r';
    assert (q - q') * d == r' - r;
    NoSmallMultiple(q - q', d, r' - r);
    assert q * d == q' * d;
    MulDiv(q, d);
    MulDiv(q', d);
  }

  /** Scaling both arguments scales their gcd. */
  lemma {:induction false} GcdMul(k: nat, a: nat, b: nat)
    ensures Gcd(k * a, k * b) == k * Gcd(a, b)
    decreases if a < b then a else b, if a < b then 1 else 0
  {
    if k == 0 {
      assert k * a == 0 && k * b == 0;
    } else if a < b {
      assert k * a < k * b;
      GcdMul(k, b, a);
    } else if b == 0 {
      assert k * b == 0;
    } else {
      var q := a / b;
      var r := a % b;
      assert a == q * b + r;
      assert k * a == q * (k * b) + k * r;
      assert k * r < k * b;
      assert k * a >= k * b;
      DivModUnique(k * a, k * b, q, k * r);
      GcdMul(k, b, r);
    }
  }

  /** Euclid's lemma: y divides s when it divides x * s and is coprime
      to x. */
  lemma CoprimeDivides(x: nat, y: nat, s: nat)
    requires Gcd(x, y) == 1 && Divides(y, x * s)
    ensures Divides(y, s)
  {
    GcdMul(s, x, y);
    assert s * x == x * s;
    assert Divides(y, s * y) by {
      if y > 0 { MulMod(s, y); }
    }
    GcdGreatest(s * x, s * y, y);
  }

  /** Dividing a and b by their gcd leaves coprime quotients. */
  lemma CoprimeQuotients(a: nat, b: nat)
    requires a > 0 && b > 0
    ensures Gcd(a, b) > 0
    ensures a == (a / Gcd(a, b)) * Gcd(a, b) && b == (b / Gcd(a, b)) * Gcd(a, b)
    ensures Gcd(a / Gcd(a, b), b / Gcd(a, b)) == 1
  {
    var g := Gcd(a, b);
    ExactQuotient(g, a);
    ExactQuotient(g, b);
    CoprimeFactors(a, b, g, a / g, b / g);
  }

  lemma CoprimeFactors(a: nat, b: nat, g: nat, x: nat, y: nat)
    requires g > 0 && a == g * x && b == g * y && Gcd(a, b) == g
    ensures Gcd(x, y) == 1
  {
    GcdMul(g, x, y);
    assert Gcd(x, y) * g == 1 * g;
    MulCancel(Gcd(x, y), 1, g);
  }

  lemma MulCancel(p: nat, q: nat, g: nat)
    requires g > 0 && p * g == q * g
    ensures p == q
  {
    MulDiv(p, g);
    MulDiv(q, g);
  }

  /** For unequal positive arguments, Lcm(a, b) is a times b's quotient
      by the gcd. */
  lemma LcmQuotient(a: nat, b: nat, g: nat, y: nat)
    requires a != b && a > 0 && b > 0
    requires g == Gcd(a, b) && g > 0 && b == y * g
    ensures Lcm(a, b) == a * y
  {
    assert Lcm(a, b) == a * b / g;
    MulAssoc(a, y, g);
    MulDiv(a * y, g);
  }

  lemma MulAssoc(a: nat, y: nat, g: nat)
    ensures a * (y * g) == (a * y) * g
  {
  }

  /** Cancelling the common factor g of two multiples. */
  lemma CancelFactor(x: nat, y: nat, g: nat, s: nat, t: nat)
    requires g > 0 && (x * g) * s == (y * g) * t
    ensures x * s == y * t
  {
    assert (x * g) * s == (x * s) * g;
    assert (y * g) * t == (y * t) * g;
    MulCancel(x * s, y * t, g);
  }

  /** a * s is a multiple of a * y when s is a multiple of y. */
  lemma MultipleOfProduct(a: nat, y: nat, s: nat)
    requires a > 0 && y > 0 && Divides(y, s)
    ensures Divides(a * y, a * s)
  {
    var u := s / y;
    assert s == u * y;
    assert a * s == u * (a * y);
    MulMod(u, a * y);
  }

  lemma ExactQuotient(d: nat, n: nat)
    requires d > 0 && Divides(d, n)
    ensures n == d * (n / d)
  {
  }

  /** With a = x * g and b = y * g for coprime x and y, a common multiple
      of a and b is a multiple of a * y. */
  lemma CommonMultiple(a: nat, b: nat, g: nat, x: nat, y: nat, m: nat)
    requires g > 0 && a == x * g && b == y * g && a > 0 && b > 0
    requires Gcd(x, y) == 1 && Divides(a, m) && Divides(b, m)
    ensures Divides(a * y, m)
  {
    var s := m / a;
    var t := m / b;
    ExactQuotient(a, m);
    ExactQuotient(b, m);
    assert (x * g) * s == (y * g) * t;
    CancelFactor(x, y, g, s, t);
    assert y > 0;
    assert Divides(y, x * s) by {
      assert x * s == t * y;
      MulMod(t, y);
    }
    CoprimeDivides(x, y, s);
    MultipleOfProduct(a, y, s);
  }

  /** Lcm(a, b) divides every common multiple of a and b: it is the
      least. */
  lemma LcmLeast(a: nat, b: nat, m: nat)
    requires Divides(a, m) && Divides(b, m)
    ensures Divides(Lcm(a, b), m)
  {
    if a != b && a > 0 && b > 0 {
      CoprimeQuotients(a, b);
      var g := Gcd(a, b);
      LcmQuotient(a, b, g, b / g);
      CommonMultiple(a, b, g, a / g, b / g, m);
    }
  }

  // ---------------------------------------------------------------------
  // Vector folds.

  /** gcd of a vector: 0 for none, the element for one, else a left fold. */
  function GcdAll(c: seq<nat>): nat {
    if |c| == 0 then 0
    else if |c| == 1 then c[0]
    else Gcd(GcdAll(c[..|c| - 1]), c[|c| - 1])
  }

  function LcmAll(c: seq<nat>): nat {
    if |c| == 0 then 0
    else if |c| == 1 then c[0]
    else Lcm(LcmAll(c[..|c| - 1]), c[|c| - 1])
  }

  method GcdVector(c: seq<nat>) returns (result: nat)
    ensures result == GcdAll(c)
  {
    if |c| == 0 {
      return 0;
    }
    if |c| == 1 {
      return c[0];
    }
    result := Gcd(c[0], c[1]);
    assert c[..2][..1] == [c[0]];
    for i := 2 to |c|
      invariant result == GcdAll(c[..i])
    {
      assert c[..i + 1][..i] == c[..i];
      result := Gcd(result, c[i]);
    }
    assert c[..|c|] == c;
  }

  method LcmVector(c: seq<nat>) returns (result: nat)
    ensures result == LcmAll(c)
  {
    if |c| == 0 {
      return 0;
    }
    if |c| == 1 {
      return c[0];
    }
    result := Lcm(c[0], c[1]);
    assert c[..2][..1] == [c[0]];
    for i := 2 to |c|
      invariant result == LcmAll(c[..i])
    {
      assert c[..i + 1][..i] == c[..i];
      result := Lcm(result, c[i]);
    }
    assert c[..|c|] == c;
  }

  lemma DividesTransitive(x: nat, y: nat, z: nat)
    requires Divides(x, y) && Divides(y, z)
    ensures Divides(x, z)
  {
    if x > 0 && y > 0 {
      var s := y / x;
      var t := z / y;
      assert y == s * x && z == t * y;
      assert z == (t * s) * x;
      MulMod(t * s, x);
    } else if y == 0 {
      assert z == 0;
      if x > 0 { MulMod(0, x); }
    }
  }

  /** The gcd of a vector divides every element, and every common divisor
      of the elements divides it. */
  lemma {:induction false} GcdAllCorrect(c: seq<nat>, d: nat)
    ensures forall i :: 0 <= i < |c| ==> Divides(GcdAll(c), c[i])
    ensures (forall i :: 0 <= i < |c| ==> Divides(d, c[i])) ==> Divides(d, GcdAll(c))
  {
    if |c| == 1 {
      if c[0] > 0 { MulMod(1, c[0]); }
    } else if |c| == 0 {
      if d > 0 { MulMod(0, d); }
    } else {
      var init := c[..|c| - 1];
      GcdAllCorrect(init, d);
      var g := GcdAll(init);
      forall i | 0 <= i < |c| ensures Divides(GcdAll(c), c[i]) {
        if i < |c| - 1 {
          assert c[i] == init[i];
          DividesTransitive(GcdAll(c), g, c[i]);
        }
      }
      if forall i :: 0 <= i < |c| ==> Divides(d, c[i]) {
        assert forall i :: 0 <= i < |init| ==> Divides(d, init[i]) by {
          forall i | 0 <= i < |init| ensures Divides(d, init[i]) {
            assert init[i] == c[i];
          }
        }
        GcdGreatest(g, c[|c| - 1], d);
      }
    }
  }

  /** Every element of a vector divides its lcm. */
  lemma {:induction false} LcmAllMultiple(c: seq<nat>)
    ensures forall i :: 0 <= i < |c| ==> Divides(c[i], LcmAll(c))
  {
    if |c| == 1 {
      if c[0] > 0 { MulMod(1, c[0]); }
    } else if |c| > 1 {
      var init := c[..|c| - 1];
      LcmAllMultiple(init);
      forall i | 0 <= i < |c| - 1 ensures Divides(c[i], LcmAll(c)) {
        assert c[i] == init[i];
        DividesTransitive(c[i], LcmAll(init), LcmAll(c));
      }
    }
  }

  /** The lcm of a non-empty vector divides every common multiple of its
      elements. The empty vector's lcm is 0, which divides only 0. */
  lemma {:induction false} LcmAllLeast(c: seq<nat>, m: nat)
    requires forall i :: 0 <= i < |c| ==> Divides(c[i], m)
    ensures |c| > 0 ==> Divides(LcmAll(c), m)
  {
    if |c| > 1 {
      var init := c[..|c| - 1];
      assert forall i :: 0 <= i < |init| ==> Divides(init[i], m) by {
        forall i | 0 <= i < |init| ensures Divides(init[i], m) {
          assert init[i] == c[i];
        }
      }
      LcmAllLeast(init, m);
      LcmLeast(LcmAll(init), c[|c| - 1], m);
    }
  }
}
