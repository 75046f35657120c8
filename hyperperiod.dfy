/** The hyper-period: the least common multiple of all task periods, obtained
    by folding `abs(a * b) // gcd(a, b)` over the period list. */
module HyperPeriod {

  /** `d` is a positive divisor of `m`. */
  predicate Divides(d: int, m: int) {
    d > 0 && m % d == 0
  }

  /** `m` is a multiple of every period in `ps`. */
  predicate CommonMultiple(ps: seq<int>, m: int) {
    forall i :: 0 <= i < |ps| ==> Divides(ps[i], m)
  }

  /** `l` is the least common multiple of `ps`: a positive common multiple
      that divides every positive common multiple. */
  ghost predicate IsLcm(ps: seq<int>, l: int) {
    && l > 0
    && CommonMultiple(ps, l)
    && forall m :: m > 0 && CommonMultiple(ps, m) ==> Divides(l, m)
  }

  function Abs(x: int): int {
    if x < 0 then -x else x
  }

  /** Euclid's algorithm: the value of Python's `math.gcd` on non-negative
      arguments. It is positive as soon as one argument is. */
  function Gcd(a: nat, b: nat): (g: nat)
    ensures a > 0 || b > 0 ==> g > 0
    decreases b
  {
    if b == 0 then a else Gcd(b, a % b)
  }

  /** One step of the fold in `computeHyperPeriod`: `abs(a * b) // gcd(a, b)`
      is a positive common multiple of `a` and `b` that divides every other. */
  function Lcm(a: int, b: int): (l: int)
    requires a > 0 && b > 0
    ensures l > 0 && Divides(a, l) && Divides(b, l)
    ensures forall m :: m > 0 && Divides(a, m) && Divides(b, m) ==> Divides(l, m)
  {
    LcmFacts(a, b);
    Abs(a * b) / Gcd(a, b)
  }

  /** `computeHyperPeriod`: the running `accum` starts at the first period and
      is combined with each following period. The result is the least common
      multiple of the whole list, so no smaller positive value is divisible by
      every period. */
  method ComputeHyperPeriod(periodsList: seq<int>) returns (accum: int)
    requires |periodsList| > 0
    requires forall i :: 0 <= i < |periodsList| ==> periodsList[i] > 0
    ensures IsLcm(periodsList, accum)
    ensures forall m :: 0 < m < accum ==> !CommonMultiple(periodsList, m)
  {
    accum := periodsList[0];
    assert IsLcm(periodsList[..1], accum) by {
      DividesMultiple(accum, 1);
      forall m | m > 0 && CommonMultiple(periodsList[..1], m)
        ensures Divides(accum, m)
      {
        assert periodsList[..1][0] == accum;
      }
    }
    for i := 1 to |periodsList|
      invariant IsLcm(periodsList[..i], accum)
    {
      var value := periodsList[i];
      LcmStep(periodsList[..i], accum, value);
      assert periodsList[..i] + [value] == periodsList[..i + 1];
      accum := Lcm(accum, value);
    }
    assert periodsList[..|periodsList|] == periodsList;
    forall m | 0 < m < accum
      ensures !CommonMultiple(periodsList, m)
    {
      if CommonMultiple(periodsList, m) {
        DividesBound(accum, m);
      }
    }
  }

  /** Combining the least common multiple of a list with one more period gives
      the least common multiple of the extended list. */
  lemma LcmStep(ps: seq<int>, accum: int, p: int)
    requires IsLcm(ps, accum) && p > 0
    ensures IsLcm(ps + [p], Lcm(accum, p))
  {
    var l := Lcm(accum, p);
    var qs := ps + [p];
    forall i | 0 <= i < |qs|
      ensures Divides(qs[i], l)
    {
      if i < |ps| {
        DividesTransitive(ps[i], accum, l);
      }
    }
    forall m | m > 0 && CommonMultiple(qs, m)
      ensures Divides(l, m)
    {
      assert CommonMultiple(ps, m) by {
        forall i | 0 <= i < |ps| ensures Divides(ps[i], m) {
          assert qs[i] == ps[i];
        }
      }
      assert qs[|ps|] == p;
    }
  }

  /** The least common multiple is unique, so the hyper-period does not depend
      on the order in which the periods are combined. */
  lemma LcmUnique(ps: seq<int>, qs: seq<int>, x: int, y: int)
    requires IsLcm(ps, x) && IsLcm(qs, y)
    requires forall i :: 0 <= i < |ps| ==> ps[i] in qs
    requires forall j :: 0 <= j < |qs| ==> qs[j] in ps
    ensures x == y
  {
    assert CommonMultiple(qs, x) by {
      forall j | 0 <= j < |qs| ensures Divides(qs[j], x) {
        var i :| 0 <= i < |ps| && ps[i] == qs[j];
      }
    }
    assert CommonMultiple(ps, y) by {
      forall i | 0 <= i < |ps| ensures Divides(ps[i], y) {
        var j :| 0 <= j < |qs| && qs[j] == ps[i];
      }
    }
    DividesBound(x, y);
    DividesBound(y, x);
  }

  // ---- the greatest common divisor ----

  /** `Gcd(a, b)` divides both arguments. */
  lemma {:induction false} GcdDivides(a: nat, b: nat)
    requires a > 0 || b > 0
    ensures Divides(Gcd(a, b), a) && Divides(Gcd(a, b), b)
    decreases b
  {
    if b == 0 {
      DividesMultiple(a, 0);
      DividesMultiple(a, 1);
    } else {
      GcdDivides(b, a % b);
      var g := Gcd(b, a % b);
      assert a == b * (a / b) + a % b;
      DividesLinear(g, b, a % b, a / b);
    }
  }

  /** Every common positive divisor of `a` and `b` divides `Gcd(a, b)`. */
  lemma {:induction false} GcdGreatest(a: nat, b: nat, d: int)
    requires Divides(d, a) && Divides(d, b)
    ensures Divides(d, Gcd(a, b))
    decreases b
  {
    if b != 0 {
      DividesLinear(d, b, a, -(a / b));
      assert b * -(a / b) + a == a % b;
      GcdGreatest(b, a % b, d);
    }
  }

  /** Scaling both arguments by `k` scales their greatest common divisor by `k`. */
  lemma {:induction false} GcdScale(a: nat, b: nat, k: nat)
    requires k > 0
    ensures Gcd(k * a, k * b) == k * Gcd(a, b)
    decreases b
  {
    if b == 0 {
      assert k * b == 0;
    } else {
      ModScale(a, b, k);
      GcdScale(b, a % b, k);
    }
  }

  // ---- the least common multiple of two numbers ----

  lemma LcmFacts(a: int, b: int)
    requires a > 0 && b > 0
    ensures Abs(a * b) / Gcd(a, b) > 0
    ensures Divides(a, Abs(a * b) / Gcd(a, b)) && Divides(b, Abs(a * b) / Gcd(a, b))
    ensures forall m :: m > 0 && Divides(a, m) && Divides(b, m) ==> Divides(Abs(a * b) / Gcd(a, b), m)
  {
    var g := Gcd(a, b);
    GcdDivides(a, b);
    assert Abs(a * b) == a * b;
    QuotientOfProduct(a, b, g);
    QuotientOfProduct(b, a, g);
    PositiveQuotient(a, g);
    PositiveQuotient(b, g);
    var l := a * b / g;
    assert l == (a / g) * b;
    assert l == (b / g) * a;
    MulAtLeast(b, a / g);
    DividesMultiple(b, a / g);
    DividesMultiple(a, b / g);
    forall m | m > 0 && Divides(a, m) && Divides(b, m)
      ensures Divides(l, m)
    {
      LcmDividesCommonMultiple(a, b, m);
    }
  }

  /** Minimality: a * b divides both m * a and m * b, hence their greatest
      common divisor m * gcd(a, b); cancelling gcd(a, b) leaves lcm(a, b) | m. */
  lemma LcmDividesCommonMultiple(a: int, b: int, m: int)
    requires a > 0 && b > 0 && m > 0 && Divides(a, m) && Divides(b, m)
    ensures Divides(a * b / Gcd(a, b), m)
  {
    var g := Gcd(a, b);
    GcdDivides(a, b);
    ProductDividesScaled(a, b, m);
    MulAtLeast(m, a);
    MulAtLeast(m, b);
    GcdGreatest(m * a, m * b, a * b);
    GcdScale(a, b, m);
    assert Divides(a * b, m * g);
    QuotientOfProduct(a, b, g);
    PositiveQuotient(a, g);
    var l := (a / g) * b;
    MulAtLeast(b, a / g);
    CancelDivides(g, l, m);
  }

  lemma ProductDividesScaled(a: int, b: int, m: int)
    requires a > 0 && b > 0 && Divides(a, m) && Divides(b, m)
    ensures Divides(a * b, m * a) && Divides(a * b, m * b)
  {
    var s, t := m / a, m / b;
    assert m == a * s && m == b * t;
    assert m * b == (a * b) * s;
    assert m * a == (a * b) * t;
    MulAtLeast(a, b);
    DividesMultiple(a * b, s);
    DividesMultiple(a * b, t);
  }

  // ---- arithmetic facts about division and divisibility ----

  lemma MulAtLeast(d: int, k: int)
    requires d > 0 && k >= 1
    ensures d * k >= d
  {
  }

  /** Euclidean division is unique. */
  lemma DivModUnique(x: int, d: int, q: int, r: int)
    requires d > 0 && 0 <= r < d && x == d * q + r
    ensures x / d == q && x % d == r
  {
    var q', r' := x / d, x % d;
    assert x == d * q' + r';
    assert d * (q - q') == r' - r;
    if q > q' {
      MulAtLeast(d, q - q');
      assert false;
    } else if q < q' {
      MulAtLeast(d, q' - q);
      assert false;
    }
  }

  lemma ModScale(a: nat, b: nat, k: nat)
    requires b > 0 && k > 0
    ensures (k * a) % (k * b) == k * (a % b)
  {
    var q, r := a / b, a % b;
    assert a == b * q + r;
    assert k * a == (k * b) * q + k * r;
    assert k * r < k * b;
    DivModUnique(k * a, k * b, q, k * r);
  }

  lemma DividesMultiple(d: int, q: int)
    requires d > 0
    ensures Divides(d, d * q)
  {
    DivModUnique(d * q, d, q, 0);
  }

  lemma DividesLinear(d: int, x: int, y: int, k: int)
    requires Divides(d, x) && Divides(d, y)
    ensures Divides(d, x * k + y)
  {
    var a, b := x / d, y / d;
    assert x == d * a;
    assert y == d * b;
    assert x * k + y == d * (a * k + b);
    DividesMultiple(d, a * k + b);
  }

  lemma DividesTransitive(a: int, b: int, c: int)
    requires Divides(a, b) && Divides(b, c)
    ensures Divides(a, c)
  {
    var p, q := b / a, c / b;
    assert b == a * p;
    assert c == b * q;
    assert c == a * (p * q);
    DividesMultiple(a, p * q);
  }

  lemma DividesBound(d: int, m: int)
    requires Divides(d, m) && m > 0
    ensures d <= m
  {
    var q := m / d;
    assert m == d * q;
    if q > 0 {
      MulAtLeast(d, q);
    }
  }

  /** a * b / g == (a / g) * b when g divides a. */
  lemma QuotientOfProduct(a: int, b: int, g: int)
    requires Divides(g, a)
    ensures a * b / g == (a / g) * b
    ensures a * b == g * ((a / g) * b)
  {
    var a' := a / g;
    assert a == g * a';
    assert a * b == g * (a' * b) + 0;
    DivModUnique(a * b, g, a' * b, 0);
  }

  lemma PositiveQuotient(a: int, g: int)
    requires a > 0 && Divides(g, a)
    ensures a / g > 0
  {
    assert a == g * (a / g);
  }

  lemma CancelLeft(g: int, x: int, y: int)
    requires g > 0 && g * x == g * y
    ensures x == y
  {
    assert g * (x - y) == 0;
    if x > y {
      MulAtLeast(g, x - y);
    } else if x < y {
      MulAtLeast(g, y - x);
    }
  }

  lemma CancelDivides(g: int, l: int, m: int)
    requires g > 0 && l > 0 && Divides(g * l, m * g)
    ensures Divides(l, m)
  {
    var u := (m * g) / (g * l);
    assert m * g == (g * l) * u;
    assert g * m == g * (l * u);
    CancelLeft(g, m, l * u);
    DividesMultiple(l, u);
  }
}
