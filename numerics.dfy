/**
 * The numeric ground the physics kernel stands on. Numbers are modelled as
 * `real` (IEEE-754 rounding is not modelled). JavaScript's `Math.sqrt`,
 * `Math.sin` and `Math.cos` cannot be written as Dafny functions over the
 * reals, so the `Math` object is a parameter: a record of three functions
 * together with the algebraic laws the kernel relies on (`Valid`).
 * `Math.max`, `Math.min` and `Math.abs` are defined outright.
 */
module Numerics {

  /** The JavaScript `Math` object, reduced to the three functions the kernel calls. */
  datatype Math = Math(sqrt: real -> real, sin: real -> real, cos: real -> real)
  {
    /**
     * The functions themselves, applied through these members so that every
     * use denotes the same term.
     */
    function Sqrt(x: real): real { sqrt(x) }
    function Sin(t: real): real { sin(t) }
    function Cos(t: real): real { cos(t) }

    /** The laws of square root, sine and cosine that the model assumes. */
    ghost predicate Valid() {
      && (forall x :: 0.0 <= x ==> 0.0 <= Sqrt(x) && Square(Sqrt(x)) == x)
      && (forall t :: Square(Cos(t)) + Square(Sin(t)) == 1.0)
      && Cos(0.0) == 1.0
      && Sin(0.0) == 0.0
      // cosine is even and sine is odd
      && (forall s, t {:trigger Cos(s), Cos(t)} :: s + t == 0.0 ==> Cos(s) == Cos(t))
      && (forall s, t {:trigger Sin(s), Sin(t)} :: s + t == 0.0 ==> Sin(s) == -Sin(t))
    }

    /** The square root of `x` is the one non-negative number whose square is `x`. */
    lemma SqrtUnique(x: real, r: real)
      requires Valid()
      requires 0.0 <= r && Square(r) == x
      ensures Sqrt(x) == r
    {
      SquareInjective(Sqrt(x), r);
    }

    /** For non-negative operands, comparing a square root with a bound is comparing the radicand with the bound's square. */
    lemma SqrtLess(d: real, bound: real)
      requires Valid()
      requires 0.0 <= d && 0.0 <= bound
      ensures Sqrt(d) < bound <==> d < Square(bound)
      ensures Sqrt(d) <= bound <==> d <= Square(bound)
    {
      var s := Sqrt(d);
      if s < bound {
        SquareLess(s, bound);
      } else {
        SquareAtMost(bound, s);
      }
      if s <= bound {
        SquareAtMost(s, bound);
      } else {
        SquareLess(bound, s);
      }
    }
  }

  /** `a ** 2`, which the source also writes `Math.pow(a, 2)`. */
  function Square(a: real): real {
    a * a
  }

  /** A product of two positive numbers is positive. */
  lemma MulPositive(a: real, b: real)
    requires 0.0 < a && 0.0 < b
    ensures 0.0 < a * b
  {
  }

  /**
   * A square is non-negative, and positive unless the number is zero. The
   * second parameter names the same number again, so that the proof works
   * on a product of two factors.
   */
  lemma SquareSign(a: real, a': real)
    requires a == a'
    ensures 0.0 <= Square(a)
    ensures Square(a) == 0.0 <==> a == 0.0
  {
    assert Square(a) == a * a';
    if a < 0.0 {
      MulPositive(-a, -a');
      assert (-a) * (-a') == a * a';
    } else if 0.0 < a {
      MulPositive(a, a');
    }
  }

  /** Squaring is strictly increasing on the non-negative reals. */
  lemma SquareLess(s: real, b: real)
    requires 0.0 <= s < b
    ensures Square(s) < Square(b)
  {
    MulPositive(b - s, b + s);
    assert (b - s) * (b + s) == b * b - s * s;
  }

  /** Squaring is increasing on the non-negative reals. */
  lemma SquareAtMost(s: real, b: real)
    requires 0.0 <= s <= b
    ensures Square(s) <= Square(b)
  {
    if s < b {
      SquareLess(s, b);
    }
  }

  /** Two non-negative numbers with equal squares are equal. */
  lemma SquareInjective(s: real, r: real)
    requires 0.0 <= s && 0.0 <= r && Square(s) == Square(r)
    ensures s == r
  {
    if s < r {
      SquareLess(s, r);
    } else if r < s {
      SquareLess(r, s);
    }
  }

  /** The square of the absolute value is the square. */
  lemma SquareOfAbs(a: real)
    ensures Square(Abs(a)) == Square(a)
  {
    if a < 0.0 {
      assert (-a) * (-a) == a * a;
    }
  }

  /** The square of a product is the product of the squares. */
  lemma SquareOfProduct(a: real, b: real)
    ensures Square(a * b) == Square(a) * Square(b)
  {
    assert (a * b) * (a * b) == (a * a) * (b * b);
  }

  /** A product of two non-negative numbers is non-negative. */
  lemma MulNonnegative(a: real, b: real)
    requires 0.0 <= a && 0.0 <= b
    ensures 0.0 <= a * b
  {
    if a != 0.0 && b != 0.0 {
      MulPositive(a, b);
    }
  }

  /** Equal numbers times the same factor are equal. */
  lemma MulLeft(a: real, b: real, c: real)
    requires a == b
    ensures c * a == c * b
  {
  }

  /** The squared length of `(x, y)` scaled by `k`, when `m` is the length of `(x, y)`. */
  lemma ScaledRadicand(x: real, y: real, k: real, m: real)
    requires Square(m) == Square(x) + Square(y)
    ensures Square(x * k) + Square(y * k) == Square(Abs(k) * m)
  {
    SquareOfProduct(x, k);
    SquareOfProduct(y, k);
    SquareOfProduct(Abs(k), m);
    SquareOfAbs(k);
    MulLeft(Square(x) + Square(y), Square(m), Square(k));
    calc {
      Square(x * k) + Square(y * k);
      Square(x) * Square(k) + Square(y) * Square(k);
      Square(k) * (Square(x) + Square(y));
      Square(k) * Square(m);
      Square(Abs(k)) * Square(m);
      Square(Abs(k) * m);
    }
  }

  /** Dividing `(x, y)` by its nonzero length `m` leaves squared length one. */
  lemma UnitRadicand(x: real, y: real, m: real)
    requires m != 0.0 && Square(m) == Square(x) + Square(y)
    ensures Square(x / m) + Square(y / m) == 1.0
  {
    var k := 1.0 / m;
    assert x / m == x * k;
    assert y / m == y * k;
    SquareOfProduct(x, k);
    SquareOfProduct(y, k);
    SquareOfProduct(k, m);
    MulLeft(Square(x) + Square(y), Square(m), Square(k));
    assert k * m == 1.0;
    calc {
      Square(x * k) + Square(y * k);
      Square(x) * Square(k) + Square(y) * Square(k);
      Square(k) * (Square(x) + Square(y));
      Square(k) * Square(m);
      Square(k * m);
      Square(1.0);
      1.0;
    }
  }

  /** `Math.abs`. */
  function Abs(a: real): (r: real)
    ensures 0.0 <= r && (r == a || r == -a)
  {
    if a < 0.0 then -a else a
  }

  /** `Math.max` of two numbers. */
  function Max(a: real, b: real): (r: real)
    ensures a <= r && b <= r && (r == a || r == b)
  {
    if a < b then b else a
  }

  /** `Math.min` of two numbers. */
  function Min(a: real, b: real): (r: real)
    ensures r <= a && r <= b && (r == a || r == b)
  {
    if a < b then a else b
  }

  /** `a` limited to the interval from `lo` to `hi`. */
  function Clamp(a: real, lo: real, hi: real): (r: real)
    requires lo <= hi
    ensures lo <= r <= hi
    ensures lo <= a <= hi ==> r == a
  {
    if a < lo then lo else if hi < a then hi else a
  }

  /** Within an interval, the clamped value is the point nearest to `a`. */
  lemma ClampIsNearest(a: real, lo: real, hi: real, t: real)
    requires lo <= t <= hi
    ensures Square(Clamp(a, lo, hi) - a) <= Square(t - a)
  {
    if a < lo {
      SquareAtMost(lo - a, t - a);
    } else if hi < a {
      SquareAtMost(a - hi, a - t);
      assert Square(hi - a) == Square(a - hi);
      assert Square(t - a) == Square(a - t);
    } else {
      SquareSign(t - a, t - a);
    }
  }
}

