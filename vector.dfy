/**
 * The 2D vector of src/utils/Vector.ts.
 *
 * `Vec` is the value a vector holds; its member functions are the pure
 * operations of the source (each returns a new value). `Vector` is the
 * mutable object itself: `Set` overwrites it in place, the arithmetic
 * methods allocate a fresh object, and `Unit`, `SetMagnitude`, `Normalize`
 * and `Limit` may hand back the receiver itself.
 */
module Vectors {
  import opened Numerics

  datatype Vec = Vec(x: real, y: real)
  {
    function Add(v: Vec): Vec {
      Vec(x + v.x, y + v.y)
    }

    function Subtract(v: Vec): Vec {
      Vec(x - v.x, y - v.y)
    }

    function Multiply(scalar: real): Vec {
      Vec(x * scalar, y * scalar)
    }

    /** Division by zero yields an infinity or NaN in the source; the model excludes it. */
    function Divide(scalar: real): Vec
      requires scalar != 0.0
    {
      Vec(x / scalar, y / scalar)
    }

    function Dot(v: Vec): real {
      x * v.x + y * v.y
    }

    function Distance(math: Math, v: Vec): (r: real)
      requires math.Valid()
      ensures 0.0 <= r
      ensures r == Subtract(v).Magnitude(math)
    {
      math.Sqrt(Square(x - v.x) + Square(y - v.y))
    }

    function Magnitude(math: Math): (r: real)
      requires math.Valid()
      ensures 0.0 <= r
    {
      SquareSign(x, x);
      SquareSign(y, y);
      math.Sqrt(Square(x) + Square(y))
    }

    /**
     * The direction of the vector: the vector itself when its magnitude is
     * zero, otherwise a vector of magnitude one that scales back to it.
     */
    function Unit(math: Math): (r: Vec)
      requires math.Valid()
      ensures Magnitude(math) == 0.0 ==> r == this
      ensures Magnitude(math) != 0.0 ==> r.Magnitude(math) == 1.0 && r.Multiply(Magnitude(math)) == this
    {
      var m := Magnitude(math);
      if m == 0.0 then this
      else
        DivideByMagnitude(math, this);
        Divide(m)
    }

    /**
     * The vector itself when its magnitude is zero; otherwise the vector of
     * magnitude |magnitude| along it (against it when `magnitude` is negative).
     * The two ensures on the nonzero case determine the result.
     */
    function SetMagnitude(math: Math, magnitude: real): (r: Vec)
      requires math.Valid()
      ensures Magnitude(math) == 0.0 ==> r == this
      ensures Magnitude(math) != 0.0 ==> r.Magnitude(math) == Abs(magnitude)
      ensures Magnitude(math) != 0.0 ==> r.Dot(this) == magnitude * Magnitude(math)
    {
      var currentMagnitude := Magnitude(math);
      if currentMagnitude == 0.0 then this
      else
        RescaledMagnitude(math, this, magnitude);
        Multiply(magnitude / currentMagnitude)
    }

    /**
     * What `limit` is evidently meant to do: a vector longer than
     * `maxMagnitude` is shortened to that length along its own direction,
     * any other vector is returned as it is.
     */
    function Limit(math: Math, maxMagnitude: real): (r: Vec)
      requires math.Valid()
      ensures Magnitude(math) <= maxMagnitude ==> r == this
      ensures 0.0 <= maxMagnitude ==> r.Magnitude(math) <= maxMagnitude
      ensures maxMagnitude < Magnitude(math) ==> r.Dot(this) == maxMagnitude * Magnitude(math)
    {
      if Magnitude(math) > maxMagnitude then SetMagnitude(math, maxMagnitude) else this
    }

    /** The same guarded division as `Unit`, written out again in the source. */
    function Normalize(math: Math): (r: Vec)
      requires math.Valid()
      ensures Magnitude(math) == 0.0 ==> r == this
      ensures Magnitude(math) != 0.0 ==> r.Magnitude(math) == 1.0 && r.Multiply(Magnitude(math)) == this
      ensures r == Unit(math)
    {
      var currentMagnitude := Magnitude(math);
      if currentMagnitude == 0.0 then this
      else
        DivideByMagnitude(math, this);
        Divide(currentMagnitude)
    }
  }

  const Zero := Vec(0.0, 0.0)

  /**
   * `limit` as written keeps a vector that is too long: (3, 4) has
   * magnitude 5, above a maximum of 1, yet `Vector.Limit` hands it back
   * with the same coordinates, where the intended limit has magnitude 1.
   */
  lemma LimitCounterexample(math: Math)
    requires math.Valid()
    ensures Vec(3.0, 4.0).Magnitude(math) == 5.0
    ensures Vec(3.0, 4.0).Limit(math, 1.0).Magnitude(math) == 1.0
  {
    MagnitudeIs(math, Vec(3.0, 4.0), 5.0);
  }

  /** The magnitude is the non-negative number whose square is the sum of the squared coordinates. */
  lemma MagnitudeIs(math: Math, w: Vec, r: real)
    requires math.Valid()
    requires 0.0 <= r && Square(r) == Square(w.x) + Square(w.y)
    ensures w.Magnitude(math) == r
  {
    math.SqrtUnique(Square(w.x) + Square(w.y), r);
  }

  /** The squared magnitude is the dot product of the vector with itself. */
  lemma MagnitudeSquared(math: Math, v: Vec)
    requires math.Valid()
    ensures Square(v.Magnitude(math)) == v.Dot(v)
  {
    SquareSign(v.x, v.x);
    SquareSign(v.y, v.y);
  }

  /** Dividing a vector of nonzero magnitude by its magnitude gives magnitude one. */
  lemma DivideByMagnitude(math: Math, v: Vec)
    requires math.Valid()
    requires v.Magnitude(math) != 0.0
    ensures v.Divide(v.Magnitude(math)).Magnitude(math) == 1.0
    ensures v.Divide(v.Magnitude(math)).Multiply(v.Magnitude(math)) == v
  {
    var m := v.Magnitude(math);
    MagnitudeSquared(math, v);
    UnitRadicand(v.x, v.y, m);
    MagnitudeIs(math, v.Divide(m), 1.0);
  }

  /** Scaling multiplies the magnitude by the absolute value of the factor. */
  lemma ScaledMagnitude(math: Math, v: Vec, k: real)
    requires math.Valid()
    ensures v.Multiply(k).Magnitude(math) == Abs(k) * v.Magnitude(math)
  {
    var m := v.Magnitude(math);
    MagnitudeSquared(math, v);
    ScaledRadicand(v.x, v.y, k, m);
    MulNonnegative(Abs(k), m);
    MagnitudeIs(math, v.Multiply(k), Abs(k) * m);
  }

  /** The two facts that pin down `setMagnitude` on a vector of nonzero magnitude. */
  lemma RescaledMagnitude(math: Math, v: Vec, magnitude: real)
    requires math.Valid()
    requires v.Magnitude(math) != 0.0
    ensures v.Multiply(magnitude / v.Magnitude(math)).Magnitude(math) == Abs(magnitude)
    ensures v.Multiply(magnitude / v.Magnitude(math)).Dot(v) == magnitude * v.Magnitude(math)
  {
    var c := v.Magnitude(math);
    var k := magnitude / c;
    ScaledMagnitude(math, v, k);
    assert Abs(k) * c == Abs(magnitude);
    MagnitudeSquared(math, v);
    MulLeft(v.Dot(v), Square(c), k);
    calc {
      v.Multiply(k).Dot(v);
      k * v.Dot(v);
      k * Square(c);
      (k * c) * c;
      magnitude * c;
    }
  }

  /** The magnitude is zero exactly for the zero vector. */
  lemma MagnitudeZero(math: Math, v: Vec)
    requires math.Valid()
    ensures v.Magnitude(math) == 0.0 <==> v == Zero
  {
    MagnitudeSquared(math, v);
    SquareSign(v.Magnitude(math), v.Magnitude(math));
    SquareSign(v.x, v.x);
    SquareSign(v.y, v.y);
  }

  /** `dot` is symmetric and bilinear. */
  lemma DotSymmetricBilinear(u: Vec, v: Vec, w: Vec, a: real, b: real)
    ensures u.Dot(v) == v.Dot(u)
    ensures u.Multiply(a).Add(v.Multiply(b)).Dot(w) == a * u.Dot(w) + b * v.Dot(w)
  {
  }

  /** Distance is symmetric and vanishes exactly between equal vectors. */
  lemma DistanceSymmetricAndDefinite(math: Math, a: Vec, b: Vec)
    requires math.Valid()
    ensures a.Distance(math, b) == b.Distance(math, a)
    ensures a.Distance(math, b) == 0.0 <==> a == b
  {
    assert Square(a.x - b.x) == Square(b.x - a.x);
    assert Square(a.y - b.y) == Square(b.y - a.y);
    MagnitudeZero(math, a.Subtract(b));
  }

  /** Scaling distributes over a sum of factors and composes by multiplying them. */
  lemma MultiplyDistributes(v: Vec, a: real, b: real)
    ensures v.Multiply(a).Add(v.Multiply(b)) == v.Multiply(a + b)
    ensures v.Multiply(a).Multiply(b) == v.Multiply(a * b)
  {
    assert v.x * a * b == v.x * (a * b);
    assert v.y * a * b == v.y * (a * b);
  }

  /** Shifting two points apart: `(p + a) - (q - b) == (p - q) + (a + b)`. */
  lemma SubtractShifted(p: Vec, q: Vec, a: Vec, b: Vec)
    ensures p.Add(a).Subtract(q.Subtract(b)) == p.Subtract(q).Add(a.Add(b))
  {
  }

  /** The dot product distributes over `add` and pulls out scalars. */
  lemma DotLinear(u: Vec, v: Vec, w: Vec, k: real)
    ensures u.Add(v).Dot(w) == u.Dot(w) + v.Dot(w)
    ensures u.Subtract(v).Dot(w) == u.Dot(w) - v.Dot(w)
    ensures u.Multiply(k).Dot(w) == k * u.Dot(w)
  {
    assert u.x * k * w.x == k * (u.x * w.x);
    assert u.y * k * w.y == k * (u.y * w.y);
  }

  /** `multiply` followed by `divide` by the same nonzero scalar is the identity. */
  lemma MultiplyDivide(v: Vec, s: real)
    requires s != 0.0
    ensures v.Multiply(s).Divide(s) == v
  {
  }

  /** `add` followed by `subtract` of the same vector is the identity. */
  lemma AddSubtract(v: Vec, w: Vec)
    ensures v.Add(w).Subtract(w) == v
  {
  }

  /** `setMagnitude(1)` is `unit`. */
  lemma SetMagnitudeOneIsUnit(math: Math, v: Vec)
    requires math.Valid()
    ensures v.SetMagnitude(math, 1.0) == v.Unit(math)
  {
  }

  /** The direction from `b` to `a` is the opposite of the direction from `a` to `b`. */
  lemma UnitOfOpposite(math: Math, a: Vec, b: Vec)
    requires math.Valid()
    ensures a.Subtract(b).Unit(math) == b.Subtract(a).Unit(math).Multiply(-1.0)
  {
    assert Square(a.x - b.x) == Square(b.x - a.x);
    assert Square(a.y - b.y) == Square(b.y - a.y);
    var m := a.Subtract(b).Magnitude(math);
    assert b.Subtract(a).Magnitude(math) == m;
    MagnitudeZero(math, a.Subtract(b));
    MagnitudeZero(math, b.Subtract(a));
    if m != 0.0 {
      assert (b.x - a.x) / m * -1.0 == (a.x - b.x) / m;
      assert (b.y - a.y) / m * -1.0 == (a.y - b.y) / m;
    }
  }

  /**
   * A thrust is a direction scaled by a speed: it is zero when the direction
   * came from the zero vector and has magnitude |speed| otherwise.
   */
  lemma ThrustMagnitude(math: Math, a: Vec, speed: real)
    requires math.Valid()
    ensures a == Zero ==> a.Unit(math).Multiply(speed) == Zero
    ensures a != Zero ==> a.Unit(math).Multiply(speed).Magnitude(math) == Abs(speed)
  {
    MagnitudeZero(math, a);
    ScaledMagnitude(math, a.Unit(math), speed);
  }

  /** The mutable vector object. */
  class Vector {
    var x: real
    var y: real

    constructor(x: real, y: real)
      ensures this.x == x && this.y == y
    {
      this.x := x;
      this.y := y;
    }

    function Value(): Vec
      reads this
    {
      Vec(x, y)
    }

    /** Overwrites both coordinates in place and returns the same object. */
    method Set(x: real, y: real) returns (r: Vector)
      modifies this
      ensures r == this
      ensures this.x == x && this.y == y
    {
      this.x := x;
      this.y := y;
      r := this;
    }

    method Add(v: Vector) returns (r: Vector)
      ensures fresh(r)
      ensures r.Value() == Value().Add(v.Value())
    {
      r := new Vector(x + v.x, y + v.y);
    }

    method Subtract(v: Vector) returns (r: Vector)
      ensures fresh(r)
      ensures r.Value() == Value().Subtract(v.Value())
    {
      r := new Vector(x - v.x, y - v.y);
    }

    method Multiply(scalar: real) returns (r: Vector)
      ensures fresh(r)
      ensures r.Value() == Value().Multiply(scalar)
    {
      r := new Vector(x * scalar, y * scalar);
    }

    method Divide(scalar: real) returns (r: Vector)
      requires scalar != 0.0
      ensures fresh(r)
      ensures r.Value() == Value().Divide(scalar)
    {
      r := new Vector(x / scalar, y / scalar);
    }

    /** The receiver itself when its magnitude is zero, otherwise a fresh vector. */
    method Unit(math: Math) returns (r: Vector)
      requires math.Valid()
      ensures Value().Magnitude(math) == 0.0 ==> r == this
      ensures Value().Magnitude(math) != 0.0 ==> fresh(r)
      ensures r.Value() == Value().Unit(math)
    {
      var m := Value().Magnitude(math);
      if m == 0.0 {
        r := this;
      } else {
        r := Divide(m);
      }
    }

    method SetMagnitude(math: Math, magnitude: real) returns (r: Vector)
      requires math.Valid()
      ensures Value().Magnitude(math) == 0.0 ==> r == this
      ensures Value().Magnitude(math) != 0.0 ==> fresh(r)
      ensures r.Value() == Value().SetMagnitude(math, magnitude)
    {
      var currentMagnitude := Value().Magnitude(math);
      if currentMagnitude == 0.0 {
        r := this;
      } else {
        r := Multiply(magnitude / currentMagnitude);
      }
    }

    /**
     * Meant to clamp the magnitude, but the vector built by `setMagnitude` is
     * discarded: the receiver comes back with the same coordinates (see
     * `LimitCounterexample` and the intended `Vec.Limit`).
     */
    method Limit(math: Math, maxMagnitude: real) returns (r: Vector)
      requires math.Valid()
      ensures r == this
      ensures Value() == old(Value())
    {
      if Value().Magnitude(math) > maxMagnitude {
        var discarded := SetMagnitude(math, maxMagnitude);
      }
      r := this;
    }

    method Normalize(math: Math) returns (r: Vector)
      requires math.Valid()
      ensures Value().Magnitude(math) == 0.0 ==> r == this
      ensures Value().Magnitude(math) != 0.0 ==> fresh(r)
      ensures r.Value() == Value().Normalize(math)
    {
      var currentMagnitude := Value().Magnitude(math);
      if currentMagnitude == 0.0 {
        r := this;
      } else {
        r := Divide(currentMagnitude);
      }
    }
  }
}
