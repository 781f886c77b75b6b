/**
 * The matrix of src/utils/Matrix.ts: a grid of numbers that starts out all
 * zero, can multiply a vector by its upper-left 2x2 block, and, through
 * `RotateMatrix`, holds the rotation by an angle.
 *
 * `Mat2` is the value of a 2x2 block; `Matrix` is the object with its grid.
 */
module Matrices {
  import opened Numerics
  import opened Vectors

  /** A 2x2 block, row by row: `[[a, b], [c, d]]`. */
  datatype Mat2 = Mat2(a: real, b: real, c: real, d: real)
  {
    /** The product of the block with a column vector. */
    function Apply(v: Vec): Vec {
      Vec(a * v.x + b * v.y, c * v.x + d * v.y)
    }
  }

  /** The entries `rotateMatrix` writes for an angle (counter-clockwise in a y-up frame). */
  function Rotation(math: Math, angle: real): Mat2 {
    Mat2(math.Cos(angle), -math.Sin(angle), math.Sin(angle), math.Cos(angle))
  }

  /** Multiplying by a block is linear. */
  lemma ApplyLinear(m: Mat2, u: Vec, v: Vec, k: real)
    ensures m.Apply(u.Add(v)) == m.Apply(u).Add(m.Apply(v))
    ensures m.Apply(u.Multiply(k)) == m.Apply(u).Multiply(k)
  {
    assert m.a * (u.x * k) + m.b * (u.y * k) == (m.a * u.x + m.b * u.y) * k;
    assert m.c * (u.x * k) + m.d * (u.y * k) == (m.c * u.x + m.d * u.y) * k;
  }

  /** The rotation by zero leaves every vector where it is. */
  lemma RotationByZero(math: Math, v: Vec)
    requires math.Valid()
    ensures Rotation(math, 0.0).Apply(v) == v
  {
  }

  /** A rotation keeps the magnitude of the vector it rotates. */
  lemma RotationPreservesMagnitude(math: Math, angle: real, v: Vec)
    requires math.Valid()
    ensures Rotation(math, angle).Apply(v).Magnitude(math) == v.Magnitude(math)
  {
    var c, s := math.Cos(angle), math.Sin(angle);
    var w := Rotation(math, angle).Apply(v);
    var m := v.Magnitude(math);
    MagnitudeSquared(math, v);
    assert Square(c) + Square(s) == 1.0;
    MulLeft(Square(c) + Square(s), 1.0, Square(v.x) + Square(v.y));
    RotatedSquares(c, s, v);
    MagnitudeIs(math, w, m);
  }

  /** The sum of squares of a rotated pair, for any coefficients `c` and `s`. */
  lemma RotatedSquares(c: real, s: real, v: Vec)
    ensures var w := Mat2(c, -s, s, c).Apply(v);
      Square(w.x) + Square(w.y) == (Square(v.x) + Square(v.y)) * (Square(c) + Square(s))
  {
  }

  /** Rotating by an angle and then by its opposite gives back the vector. */
  lemma RotationRoundTrip(math: Math, angle: real, v: Vec)
    requires math.Valid()
    ensures Rotation(math, -angle).Apply(Rotation(math, angle).Apply(v)) == v
  {
    var c, s := math.Cos(angle), math.Sin(angle);
    assert math.Cos(-angle) == c && math.Sin(-angle) == -s;
    assert Square(c) + Square(s) == 1.0;
    var w := Rotation(math, angle).Apply(v);
    MulLeft(Square(c) + Square(s), 1.0, v.x);
    MulLeft(Square(c) + Square(s), 1.0, v.y);
    calc {
      c * w.x + s * w.y;
      c * (c * v.x - s * v.y) + s * (s * v.x + c * v.y);
      v.x * (Square(c) + Square(s));
      v.x;
    }
    calc {
      -s * w.x + c * w.y;
      -s * (c * v.x - s * v.y) + c * (s * v.x + c * v.y);
      v.y * (Square(c) + Square(s));
      v.y;
    }
  }

  /** A `rows` by `columns` grid of numbers. */
  class Matrix {
    var rows: nat
    var columns: nat
    var data: array2<real>

    /** The grid has the declared shape. */
    predicate Valid()
      reads this
    {
      data.Length0 == rows && data.Length1 == columns
    }

    /** Every entry of the grid is zero. */
    predicate IsZero()
      reads this, data
      requires Valid()
    {
      forall i, j :: 0 <= i < rows && 0 <= j < columns ==> data[i, j] == 0.0
    }

    /** The upper-left 2x2 block, the part `multiplyVector` reads. */
    function Block(): Mat2
      reads this, data
      requires Valid() && 2 <= rows && 2 <= columns
    {
      Mat2(data[0, 0], data[0, 1], data[1, 0], data[1, 1])
    }

    /** A zero matrix of the given shape. */
    constructor(rows: nat, columns: nat)
      ensures this.rows == rows && this.columns == columns
      ensures Valid() && fresh(data) && IsZero()
    {
      this.rows := rows;
      this.columns := columns;
      data := new real[0, 0];
      new;
      GenerateMatrix();
    }

    /** Fills a fresh grid of the current shape with zeros. */
    method GenerateMatrix()
      modifies this
      ensures rows == old(rows) && columns == old(columns)
      ensures Valid() && fresh(data) && IsZero()
    {
      var grid := new real[rows, columns];
      for i := 0 to rows
        modifies grid
        invariant forall i', j :: 0 <= i' < i && 0 <= j < columns ==> grid[i', j] == 0.0
      {
        for j := 0 to columns
          modifies grid
          invariant forall i', j' :: 0 <= i' < i && 0 <= j' < columns ==> grid[i', j'] == 0.0
          invariant forall j' :: 0 <= j' < j ==> grid[i, j'] == 0.0
        {
          grid[i, j] := 0.0;
        }
      }
      data := grid;
    }

    /** A fresh vector: the upper-left block applied to `v`. */
    method MultiplyVector(v: Vector) returns (r: Vector)
      requires Valid() && 2 <= rows && 2 <= columns
      ensures fresh(r)
      ensures r.Value() == Block().Apply(v.Value())
    {
      r := new Vector(0.0, 0.0);
      var _ := r.Set(data[0, 0] * v.x + data[0, 1] * v.y, data[1, 0] * v.x + data[1, 1] * v.y);
    }
  }

  /** A fresh 2x2 matrix holding the rotation by `angle`. */
  method RotateMatrix(math: Math, angle: real) returns (m: Matrix)
    ensures fresh(m) && fresh(m.data)
    ensures m.Valid() && m.rows == 2 && m.columns == 2
    ensures m.Block() == Rotation(math, angle)
  {
    m := new Matrix(2, 2);
    m.data[0, 0] := math.Cos(angle);
    m.data[0, 1] := -math.Sin(angle);
    m.data[1, 0] := math.Sin(angle);
    m.data[1, 1] := math.Cos(angle);
  }
}
