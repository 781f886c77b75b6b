/**
 * The wall of src/utils/physics-objects/Wall.ts: a fixed segment from
 * `startPosition` to `endPosition`. Nothing changes a wall after it is
 * built, so it is a value; its direction is recomputed on every read.
 */
module Walls {
  import opened Numerics
  import opened Vectors

  datatype Wall = Wall(startPosition: Vec, endPosition: Vec, color: string)
  {
    /** The `unit` getter: the direction from the start to the end. */
    function Unit(math: Math): (r: Vec)
      requires math.Valid()
      ensures startPosition == endPosition ==> r == Zero
      ensures startPosition != endPosition ==> r.Magnitude(math) == 1.0
      ensures r.Multiply(Length(math)) == endPosition.Subtract(startPosition)
    {
      MagnitudeZero(math, endPosition.Subtract(startPosition));
      endPosition.Subtract(startPosition).Unit(math)
    }

    /** The distance between the endpoints. */
    function Length(math: Math): (r: real)
      requires math.Valid()
      ensures 0.0 <= r
      ensures r == 0.0 <==> startPosition == endPosition
    {
      MagnitudeZero(math, endPosition.Subtract(startPosition));
      endPosition.Subtract(startPosition).Magnitude(math)
    }
  }

  /** The constructor, with the source's default colour. */
  function NewWall(startPosition: Vec, endPosition: Vec, color: string := "white"): (w: Wall)
    ensures w.startPosition == startPosition && w.endPosition == endPosition
    ensures w.color == color
  {
    Wall(startPosition, endPosition, color)
  }

  /** Swapping the endpoints reverses the direction. */
  lemma SwappedWallUnit(math: Math, w: Wall)
    requires math.Valid()
    ensures Wall(w.endPosition, w.startPosition, w.color).Unit(math) == w.Unit(math).Multiply(-1.0)
  {
    UnitOfOpposite(math, w.startPosition, w.endPosition);
  }

  /** The unit vector of a wall points along the wall: its dot product with the wall vector is the length. */
  lemma UnitAlongWall(math: Math, w: Wall)
    requires math.Valid()
    ensures w.Unit(math).Dot(w.endPosition.Subtract(w.startPosition)) == w.Length(math)
    ensures w.Unit(math).Dot(w.Unit(math)) == if w.startPosition == w.endPosition then 0.0 else 1.0
  {
    var u := w.Unit(math);
    var len := w.Length(math);
    MagnitudeSquared(math, u);
    if w.startPosition != w.endPosition {
      assert Square(u.Magnitude(math)) == 1.0;
      calc {
        u.Dot(w.endPosition.Subtract(w.startPosition));
        u.Dot(u.Multiply(len));
        len * u.Dot(u);
        len;
      }
    }
  }
}
