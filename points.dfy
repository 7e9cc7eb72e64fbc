/** Board coordinates: an axis value is a Go `byte`, and a point is an
    immutable pair of them. */
module Points {

  /** Go's `byte`; `Coordinate` is an alias of it. */
  type Byte = b: int | 0 <= b < 256

  type Coordinate = Byte

  /** Byte addition as Go performs it: the sum wraps modulo 256. */
  function ByteAdd(a: Byte, b: Byte): (r: Byte)
    ensures a + b < 256 ==> r == a + b
    ensures a + b >= 256 ==> r == a + b - 256
  {
    (a + b) % 256
  }

  /** Byte subtraction: a smaller minuend underflows to the top of the range. */
  function ByteSub(a: Byte, b: Byte): (r: Byte)
    ensures b <= a ==> r == a - b
    ensures a < b ==> r == a - b + 256
  {
    (a - b) % 256
  }

  /** Byte multiplication: only the low eight bits of the product survive. */
  function ByteMul(a: Byte, b: Byte): (r: Byte)
    ensures a * b < 256 ==> r == a * b
    ensures (r - a * b) % 256 == 0
  {
    (a * b) % 256
  }

  datatype Point = Point(x: Coordinate, y: Coordinate) {
    function X(): Coordinate { x }
    function Y(): Coordinate { y }
  }

  /** Builds a point; any pair of bytes is accepted, 0 included. */
  function NewPoint(x: Coordinate, y: Coordinate): (p: Point)
    ensures p.X() == x && p.Y() == y
  {
    Point(x, y)
  }

  /** Points are values: two of them are equal exactly when both axes match. */
  lemma PointEquality(p: Point, q: Point)
    ensures p == q <==> p.X() == q.X() && p.Y() == q.Y()
  {
  }

  /** Construction and the accessors are inverse to each other. */
  lemma NewPointOfAxes(p: Point)
    ensures NewPoint(p.X(), p.Y()) == p
  {
  }
}
