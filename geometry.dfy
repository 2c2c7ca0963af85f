/**
 * The point primitive shared by both components.
 *
 * Rhino's `Point3d` holds three doubles and `DistanceTo` returns the
 * Euclidean distance, a square root. Here coordinates are integers and
 * distances are kept squared: every distance is non-negative, squaring is
 * strictly monotone on the non-negatives and maps 0 to 0, so every `== 0`
 * and `<` decision the components take on distances (or on products of
 * distances) is taken identically on the squared values.
 */
module Geometry {

  datatype Point3 = Point3(x: int, y: int, z: int)

  /** The square of the Euclidean distance between `p` and `q`. */
  function SqDist(p: Point3, q: Point3): (d: nat)
    ensures d == 0 <==> p == q
  {
    var dx, dy, dz := p.x - q.x, p.y - q.y, p.z - q.z;
    Square(dx) + Square(dy) + Square(dz)
  }

  function Square(a: int): (s: nat)
    ensures s == 0 <==> a == 0
  {
    var n: nat := if a < 0 then -a else a;
    n * n
  }
}
