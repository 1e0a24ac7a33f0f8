/** Integer vectors and the four carving directions of the maze generator. */
module Vectors {

  /** Python's floor division `a // b`: the quotient rounded toward negative infinity.
      (Dafny's own `/` is Euclidean, which agrees with it only for a positive divisor.) */
  function FloorDivInt(a: int, b: int): (q: int)
    requires b != 0
    ensures b > 0 ==> b * q <= a < b * q + b
    ensures b < 0 ==> b * q + b < a <= b * q
  {
    if b > 0 then a / b else (-a) / (-b)
  }

  /** A position or a displacement: `x` is the column, `y` the row. */
  datatype IntVector = IntVector(x: int, y: int) {

    /** Component-wise sum (`__add__`). What the maze relies on about it is
        stated by `Grids.StepGeometry`. */
    function Add(v: IntVector): IntVector
    {
      IntVector(x + v.x, y + v.y)
    }

    /** Component-wise floor division (`__floordiv__`). */
    function FloorDiv(divisor: int): (r: IntVector)
      requires divisor != 0
      ensures divisor > 0 ==> divisor * r.x <= x < divisor * r.x + divisor
      ensures divisor > 0 ==> divisor * r.y <= y < divisor * r.y + divisor
      ensures divisor < 0 ==> divisor * r.x + divisor < x <= divisor * r.x
      ensures divisor < 0 ==> divisor * r.y + divisor < y <= divisor * r.y
    {
      IntVector(FloorDivInt(x, divisor), FloorDivInt(y, divisor))
    }

    /** The `/` operator (`__truediv__`): it delegates to floor division, so it
        rounds toward negative infinity instead of producing a fraction. */
    function TrueDiv(divisor: int): (r: IntVector)
      requires divisor != 0
      ensures divisor > 0 ==> divisor * r.x <= x < divisor * r.x + divisor
      ensures divisor > 0 ==> divisor * r.y <= y < divisor * r.y + divisor
      ensures divisor < 0 ==> divisor * r.x + divisor < x <= divisor * r.x
      ensures divisor < 0 ==> divisor * r.y + divisor < y <= divisor * r.y
    {
      FloorDiv(divisor)
    }
  }

  /** The four moves from a room to the next room, two cells away along one axis. */
  datatype Direction = N | E | S | W {

    /** The displacement the direction stands for. */
    function Vec(): (r: IntVector)
      ensures (r.x == 0 && (r.y == 2 || r.y == -2)) || (r.y == 0 && (r.x == 2 || r.x == -2))
    {
      match this
      case N => IntVector(0, -2)
      case E => IntVector(2, 0)
      case S => IntVector(0, 2)
      case W => IntVector(-2, 0)
    }

    /** The displacement to the wall cell in between (`direction.value / 2`). */
    function Half(): (r: IntVector)
      ensures r.x + r.x == Vec().x && r.y + r.y == Vec().y
    {
      Vec().TrueDiv(2)
    }
  }

  /** The directions in the order the enumeration declares them. */
  const AllDirections: seq<Direction> := [N, E, S, W]

  /** Every direction occurs in `AllDirections`, and the four displacements are pairwise different. */
  lemma DirectionTable(d: Direction, e: Direction)
    ensures d in AllDirections
    ensures d != e ==> d.Vec() != e.Vec()
  {
  }
}
