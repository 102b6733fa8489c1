// Coordinates of centres: exact reals, and what a division by zero leaves in their place.
module Coordinates {
  // A zero divisor counts as positive; no statement depends on the sign of an infinity.
  datatype Coordinate = Finite(value: real) | Infinite(negative: bool) | NaN

  function Product(x: real, y: real): real {
    x * y
  }

  function Quotient(x: real, y: real): real
    requires y != 0.0
  {
    x / y
  }

  function Plus(a: Coordinate, b: Coordinate): Coordinate {
    if a.NaN? || b.NaN? then NaN
    else if a.Finite? && b.Finite? then Finite(a.value + b.value)
    else if a.Finite? then b
    else if b.Finite? || a == b then a
    else NaN
  }

  function Times(x: real, b: Coordinate): Coordinate {
    match b
    case Finite(v) => Finite(Product(x, v))
    case Infinite(negative) => if x == 0.0 then NaN else Infinite(negative != (x < 0.0))
    case NaN => NaN
  }

  function Over(b: Coordinate, x: real): Coordinate {
    match b
    case Finite(v) => if x != 0.0 then Finite(Quotient(v, x)) else if v == 0.0 then NaN else Infinite(v < 0.0)
    case Infinite(negative) => Infinite(negative != (x < 0.0))
    case NaN => NaN
  }
}
