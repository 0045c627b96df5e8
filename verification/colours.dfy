/** The green / yellow / red stages of the newer screens and of the border timer. */
module Colours {

  datatype Colour = Green | Yellow | Red

  /** The string the code uses for each stage. */
  function Name(c: Colour): (s: string)
    ensures |s| >= 3
  {
    match c
    case Green => "green"
    case Yellow => "yellow"
    case Red => "red"
  }

  /** green < yellow < red. */
  function Rank(c: Colour): (n: nat)
    ensures n <= 2
    ensures n == 0 <==> c == Green
    ensures n == 2 <==> c == Red
  {
    match c
    case Green => 0
    case Yellow => 1
    case Red => 2
  }
}
