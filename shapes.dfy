/** The shape classifiers of draw_to_fb.cpp: functions from an integer
    coordinate (x, y, z) to 0 for "inside" and any other value for "outside". */
module Shapes {

  /** The classifier of the square object: inside exactly on the 500 x 500
      square with its corner at the origin. */
  function SquareFn(x: int, y: int, z: int): (r: int)
    ensures r == 0 || r == 1
    ensures r == 0 <==> 0 <= x < 500 && 0 <= y < 500
  {
    if (x >= 0 && x < 500) && (y >= 0 && y < 500) then 0 else 1
  }

  /** The square does not depend on the z coordinate. */
  lemma SquareIgnoresZ(x: int, y: int, z1: int, z2: int)
    ensures SquareFn(x, y, z1) == SquareFn(x, y, z2)
  {
  }
}
