/** Integer pixel geometry shared by the drawer, presence and zone components. */
module Geometry {

  /** A pixel position `(x, y)`; `x` grows to the right and `y` downwards. */
  datatype Point = Point(x: int, y: int)

  /** An axis-aligned box given by two corners, in the `(x1, y1, x2, y2)`
      layout that both the object detector and the calibration record use. */
  datatype Box = Box(x1: int, y1: int, x2: int, y2: int)
}
