/**
  The values the object counter passes between its stages.
 */
module Objects {

  datatype Option<T> = None | Some(value: T)

  /** A bounding box `(x, y, w, h)`: top-left corner, width and height in pixels. */
  datatype Box = Box(x: int, y: int, w: int, h: int)

  /**
    A mean colour, one integer per channel. OpenCV images are BGR, so the
    channels are blue, green and red; every comparison treats them alike.
   */
  datatype Color = Color(b: int, g: int, r: int)

  /**
    One external contour as the detector sees it: its bounding rectangle and
    its enclosed area (a floating-point value in OpenCV, here a `real`).
   */
  datatype Contour = Contour(box: Box, area: real)

  /** The colour map built by the sampler: a dictionary from box to colour. */
  type ColorMap = seq<(Box, Color)>

  /** The grouped colours: a dictionary from founding colour to member boxes. */
  type Groups = seq<(Color, seq<Box>)>
}
