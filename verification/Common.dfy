/** Values that several of the models use. */
module Options {
  datatype Option<+T> = None | Some(value: T)
}

module Geometry {
  datatype Coord = Coord(x: real, y: real)
}
