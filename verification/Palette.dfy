/** The colour space of internal/palette, over the reals. */
module Palette {

  datatype Lab = Lab(l: real, a: real, b: real)
}
