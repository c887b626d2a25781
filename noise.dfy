/** The scalar field shared by every stage of the terrain pipeline. */
module Noise {

  /** A width-by-height grid of samples stored row-major, with the bounds its
      producer recorded next to the data. Floating-point samples are reals. */
  datatype NoiseData = NoiseData(
    data: seq<real>,
    width: int,
    height: int,
    minValue: real,
    maxValue: real)
}
