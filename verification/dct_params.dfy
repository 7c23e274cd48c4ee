/** The parameters of the DCT codec (DctParameters.cs, DecimationType.cs,
    QuantizationType.cs). The enums are kept as their underlying byte value,
    because the container stores that byte and reads it back with an
    unchecked cast, so any byte can arrive. */
module DctParams {
  import opened Common

  /** DecimationType. */
  const NoDecimation: byte := 0
  const Horizontal: byte := 1
  const Vertical: byte := 2
  const HorizontalAndVertical: byte := 4

  /** QuantizationType. */
  const LargestN: byte := 0
  const QuantizationMatrix: byte := 1
  const DefaultJpegMatrix: byte := 2

  /** The (Alpha, Gamma) pair a quantization matrix is generated from. */
  datatype MatrixGenerators = MatrixGenerators(alpha: int32, gamma: int32)

  /** DctParameters as the algorithm files use it: the two policies, the
      optional coefficient counts for luma and chroma, and the generators
      of the two quantization matrices. Load assigns its fields in place. */
  class DctParameters {
    var decimationType: byte
    var quantizationType: byte
    var ny: Option<int32>
    var nc: Option<int32>
    var generatorsY: MatrixGenerators
    var generatorsC: MatrixGenerators

    constructor (decimationType: byte, quantizationType: byte, ny: Option<int32>, nc: Option<int32>,
                 generatorsY: MatrixGenerators, generatorsC: MatrixGenerators)
      ensures this.decimationType == decimationType && this.quantizationType == quantizationType
      ensures this.ny == ny && this.nc == nc
      ensures this.generatorsY == generatorsY && this.generatorsC == generatorsC
    {
      this.decimationType := decimationType;
      this.quantizationType := quantizationType;
      this.ny := ny;
      this.nc := nc;
      this.generatorsY := generatorsY;
      this.generatorsC := generatorsC;
    }
  }
}
