/**
 * The part of djvGraphics' image I/O vocabulary that the PPM loader and the
 * file-browser worker share: the header information a loader fills in and the
 * error labels a loader raises.
 */
module ImageIo {
  import opened Wrappers
  import opened Core

  /** The djvImageIO error labels raised by the PPM loader. */
  datatype ErrorLabel = Unrecognized | Unsupported | Read

  datatype Endian = LSB | MSB

  datatype Mirror = Mirror(x: bool, y: bool)

  /** An integer pixel format: its channel count and bits per channel. */
  datatype Pixel = Pixel(channels: int, bitsPerChannel: int)

  /**
   * djvImageIOInfo, restricted to the fields a loader sets. `pixel` and
   * `endian` are None while they hold the library's own defaults, which are
   * not part of this model.
   */
  datatype ImageIOInfo = ImageIOInfo(
    fileName: string,
    size: IVec2,
    mirror: Mirror,
    pixel: Option<Pixel>,
    endian: Option<Endian>)

  /** A default-constructed djvImageIOInfo. */
  function DefaultInfo(): ImageIOInfo
  {
    ImageIOInfo("", Origin, Mirror(false, false), None, None)
  }
}
