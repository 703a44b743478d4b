/** The decoded frames the decoder delivers, one variant per response type. */
module Frames {
  import opened Bytes

  /** A 4-byte IEEE-754 single, kept as its raw big-endian bytes. */
  datatype Float32 = Float32(b0: byte, b1: byte, b2: byte, b3: byte)

  /** One value of a data component. */
  datatype Value = FloatBits(f: Float32) | ByteValue(b: byte)

  /** One measurement of a data response. */
  datatype Component = Component(id: byte, values: seq<Value>)

  /** The type-specific part of a decoded frame. */
  datatype Payload =
    | ModuleInfo(name: seq<byte>, rev: seq<byte>)
    | SerialNumber(serialNumber: nat)
    | AcquisitionParams(isPollMode: bool, flushFilters: bool, sampleDelay: Float32)
    | Data(components: seq<Component>)
    | Declination(declination: Float32)
    | FunctionalMode(isAhrsMode: bool)
    | UserCalSampleCount(count: nat)
    | SetConfigDone
    | SetAcqParamsDone

  /** A delivered frame: the frame identifier, the checksum carried in the
      trailer, whether it disagreed with the recomputed checksum, and the payload. */
  datatype Frame = Frame(id: byte, crc16Expected: nat, crc16ErrorStatus: bool, payload: Payload)
}
