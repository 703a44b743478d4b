/** The protocol table the decoder consults: frame identifiers, the length
    rule of each response frame, data-component identifiers and the shape of
    each component's value, and the one configuration identifier the decoder
    understands. */
module Protocol {
  import opened Bytes

  // Frame identifiers of the responses the decoder recognises.
  const GetModInfoResp: byte := 0x02
  const GetDataResp: byte := 0x05
  const GetConfigResp: byte := 0x08
  const UserCalSampleCount: byte := 0x11
  const SetConfigDone: byte := 0x13
  const SetAcqParamsDone: byte := 0x1A
  const GetAcqParamsResp: byte := 0x1B
  const SerialNumberResp: byte := 0x35
  const GetFunctionalModeResp: byte := 0x51

  // Data-component identifiers.
  const Heading: byte := 5
  const Temperature: byte := 7
  const Distortion: byte := 8
  const CalStatus: byte := 9
  const AccelX: byte := 21
  const AccelY: byte := 22
  const AccelZ: byte := 23
  const Pitch: byte := 24
  const Roll: byte := 25
  const MagX: byte := 27
  const MagY: byte := 28
  const MagZ: byte := 29
  const GyroX: byte := 74
  const GyroY: byte := 75
  const GyroZ: byte := 76
  const Quaternion: byte := 77
  const HeadingStatus: byte := 79

  // Configuration identifier carried by a configuration response.
  const Declination: byte := 1

  /** Total length of a Declination configuration response. */
  const DeclinationFrameLength: nat := 10

  /** How a component's value is laid out after its identifier byte. */
  datatype ComponentKind =
    | FloatScalar      // one 4-byte float
    | ByteScalar       // one unsigned byte
    | FourFloats       // the quaternion: four 4-byte floats
    | UnknownComponent // an identifier the decoder does not know

  function KindOf(id: byte): ComponentKind {
    if || id == Heading || id == Pitch || id == Roll || id == Temperature
       || id == AccelX || id == AccelY || id == AccelZ
       || id == MagX || id == MagY || id == MagZ
       || id == GyroX || id == GyroY || id == GyroZ
    then FloatScalar
    else if id == HeadingStatus || id == Distortion || id == CalStatus then ByteScalar
    else if id == Quaternion then FourFloats
    else UnknownComponent
  }

  /** Number of value bytes that follow a component identifier of this kind. */
  function ValueSize(k: ComponentKind): nat {
    match k
    case FloatScalar => 4
    case ByteScalar => 1
    case FourFloats => 16
    case UnknownComponent => 0
  }

  /** The length rule of the protocol table: a frame identifier is known and the
      declared total frame length is the one (or at least the one) its
      response layout needs. */
  predicate StructurallyValid(id: byte, frameLength: nat) {
    || (id == GetModInfoResp && frameLength == 13)
    || (id == GetDataResp && frameLength >= 6)
    || (id == GetConfigResp && frameLength >= 7)
    || (id == UserCalSampleCount && frameLength == 9)
    || (id == SetConfigDone && frameLength == 5)
    || (id == SerialNumberResp && frameLength == 9)
    || (id == SetAcqParamsDone && frameLength == 5)
    || (id == GetAcqParamsResp && frameLength == 15)
    || (id == GetFunctionalModeResp && frameLength == 6)
  }
}
