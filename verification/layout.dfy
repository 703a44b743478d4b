/** The byte layout of every response the decoder understands, written out
    as an encoder. It is the reference the decoder is checked against: a
    frame laid out here, with its checksum sealed by the same function the
    decoder uses, decodes back to the payload it was laid out from. */
module Layout {
  import opened Wrappers
  import opened Bytes
  import Protocol
  import opened Frames
  import opened Components
  import opened FrameDecoder
  import opened FrameChecks

  /** The frame identifier of the response that carries a payload. */
  function FrameIdOf(p: Payload): byte {
    match p
    case ModuleInfo(_, _) => Protocol.GetModInfoResp
    case SerialNumber(_) => Protocol.SerialNumberResp
    case AcquisitionParams(_, _, _) => Protocol.GetAcqParamsResp
    case Data(_) => Protocol.GetDataResp
    case Declination(_) => Protocol.GetConfigResp
    case FunctionalMode(_) => Protocol.GetFunctionalModeResp
    case UserCalSampleCount(_) => Protocol.UserCalSampleCount
    case SetConfigDone => Protocol.SetConfigDone
    case SetAcqParamsDone => Protocol.SetAcqParamsDone
  }

  /** A payload that fits its response: four-byte name and revision, 32-bit
      counters, and at most 255 well-formed data components. */
  predicate Encodable(p: Payload) {
    match p
    case ModuleInfo(name, rev) => |name| == 4 && |rev| == 4
    case SerialNumber(n) => n < 0x1_0000_0000
    case UserCalSampleCount(n) => n < 0x1_0000_0000
    case Data(cs) => |cs| < 256 && AllWellFormed(cs) && |Flat(cs)| < 0x1_0000 - 6
    case _ => true
  }

  /** The byte a flag is sent as. */
  function FlagByte(b: bool): byte {
    if b then 1 else 0
  }

  /** The bytes between the frame identifier and the checksum. The four
      bytes between the acquisition flags and the sample delay are a field
      the decoder does not read; they are laid out as zeros. */
  function PayloadBytes(p: Payload): seq<byte>
    requires Encodable(p)
  {
    match p
    case ModuleInfo(name, rev) => name + rev
    case SerialNumber(n) => U32Bytes(n)
    case AcquisitionParams(poll, flush, delay) =>
      [FlagByte(poll), FlagByte(flush), 0, 0, 0, 0] + FloatBytes(delay)
    case Data(cs) => [|cs| as byte] + Flat(cs)
    case Declination(f) => [Protocol.Declination] + FloatBytes(f)
    case FunctionalMode(ahrs) => [FlagByte(ahrs)]
    case UserCalSampleCount(n) => U32Bytes(n)
    case SetConfigDone => []
    case SetAcqParamsDone => []
  }

  /** A frame's bytes before its checksum: the total length, the frame
      identifier and the payload. */
  function Head(p: Payload): (h: seq<byte>)
    requires Encodable(p)
    ensures |h| == |PayloadBytes(p)| + 3 && h[2] == FrameIdOf(p)
    ensures U16(h[0], h[1]) == |h| + 2
  {
    U16RoundTrip(|PayloadBytes(p)| + 5);
    U16Bytes(|PayloadBytes(p)| + 5) + [FrameIdOf(p)] + PayloadBytes(p)
  }

  /** The checksum function yields a 16-bit value on the head of the frame. */
  predicate Sealable(crc: Crc16Fn, p: Payload)
    requires Encodable(p)
  {
    0 <= crc(Head(p)) < 0x1_0000
  }

  /** The complete frame of a payload with the 16-bit trailer `trailer`,
      whether or not that is the checksum of the head. */
  function Framed(p: Payload, trailer: nat): (f: seq<byte>)
    requires Encodable(p) && trailer < 0x1_0000
    ensures |f| >= 5 && FrameLength(f) == |f| && f[2] == FrameIdOf(p)
    ensures Protocol.StructurallyValid(f[2], |f|)
    ensures f[..|f| - 2] == Head(p) && CrcExpected(f) == trailer
  {
    var h := Head(p);
    var f := h + U16Bytes(trailer);
    U16RoundTrip(trailer);
    assert f[..|f| - 2] == h;
    assert f[0] == h[0] && f[1] == h[1];
    f
  }

  /** The frame of a payload sealed with its checksum. */
  function FrameBytes(crc: Crc16Fn, p: Payload): (f: seq<byte>)
    requires Encodable(p) && Sealable(crc, p)
    ensures f == Framed(p, crc(Head(p))) && !CrcMismatch(crc, f)
  {
    Framed(p, crc(Head(p)))
  }

  /** The frame a decoder delivers for a payload laid out here. */
  function Expected(crc: Crc16Fn, p: Payload): Frame
    requires Encodable(p) && Sealable(crc, p)
  {
    Frame(FrameIdOf(p), crc(Head(p)), false, p)
  }

  /** A frame whose identifier and payload bytes are those of `p` reads
      back as `p`. */
  lemma {:induction false} PayloadRoundTrip(f: seq<byte>, p: Payload, e: nat, err: bool)
    requires Encodable(p) && |f| == |PayloadBytes(p)| + 5
    requires f[2] == FrameIdOf(p) && f[3..|f| - 2] == PayloadBytes(p)
    ensures Protocol.StructurallyValid(f[2], |f|)
    ensures DecodePayload(f, e, err) == Accepted(Some(Frame(FrameIdOf(p), e, err, p)))
  {
    match p
    case ModuleInfo(name, rev) =>
      var q := f[3..|f| - 2];
      assert f[3..7] == q[..4] == name;
      assert f[7..11] == q[4..] == rev;
    case SerialNumber(n) =>
      assert f[3..7] == U32Bytes(n);
      U32RoundTrip(n);
    case UserCalSampleCount(n) =>
      assert f[3..7] == U32Bytes(n);
      U32RoundTrip(n);
    case AcquisitionParams(poll, flush, delay) =>
      var q := f[3..|f| - 2];
      assert f[3] == q[0] == FlagByte(poll) && f[4] == q[1] == FlagByte(flush);
      assert q[6..] == FloatBytes(delay);
      assert f[9] == q[6] && f[10] == q[7] && f[11] == q[8] && f[12] == q[9];
    case Declination(d) =>
      var q := f[3..|f| - 2];
      assert f[3] == q[0] == Protocol.Declination && f[4..8] == q[1..] == FloatBytes(d);
    case FunctionalMode(ahrs) =>
      assert f[3] == f[3..|f| - 2][0] == FlagByte(ahrs);
    case Data(cs) =>
      DataRoundTrip(f, cs);
    case SetConfigDone =>
    case SetAcqParamsDone =>
  }

  /** The components of a data response laid out here parse back, all of
      them: the count byte stops the loop right after the last one, which
      ends before the checksum. */
  lemma {:induction false} DataRoundTrip(f: seq<byte>, cs: seq<Component>)
    requires Encodable(Data(cs)) && |f| == |Flat(cs)| + 6
    requires f[3..|f| - 2] == [|cs| as byte] + Flat(cs)
    ensures ParseComponents(f, f[3] as nat, 4, 0) == Parsed(cs)
  {
    assert f[3] as nat == |cs|;
    assert f[4..4 + |Flat(cs)|] == Flat(cs);
    assert Fits(f, |cs|, 4, 0, cs);
    ParseEncoded(f, |cs|, 4, 0, cs);
  }

  /** The candidate at the start of a laid-out frame, whatever follows it:
      with a trailer that matches the checksum it is accepted as the frame
      it was laid out from; with one that does not, it is dropped when
      checksum errors are skipped and otherwise delivered with the error
      flag set and the trailer as the expected checksum. */
  lemma {:induction false} CandidateReads(crc: Crc16Fn, skip: bool, p: Payload, trailer: nat, extra: seq<byte>)
    requires Encodable(p) && trailer < 0x1_0000
    ensures var bad := crc(Head(p)) != trailer;
      DecodeCandidate(crc, skip, Framed(p, trailer) + extra)
      == if skip && bad then Rejected else Accepted(Some(Frame(FrameIdOf(p), trailer, bad, p)))
  {
    var f := Framed(p, trailer);
    assert f[3..|f| - 2] == PayloadBytes(p) by {
      assert f[..|f| - 2][3..] == f[3..|f| - 2];
    }
    PayloadRoundTrip(f, p, trailer, crc(Head(p)) != trailer);
    assert f[..FrameLength(f)] == f;
    CandidateExtends(crc, skip, f, extra);
  }

  /** A sealed frame is accepted under either policy. */
  lemma {:induction false} CandidateRoundTrip(crc: Crc16Fn, skip: bool, p: Payload, extra: seq<byte>)
    requires Encodable(p) && Sealable(crc, p)
    ensures DecodeCandidate(crc, skip, FrameBytes(crc, p) + extra) == Accepted(Some(Expected(crc, p)))
  {
    CandidateReads(crc, skip, p, crc(Head(p)), extra);
  }
}
