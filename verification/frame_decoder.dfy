/** One step of the scan: what the decoder makes of the bytes at the current
    scan position (the inner `decodeFrame` and `crc16Check` of the decoder). */
module FrameDecoder {
  import opened Wrappers
  import opened Bytes
  import Protocol
  import opened Frames
  import opened Components

  /** The checksum over a frame's bytes before its trailer; the algorithm
      itself is not part of this model, so every operation takes it as a
      parameter. */
  type Crc16Fn = seq<byte> -> int

  /** Outcome of examining the candidate frame at the scan position:
      rejected (resynchronise by one byte), split (wait for more bytes), or
      accepted, with the frame delivered to the caller if there is one. */
  datatype Status = Rejected | Split | Accepted(frame: Option<Frame>)

  /** The declared total length in the first two bytes. */
  function FrameLength(buf: seq<byte>): nat
    requires |buf| >= 2
  {
    U16(buf[0], buf[1])
  }

  /** The checksum carried in a complete frame's last two bytes. */
  function CrcExpected(frame: seq<byte>): nat
    requires |frame| >= 2
  {
    U16(frame[|frame| - 2], frame[|frame| - 1])
  }

  /** The recomputed checksum over the bytes before the trailer differs from the trailer. */
  predicate CrcMismatch(crc: Crc16Fn, frame: seq<byte>)
    requires |frame| >= 2
  {
    crc(frame[..|frame| - 2]) != CrcExpected(frame)
  }

  /** The candidate frame at the start of `buf`, which holds at least the four
      bytes the scan insists on. The length rule of the frame identifier is
      checked first, then whether all bytes are there, then the checksum, and
      only then is the payload read. */
  function DecodeCandidate(crc: Crc16Fn, skipCrcErrorFrame: bool, buf: seq<byte>): (st: Status)
    requires |buf| >= 4
    ensures !Protocol.StructurallyValid(buf[2], FrameLength(buf)) ==> st.Rejected?
    ensures st.Split? <==> Protocol.StructurallyValid(buf[2], FrameLength(buf)) && FrameLength(buf) > |buf|
    ensures st.Accepted? ==>
      && Protocol.StructurallyValid(buf[2], FrameLength(buf))
      && 5 <= FrameLength(buf) <= |buf|
      && !(skipCrcErrorFrame && CrcMismatch(crc, buf[..FrameLength(buf)]))
    ensures (&& Protocol.StructurallyValid(buf[2], FrameLength(buf)) && FrameLength(buf) <= |buf|
             && skipCrcErrorFrame && CrcMismatch(crc, buf[..FrameLength(buf)])) ==> st.Rejected?
    ensures st.Accepted? && st.frame.Some? ==>
      var frame := buf[..FrameLength(buf)];
      && st.frame.value.id == buf[2]
      && st.frame.value.crc16Expected == CrcExpected(frame)
      && st.frame.value.crc16ErrorStatus == CrcMismatch(crc, frame)
    ensures st.Accepted? ==> (st.frame.None? <==> buf[2] == Protocol.GetConfigResp && buf[3] != Protocol.Declination)
  {
    var n := FrameLength(buf);
    if n == 0 || !Protocol.StructurallyValid(buf[2], n) then Rejected
    else if n > |buf| then Split
    else
      var frame := buf[..n];
      var err := CrcMismatch(crc, frame);
      if err && skipCrcErrorFrame then Rejected
      else DecodePayload(frame, CrcExpected(frame), err)
  }

  function Deliver(id: byte, crc16Expected: nat, crc16ErrorStatus: bool, p: Payload): Status {
    Accepted(Some(Frame(id, crc16Expected, crc16ErrorStatus, p)))
  }

  /** The payload of a complete frame whose length rule holds. */
  function DecodePayload(frame: seq<byte>, crc16Expected: nat, crc16ErrorStatus: bool): (st: Status)
    requires |frame| >= 5 && Protocol.StructurallyValid(frame[2], |frame|)
    ensures !st.Split?
    ensures st.Rejected? <==>
      || (frame[2] == Protocol.GetDataResp && ParseComponents(frame, frame[3] as nat, 4, 0).ParseFailed?)
      || (frame[2] == Protocol.GetConfigResp && frame[3] == Protocol.Declination
          && |frame| != Protocol.DeclinationFrameLength)
    ensures st.Accepted? && st.frame.Some? ==>
      && st.frame.value.id == frame[2]
      && st.frame.value.crc16Expected == crc16Expected
      && st.frame.value.crc16ErrorStatus == crc16ErrorStatus
  {
    var id := frame[2];
    var n := |frame|;
    if id == Protocol.GetModInfoResp then Deliver(id, crc16Expected, crc16ErrorStatus, ModuleInfo(frame[3..7], frame[7..11]))
    else if id == Protocol.GetDataResp then
      match ParseComponents(frame, frame[3] as nat, 4, 0)
      case ParseFailed => Rejected
      case Parsed(cs) => Deliver(id, crc16Expected, crc16ErrorStatus, Data(cs))
    else if id == Protocol.GetConfigResp then
      if frame[3] == Protocol.Declination then
        if n != Protocol.DeclinationFrameLength then Rejected
        else Deliver(id, crc16Expected, crc16ErrorStatus, Declination(ReadFloat(frame, 4)))
      else Accepted(None)
    else if id == Protocol.UserCalSampleCount then Deliver(id, crc16Expected, crc16ErrorStatus, UserCalSampleCount(U32(frame[3..7])))
    else if id == Protocol.SetConfigDone then Deliver(id, crc16Expected, crc16ErrorStatus, SetConfigDone)
    else if id == Protocol.SerialNumberResp then Deliver(id, crc16Expected, crc16ErrorStatus, SerialNumber(U32(frame[3..7])))
    else if id == Protocol.SetAcqParamsDone then Deliver(id, crc16Expected, crc16ErrorStatus, SetAcqParamsDone)
    else if id == Protocol.GetAcqParamsResp then
      Deliver(id, crc16Expected, crc16ErrorStatus, AcquisitionParams(frame[3] != 0, frame[4] != 0, ReadFloat(frame, 9)))
    else Deliver(id, crc16Expected, crc16ErrorStatus, FunctionalMode(frame[3] != 0))
  }
}

module FrameChecks {
  import opened Wrappers
  import opened Bytes
  import opened Frames
  import opened Components
  import opened FrameDecoder

  /** A status with the checksum flag of its frame cleared. */
  function WithoutCrcStatus(st: Status): Status {
    match st
    case Accepted(Some(f)) => Accepted(Some(f.(crc16ErrorStatus := false)))
    case _ => st
  }

  /** The candidate's verdict depends only on the bytes of the frame it
      declares: once it is not split, more bytes after it change nothing. */
  lemma {:induction false} CandidateExtends(crc: Crc16Fn, skip: bool, buf: seq<byte>, extra: seq<byte>)
    requires |buf| >= 4 && !DecodeCandidate(crc, skip, buf).Split?
    ensures DecodeCandidate(crc, skip, buf + extra) == DecodeCandidate(crc, skip, buf)
  {
    var all := buf + extra;
    assert all[0] == buf[0] && all[1] == buf[1] && all[2] == buf[2];
    var n := FrameLength(buf);
    if n <= |buf| {
      assert all[..n] == buf[..n];
    }
  }

  /** A complete configuration response that passes the checksum gate: an
      unknown configuration identifier is a success that delivers nothing,
      and a Declination response is accepted exactly when it is ten bytes
      long. */
  lemma {:induction false} ConfigOutcomes(crc: Crc16Fn, skip: bool, buf: seq<byte>)
    requires |buf| >= 4 && buf[2] == Protocol.GetConfigResp
    requires 7 <= FrameLength(buf) <= |buf|
    requires !(skip && CrcMismatch(crc, buf[..FrameLength(buf)]))
    ensures buf[3] != Protocol.Declination ==> DecodeCandidate(crc, skip, buf) == Accepted(None)
    ensures buf[3] == Protocol.Declination ==>
      (DecodeCandidate(crc, skip, buf).Rejected? <==> FrameLength(buf) != Protocol.DeclinationFrameLength)
  {
    var frame := buf[..FrameLength(buf)];
    assert frame[2] == buf[2] && frame[3] == buf[3];
  }

  /** A complete data response that passes the checksum gate: when a known
      component does not fit, the whole frame is rejected; otherwise it is
      accepted with the components read, which stop early at an unknown
      identifier. */
  lemma {:induction false} DataOutcomes(crc: Crc16Fn, skip: bool, buf: seq<byte>)
    requires |buf| >= 4 && buf[2] == Protocol.GetDataResp
    requires 6 <= FrameLength(buf) <= |buf|
    requires !(skip && CrcMismatch(crc, buf[..FrameLength(buf)]))
    ensures var frame := buf[..FrameLength(buf)];
      match ParseComponents(frame, frame[3] as nat, 4, 0)
      case ParseFailed => DecodeCandidate(crc, skip, buf) == Rejected
      case Parsed(cs) =>
        DecodeCandidate(crc, skip, buf)
        == Accepted(Some(Frame(Protocol.GetDataResp, CrcExpected(frame), CrcMismatch(crc, frame), Data(cs))))
  {
    assert buf[..FrameLength(buf)][2] == buf[2];
  }

  /** A complete response of one of the seven fixed-length kinds that
      passes its length rule and the checksum gate is always accepted and
      delivered, whatever its payload bytes hold. */
  lemma {:induction false} FixedOutcomes(crc: Crc16Fn, skip: bool, buf: seq<byte>)
    requires |buf| >= 4 && Protocol.StructurallyValid(buf[2], FrameLength(buf)) && FrameLength(buf) <= |buf|
    requires buf[2] != Protocol.GetDataResp && buf[2] != Protocol.GetConfigResp
    requires !(skip && CrcMismatch(crc, buf[..FrameLength(buf)]))
    ensures DecodeCandidate(crc, skip, buf).Accepted? && DecodeCandidate(crc, skip, buf).frame.Some?
  {
    assert buf[..FrameLength(buf)][2] == buf[2];
  }

  /** The two responses that carry flags read each flag byte as "not zero",
      whatever value it holds, and the acquisition response takes its sample
      delay from bytes 9..12, whatever the reserved bytes 5..8 hold. */
  lemma {:induction false} FlagOutcomes(crc: Crc16Fn, skip: bool, buf: seq<byte>)
    requires |buf| >= 4 && FrameLength(buf) <= |buf|
    requires || (buf[2] == Protocol.GetAcqParamsResp && FrameLength(buf) == 15)
             || (buf[2] == Protocol.GetFunctionalModeResp && FrameLength(buf) == 6)
    requires !(skip && CrcMismatch(crc, buf[..FrameLength(buf)]))
    ensures DecodeCandidate(crc, skip, buf).Accepted? && DecodeCandidate(crc, skip, buf).frame.Some?
    ensures buf[2] == Protocol.GetAcqParamsResp ==>
      DecodeCandidate(crc, skip, buf).frame.value.payload
      == AcquisitionParams(buf[3] != 0, buf[4] != 0, Float32(buf[9], buf[10], buf[11], buf[12]))
    ensures buf[2] == Protocol.GetFunctionalModeResp ==>
      DecodeCandidate(crc, skip, buf).frame.value.payload == FunctionalMode(buf[3] != 0)
  {
    var frame := buf[..FrameLength(buf)];
    assert frame[2] == buf[2] && frame[3] == buf[3];
    if buf[2] == Protocol.GetAcqParamsResp {
      assert frame[4] == buf[4] && frame[9] == buf[9] && frame[10] == buf[10];
      assert frame[11] == buf[11] && frame[12] == buf[12];
    }
  }

  /** Two acquisition-parameter responses that agree on the header, on
      which flag bytes are zero and on the sample delay deliver the same
      payload: the reserved bytes 5..8 and the flags' exact values are
      never read. */
  lemma {:induction false} AcqPayloadIgnoresReserved(crc: Crc16Fn, skip: bool, a: seq<byte>, b: seq<byte>)
    requires |a| >= 15 && |b| >= 15 && a[..3] == b[..3]
    requires a[2] == Protocol.GetAcqParamsResp && FrameLength(a) == 15
    requires (a[3] == 0) == (b[3] == 0) && (a[4] == 0) == (b[4] == 0) && a[9..13] == b[9..13]
    requires !(skip && CrcMismatch(crc, a[..15])) && !(skip && CrcMismatch(crc, b[..15]))
    ensures DecodeCandidate(crc, skip, a).Accepted? && DecodeCandidate(crc, skip, a).frame.Some?
    ensures DecodeCandidate(crc, skip, b).Accepted? && DecodeCandidate(crc, skip, b).frame.Some?
    ensures DecodeCandidate(crc, skip, a).frame.value.payload == DecodeCandidate(crc, skip, b).frame.value.payload
  {
    assert a[0] == a[..3][0] == b[..3][0] == b[0];
    assert a[1] == a[..3][1] == b[..3][1] == b[1];
    assert a[2] == a[..3][2] == b[..3][2] == b[2];
    assert FrameLength(b) == FrameLength(a);
    FlagOutcomes(crc, skip, a);
    FlagOutcomes(crc, skip, b);
    assert a[9] == a[9..13][0] == b[9..13][0] == b[9];
    assert a[10] == a[9..13][1] == b[9..13][1] == b[10];
    assert a[11] == a[9..13][2] == b[9..13][2] == b[11];
    assert a[12] == a[9..13][3] == b[9..13][3] == b[12];
  }

  /** Two functional-mode responses that agree on the header and on
      whether the flag byte is zero deliver the same payload. */
  lemma {:induction false} ModePayloadIgnoresFlagValue(crc: Crc16Fn, skip: bool, a: seq<byte>, b: seq<byte>)
    requires |a| >= 6 && |b| >= 6 && a[..3] == b[..3]
    requires a[2] == Protocol.GetFunctionalModeResp && FrameLength(a) == 6
    requires (a[3] == 0) == (b[3] == 0)
    requires !(skip && CrcMismatch(crc, a[..6])) && !(skip && CrcMismatch(crc, b[..6]))
    ensures DecodeCandidate(crc, skip, a).Accepted? && DecodeCandidate(crc, skip, a).frame.Some?
    ensures DecodeCandidate(crc, skip, a).frame.value.payload == DecodeCandidate(crc, skip, b).frame.value.payload
  {
    assert a[0] == a[..3][0] == b[..3][0] == b[0];
    assert a[1] == a[..3][1] == b[..3][1] == b[1];
    assert a[2] == a[..3][2] == b[..3][2] == b[2];
    assert FrameLength(b) == FrameLength(a);
    FlagOutcomes(crc, skip, a);
    FlagOutcomes(crc, skip, b);
  }

  /** With checksum errors tolerated, the checksum decides nothing but the
      flag: two checksum functions yield the same verdict and the same payload. */
  lemma {:induction false} LenientIgnoresChecksum(crc1: Crc16Fn, crc2: Crc16Fn, buf: seq<byte>)
    requires |buf| >= 4
    ensures WithoutCrcStatus(DecodeCandidate(crc1, false, buf))
         == WithoutCrcStatus(DecodeCandidate(crc2, false, buf))
  {
  }

  /** When the checksum matches, skipping checksum errors makes no difference. */
  lemma {:induction false} StrictAgreesOnGoodChecksum(crc: Crc16Fn, buf: seq<byte>)
    requires |buf| >= 4 && FrameLength(buf) <= |buf| && FrameLength(buf) >= 2
    requires !CrcMismatch(crc, buf[..FrameLength(buf)])
    ensures DecodeCandidate(crc, true, buf) == DecodeCandidate(crc, false, buf)
  {
  }
}
