/** Concrete responses from the library's decoder tests, and one case
    derived from them (`BadSerialStrict`). The checksum
    algorithm is not part of this model, so each vector states the checksum
    values it relies on as a precondition on the checksum function. Floats
    are kept as their four big-endian bytes. */
module TestVectors {
  import opened Bytes
  import Protocol
  import opened Frames
  import opened Components
  import opened FrameDecoder
  import opened Layout
  import opened StreamDecoder
  import opened Transmission

  /** A data response laid out field by field: two length bytes, the
      identifier, the component count and the component bytes make the
      head, and the frame is the head and two trailer bytes. */
  lemma {:induction false} DataLayout(cs: seq<Component>, body: seq<byte>, head: seq<byte>, frame: seq<byte>, trailer: nat)
    requires |cs| < 256 && AllWellFormed(cs) && Flat(cs) == body && |body| < 0x1_0000 - 6
    requires |head| == |body| + 4 && U16(head[0], head[1]) == |body| + 6
    requires head[2] == Protocol.GetDataResp && head[3] as nat == |cs| && head[4..] == body
    requires |frame| == |head| + 2 && frame[..|head|] == head
    requires U16(frame[|head|], frame[|head| + 1]) == trailer
    ensures Encodable(Data(cs)) && Head(Data(cs)) == head && Framed(Data(cs), trailer) == frame
  {
    U16RoundTrip(|body| + 6);
    U16Injective(U16Bytes(|body| + 6), head[..2]);
    assert Head(Data(cs)) == head;
    Trailer(Data(cs), trailer, frame[|head|..]);
    assert frame == head + frame[|head|..];
  }

  /** A frame is its head, then its two trailer bytes. */
  lemma {:induction false} Trailer(p: Payload, trailer: nat, t: seq<byte>)
    requires Encodable(p) && |t| == 2 && U16(t[0], t[1]) == trailer
    ensures Framed(p, trailer) == Head(p) + t
  {
    U16RoundTrip(trailer);
    U16Injective(U16Bytes(trailer), t);
  }

  // ---- Module information --------------------------------------------------

  const ModInfoBytes: seq<byte> :=
    [0x00, 0x0D, 0x02, 0x54, 0x52, 0x41, 0x58, 0x50, 0x37, 0x33, 0x34, 0x2B, 0x91]

  /** Name "TRAX", revision "P734". */
  const ModInfo := ModuleInfo([0x54, 0x52, 0x41, 0x58], [0x50, 0x37, 0x33, 0x34])

  /** The module-information response decodes to its name and revision. */
  lemma {:induction false} ModInfoVector(crc: Crc16Fn)
    requires crc(ModInfoBytes[..11]) == 0x2B91
    ensures Decode(crc, Initial, ModInfoBytes)
         == Decoded(Decoder([], 1, true), [Frame(0x02, 0x2B91, false, ModInfo)])
  {
    assert Head(ModInfo) == ModInfoBytes[..11];
    assert FrameBytes(crc, ModInfo) == ModInfoBytes;
    SingleFrame(crc, true, 0, ModInfo);
  }

  // ---- Serial number -------------------------------------------------------

  const SerialBytes: seq<byte> := [0x00, 0x09, 0x35, 0x00, 0x0F, 0xBE, 0x43, 0x0E, 0xCF]

  /** The same response with the last checksum byte one higher. */
  const BadSerialBytes: seq<byte> := [0x00, 0x09, 0x35, 0x00, 0x0F, 0xBE, 0x43, 0x0E, 0xD0]

  const Serial := SerialNumber(1031747)

  lemma {:induction false} SerialLayout()
    ensures Encodable(Serial)
    ensures Framed(Serial, 0x0ECF) == SerialBytes
    ensures Framed(Serial, 0x0ED0) == BadSerialBytes
  {
    U32Injective(U32Bytes(1031747), [0x00, 0x0F, 0xBE, 0x43]);
    assert Head(Serial) == SerialBytes[..7];
  }

  /** The serial-number response decodes to 1031747. */
  lemma {:induction false} SerialVector(crc: Crc16Fn)
    requires crc(SerialBytes[..7]) == 0x0ECF
    ensures Decode(crc, Initial, SerialBytes)
         == Decoded(Decoder([], 1, true), [Frame(0x35, 0x0ECF, false, Serial)])
  {
    SerialLayout();
    assert Head(Serial) == SerialBytes[..7];
    SingleFrame(crc, true, 0, Serial);
  }

  /** With checksum errors tolerated, the corrupted response is delivered
      with the error flag set and the received trailer as the expected
      checksum. */
  lemma {:induction false} BadSerialLenient(crc: Crc16Fn)
    requires crc(BadSerialBytes[..7]) == 0x0ECF
    ensures Decode(crc, Decoder([], 0, false), BadSerialBytes)
         == Decoded(Decoder([], 1, false), [Frame(0x35, 0x0ED0, true, Serial)])
  {
    SerialLayout();
    assert Head(Serial) == BadSerialBytes[..7];
    assert BadSerialBytes + [] == BadSerialBytes;
    CandidateReads(crc, false, Serial, 0x0ED0, []);
    WholeFrame(crc, false, 0, BadSerialBytes, Frame(0x35, 0x0ED0, true, Serial));
  }

  /** With checksum errors dropped, the corrupted response is rejected. */
  lemma {:induction false} BadSerialRejected(crc: Crc16Fn)
    requires crc(BadSerialBytes[..7]) == 0x0ECF
    ensures DecodeCandidate(crc, true, BadSerialBytes).Rejected?
  {
    SerialLayout();
    assert Head(Serial) == BadSerialBytes[..7];
    assert BadSerialBytes + [] == BadSerialBytes;
    CandidateReads(crc, true, Serial, 0x0ED0, []);
  }

  /** No frame starts in the first six bytes of the corrupted response. */
  lemma {:induction false} BadSerialGarbage(crc: Crc16Fn)
    requires crc(BadSerialBytes[..7]) == 0x0ECF
    ensures Garbage(crc, true, BadSerialBytes[..6], BadSerialBytes[6..])
  {
    var rest := BadSerialBytes[6..];
    assert rest == [0x43, 0x0E, 0xD0];
    assert DecodeCandidate(crc, true, [0xBE] + rest).Rejected?;
    assert DecodeCandidate(crc, true, [0x0F, 0xBE] + rest).Rejected?;
    assert DecodeCandidate(crc, true, [0x00, 0x0F, 0xBE] + rest).Rejected?;
    assert DecodeCandidate(crc, true, [0x35, 0x00, 0x0F, 0xBE] + rest).Rejected?;
    assert DecodeCandidate(crc, true, [0x09, 0x35, 0x00, 0x0F, 0xBE] + rest).Rejected?;
    assert Garbage(crc, true, [0xBE], rest);
    assert Garbage(crc, true, [0x0F, 0xBE], rest);
    assert Garbage(crc, true, [0x00, 0x0F, 0xBE], rest);
    assert Garbage(crc, true, [0x35, 0x00, 0x0F, 0xBE], rest);
    assert Garbage(crc, true, [0x09, 0x35, 0x00, 0x0F, 0xBE], rest);
    var junk := BadSerialBytes[..6];
    assert junk[1..] == [0x09, 0x35, 0x00, 0x0F, 0xBE];
    assert junk + rest == BadSerialBytes;
    BadSerialRejected(crc);
    assert FrameLength(BadSerialBytes) == 9;
  }

  /** Derived from the corrupted-checksum test rather than taken from it:
      with checksum errors dropped (the default), the corrupted response
      yields nothing: the scan steps over its first six bytes one at a
      time, counting each, and keeps the last three. */
  lemma {:induction false} BadSerialStrict(crc: Crc16Fn)
    requires crc(BadSerialBytes[..7]) == 0x0ECF
    ensures Decode(crc, Initial, BadSerialBytes)
         == Decoded(Decoder([0x43, 0x0E, 0xD0], 6, true), [])
  {
    BadSerialGarbage(crc);
    assert BadSerialBytes[..6] + BadSerialBytes[6..] == BadSerialBytes;
    SkipGarbage(crc, true, 0, BadSerialBytes[..6], BadSerialBytes[6..]);
    ShortInput(crc, true, 6, BadSerialBytes[6..]);
  }

  // ---- Data response in three chunks ---------------------------------------

  /** One float component and its bytes. */
  lemma {:induction false} FloatComponentBytes(id: byte, f: Float32)
    ensures ComponentBytes(Component(id, [FloatBits(f)])) == [id, f.b0, f.b1, f.b2, f.b3]
  {
    ValuesBytesOne(FloatBits(f));
  }

  /** One byte component and its bytes. */
  lemma {:induction false} ByteComponentBytes(id: byte, b: byte)
    ensures ComponentBytes(Component(id, [ByteValue(b)])) == [id, b]
  {
    ValuesBytesOne(ByteValue(b));
  }

  /** The data response of the test suite, in the three chunks it arrives in. */
  const Chunk1: seq<byte> := [0x00, 0x17, 0x05, 0x04, 0x05, 0x43, 0x8E]
  const Chunk2: seq<byte> := [0x96, 0x70, 0x18, 0x3D, 0xD8, 0x98, 0x38, 0x19, 0xBE, 0xC5, 0x2B, 0x52, 0x4F]
  const Chunk3: seq<byte> := [0x01, 0xA2, 0x3E]

  /** Its component bytes, its head and the whole frame. */
  const AttitudeBytes: seq<byte> := [
    0x05, 0x43, 0x8E, 0x96, 0x70,
    0x18, 0x3D, 0xD8, 0x98, 0x38,
    0x19, 0xBE, 0xC5, 0x2B, 0x52,
    0x4F, 0x01]
  const AttitudeHead: seq<byte> := [0x00, 0x17, 0x05, 0x04] + AttitudeBytes
  const AttitudeFrame: seq<byte> := AttitudeHead + [0xA2, 0x3E]

  /** Heading, pitch, roll and heading status. */
  const Attitude: seq<Component> := [
    Component(Protocol.Heading, [FloatBits(Float32(0x43, 0x8E, 0x96, 0x70))]),
    Component(Protocol.Pitch, [FloatBits(Float32(0x3D, 0xD8, 0x98, 0x38))]),
    Component(Protocol.Roll, [FloatBits(Float32(0xBE, 0xC5, 0x2B, 0x52))]),
    Component(Protocol.HeadingStatus, [ByteValue(1)])]

  lemma {:induction false} AttitudeFlat()
    ensures Flat(Attitude) == AttitudeBytes
  {
    var cs := Attitude;
    FloatComponentBytes(cs[0].id, cs[0].values[0].f);
    FloatComponentBytes(cs[1].id, cs[1].values[0].f);
    FloatComponentBytes(cs[2].id, cs[2].values[0].f);
    ByteComponentBytes(cs[3].id, cs[3].values[0].b);
    assert cs[3..][1..] == [];
    assert Flat(cs[3..]) == [0x4F, 0x01];
    assert cs[2..][1..] == cs[3..];
    assert Flat(cs[2..]) == [0x19, 0xBE, 0xC5, 0x2B, 0x52] + [0x4F, 0x01];
    assert cs[1..][1..] == cs[2..];
    assert Flat(cs[1..]) == [0x18, 0x3D, 0xD8, 0x98, 0x38] + ([0x19, 0xBE, 0xC5, 0x2B, 0x52] + [0x4F, 0x01]);
  }

  lemma {:induction false} AttitudeWellFormed()
    ensures AllWellFormed(Attitude)
  {
    var cs := Attitude;
    assert cs[3..][1..] == [];
    assert AllWellFormed(cs[3..]);
    assert cs[2..][1..] == cs[3..];
    assert AllWellFormed(cs[2..]);
    assert cs[1..][1..] == cs[2..];
    assert AllWellFormed(cs[1..]);
  }

  lemma {:induction false} AttitudeLayout()
    ensures Encodable(Data(Attitude))
    ensures Head(Data(Attitude)) == AttitudeHead
    ensures Framed(Data(Attitude), 0xA23E) == AttitudeFrame
  {
    AttitudeFlat();
    AttitudeWellFormed();
    DataLayout(Attitude, AttitudeBytes, AttitudeHead, AttitudeFrame, 0xA23E);
  }

  /** The first chunk alone is an incomplete frame, kept for the next call. */
  lemma {:induction false} AttitudeFirstChunk(crc: Crc16Fn)
    ensures Decode(crc, Initial, Chunk1) == Decoded(Decoder(Chunk1, 0, true), [])
  {
    assert SplitHeader(Chunk1);
    SplitKept(crc, true, 0, Chunk1);
  }

  /** The three chunks joined are the whole response. */
  lemma {:induction false} AttitudeChunks()
    ensures Concat([Chunk1, Chunk2, Chunk3]) == AttitudeFrame
  {
    var chunks := [Chunk1, Chunk2, Chunk3];
    assert chunks[1..][1..][1..] == [];
    assert Concat(chunks[1..][1..]) == Chunk3 + [];
    assert Concat(chunks[1..]) == Chunk2 + (Chunk3 + []);
    assert Chunk1 + (Chunk2 + (Chunk3 + [])) == AttitudeFrame by {
      assert [0x00, 0x17, 0x05, 0x04] + AttitudeBytes == Chunk1 + (Chunk2 + [0x01]);
    }
  }

  /** What the decoder needs to know about the three chunks. */
  lemma {:induction false} AttitudeReady(crc: Crc16Fn)
    requires crc(AttitudeHead) == 0xA23E
    ensures Encodable(Data(Attitude)) && crc(Head(Data(Attitude))) == 0xA23E
    ensures Concat([Chunk1, Chunk2, Chunk3]) == Framed(Data(Attitude), 0xA23E)
  {
    AttitudeLayout();
    AttitudeChunks();
  }

  /** The data response cut into three chunks: after the last one the frame
      is delivered with all four components. */
  lemma {:induction false} AttitudeVector(crc: Crc16Fn)
    requires crc(AttitudeHead) == 0xA23E
    ensures DecodeAll(crc, Initial, [Chunk1, Chunk2, Chunk3])
         == Decoded(Decoder([], 1, true), [Frame(Protocol.GetDataResp, 0xA23E, false, Data(Attitude))])
  {
    AttitudeReady(crc);
    ChunkedFrame(crc, true, 0, Data(Attitude), 0xA23E, [Chunk1, Chunk2, Chunk3]);
  }

  // ---- Garbage, then a sample count and a data response --------------------

  /** Eleven bytes at which no frame starts. */
  const Junk: seq<byte> := [0x02, 0x54, 0x52, 0x41, 0x58, 0x50, 0x37, 0x33, 0x34, 0x2B, 0x91]

  /** A user-calibration sample count of zero: head, then checksum. */
  const NoSamplesHead: seq<byte> := [0x00, 0x09, 0x11, 0x00, 0x00, 0x00, 0x00]
  const NoSamplesFrame: seq<byte> := NoSamplesHead + [0xE6, 0xE9]

  /** A data response with heading, pitch and roll: head, then checksum. */
  const TripleHead: seq<byte> := [0x00, 0x15, 0x05, 0x03] + TripleBytes
  const TripleBytes: seq<byte> := [
    0x05, 0x42, 0x7C, 0x89, 0x60,
    0x18, 0x40, 0x8E, 0x7D, 0x22,
    0x19, 0xC0, 0xC2, 0x89, 0x1C]
  const TripleFrame: seq<byte> := TripleHead + [0x85, 0x4A]

  const MixedBytes: seq<byte> := Junk + NoSamplesFrame + TripleFrame

  const NoSamples := UserCalSampleCount(0)

  const Triple: seq<Component> := [
    Component(Protocol.Heading, [FloatBits(Float32(0x42, 0x7C, 0x89, 0x60))]),
    Component(Protocol.Pitch, [FloatBits(Float32(0x40, 0x8E, 0x7D, 0x22))]),
    Component(Protocol.Roll, [FloatBits(Float32(0xC0, 0xC2, 0x89, 0x1C))])]

  lemma {:induction false} NoSamplesLayout()
    ensures Encodable(NoSamples)
    ensures Head(NoSamples) == NoSamplesHead
    ensures Framed(NoSamples, 0xE6E9) == NoSamplesFrame
  {
    CountLayout(0, 0xE6E9);
  }

  /** The layout of a zero sample count, with the count and the trailer
      held abstract so that the layout functions are not unfolded on
      literals. */
  lemma {:induction false} CountLayout(n: nat, trailer: nat)
    requires n == 0 && trailer == 0xE6E9
    ensures Encodable(UserCalSampleCount(n))
    ensures Head(UserCalSampleCount(n)) == NoSamplesHead
    ensures Framed(UserCalSampleCount(n), trailer) == NoSamplesFrame
  {
    var p := UserCalSampleCount(n);
    U32RoundTrip(n);
    U32Injective(U32Bytes(n), [0, 0, 0, 0]);
    U16RoundTrip(|PayloadBytes(p)| + 5);
    U16Injective(U16Bytes(|PayloadBytes(p)| + 5), [0x00, 0x09]);
    Trailer(p, trailer, [0xE6, 0xE9]);
  }

  lemma {:induction false} TripleFlat()
    ensures Flat(Triple) == TripleBytes
  {
    var cs := Triple;
    FloatComponentBytes(cs[0].id, cs[0].values[0].f);
    FloatComponentBytes(cs[1].id, cs[1].values[0].f);
    FloatComponentBytes(cs[2].id, cs[2].values[0].f);
    assert cs[2..][1..] == [];
    assert Flat(cs[2..]) == [0x19, 0xC0, 0xC2, 0x89, 0x1C];
    assert cs[1..][1..] == cs[2..];
    assert Flat(cs[1..]) == [0x18, 0x40, 0x8E, 0x7D, 0x22] + [0x19, 0xC0, 0xC2, 0x89, 0x1C];
  }

  lemma {:induction false} TripleLayout()
    ensures Encodable(Data(Triple))
    ensures Head(Data(Triple)) == TripleHead
    ensures Framed(Data(Triple), 0x854A) == TripleFrame
  {
    TripleFlat();
    var cs := Triple;
    assert cs[2..][1..] == [] && cs[1..][1..] == cs[2..];
    assert AllWellFormed(cs[2..]) && AllWellFormed(cs[1..]) && AllWellFormed(cs);
    DataLayout(cs, TripleBytes, TripleHead, TripleFrame, 0x854A);
  }

  /** The garbage and the first three bytes of the frame after it. */
  const JunkWindow: seq<byte> := Junk + [0x00, 0x09, 0x11]

  /** No frame starts in the first six garbage bytes. */
  lemma {:induction false} NoFramesLow()
    ensures forall j :: 0 <= j < 6 ==> NoFrameAt(JunkWindow, j)
  {
    var buf := JunkWindow;
    assert buf[..9] == [0x02, 0x54, 0x52, 0x41, 0x58, 0x50, 0x37, 0x33, 0x34];
    assert NoFrameAt(buf, 0) && NoFrameAt(buf, 1) && NoFrameAt(buf, 2);
    assert NoFrameAt(buf, 3) && NoFrameAt(buf, 4) && NoFrameAt(buf, 5);
  }

  /** Nor in the last five. */
  lemma {:induction false} NoFramesHigh()
    ensures forall j :: 6 <= j < 11 ==> NoFrameAt(JunkWindow, j)
  {
    var buf := JunkWindow;
    assert buf[6..] == [0x37, 0x33, 0x34, 0x2B, 0x91, 0x00, 0x09, 0x11];
    assert NoFrameAt(buf, 6) && NoFrameAt(buf, 7) && NoFrameAt(buf, 8);
    assert NoFrameAt(buf, 9) && NoFrameAt(buf, 10);
  }

  /** The bytes after the window, up to the end of the stream. */
  const AfterWindow: seq<byte> := [0x00, 0x00, 0x00, 0x00, 0xE6, 0xE9] + TripleFrame

  /** No frame starts in the eleven garbage bytes, whatever follows the
      window. */
  lemma {:induction false} MixedGarbage(crc: Crc16Fn)
    ensures Garbage(crc, true, JunkWindow[..11], JunkWindow[11..] + AfterWindow)
  {
    NoFramesLow();
    NoFramesHigh();
    GarbageExtends(crc, true, JunkWindow, 11, AfterWindow);
  }

  /** The window and the bytes after it are the garbage, then the two frames. */
  lemma {:induction false} MixedParts()
    ensures |JunkWindow[..11]| == 11
    ensures JunkWindow[11..] + AfterWindow == NoSamplesFrame + TripleFrame
    ensures JunkWindow[..11] + (JunkWindow[11..] + AfterWindow) == MixedBytes
  {
    assert JunkWindow[..11] == Junk;
    assert JunkWindow[11..] + AfterWindow == NoSamplesHead + [0xE6, 0xE9] + TripleFrame;
  }

  /** After the garbage, the two frames are delivered. */
  lemma {:induction false} MixedFrames(crc: Crc16Fn)
    requires crc(NoSamplesHead) == 0xE6E9 && crc(TripleHead) == 0x854A
    ensures Decode(crc, Decoder([], 11, true), NoSamplesFrame + TripleFrame)
         == Decoded(Decoder([], 13, true), [
              Frame(Protocol.UserCalSampleCount, 0xE6E9, false, NoSamples),
              Frame(Protocol.GetDataResp, 0x854A, false, Data(Triple))])
  {
    NoSamplesLayout();
    TripleLayout();
    PairStream(crc, NoSamples, Data(Triple));
    StreamRoundTrip(crc, true, 11, [NoSamples, Data(Triple)]);
  }

  /** The decoder steps over the garbage, counting each of its eleven
      bytes, then delivers both frames: thirteen counted steps in all. */
  lemma {:induction false} MixedVector(crc: Crc16Fn)
    requires crc(NoSamplesHead) == 0xE6E9 && crc(TripleHead) == 0x854A
    ensures Decode(crc, Initial, MixedBytes)
         == Decoded(Decoder([], 13, true), [
              Frame(Protocol.UserCalSampleCount, 0xE6E9, false, NoSamples),
              Frame(Protocol.GetDataResp, 0x854A, false, Data(Triple))])
  {
    MixedFrames(crc);
    MixedParts();
    MixedGarbage(crc);
    SkipGarbage(crc, true, 0, JunkWindow[..11], JunkWindow[11..] + AfterWindow);
  }

  // ---- Two data responses across two chunks --------------------------------

  /** A quaternion response, then a temperature response, in the two
      chunks they arrive in: the first call receives eighteen bytes, the
      second the rest of the quaternion response and all of the other. */
  const QuatChunk1: seq<byte> := [
    0x00, 0x17, 0x05, 0x01, 0x4D, 0xBC, 0xBF, 0x37, 0xE4,
    0x3C, 0x9A, 0xC3, 0x4D, 0x3E, 0x9B, 0x1C, 0x7C, 0x3F]
  const QuatChunk2: seq<byte> := [0x73, 0xD9, 0x2F, 0xDD, 0x02] + TempFrame

  /** The quaternion response: component bytes, head and frame. */
  const QuatBytes: seq<byte> := [
    0x4D, 0xBC, 0xBF, 0x37, 0xE4, 0x3C, 0x9A, 0xC3, 0x4D,
    0x3E, 0x9B, 0x1C, 0x7C, 0x3F, 0x73, 0xD9, 0x2F]
  const QuatHead: seq<byte> := [0x00, 0x17, 0x05, 0x01] + QuatBytes
  const QuatFrame: seq<byte> := QuatHead + [0xDD, 0x02]

  /** The temperature response: head and frame. */
  const TempHead: seq<byte> := [0x00, 0x0B, 0x05, 0x01, 0x07, 0x41, 0xC8, 0x80, 0x00]
  const TempFrame: seq<byte> := TempHead + [0x01, 0x9A]

  const Quat := Component(Protocol.Quaternion, [
    FloatBits(Float32(0xBC, 0xBF, 0x37, 0xE4)), FloatBits(Float32(0x3C, 0x9A, 0xC3, 0x4D)),
    FloatBits(Float32(0x3E, 0x9B, 0x1C, 0x7C)), FloatBits(Float32(0x3F, 0x73, 0xD9, 0x2F))])

  const Temp := Component(Protocol.Temperature, [FloatBits(Float32(0x41, 0xC8, 0x80, 0x00))])

  lemma {:induction false} QuatFlat()
    ensures Flat([Quat]) == QuatBytes
  {
    var vs := Quat.values;
    assert vs == [FloatBits(vs[0].f), FloatBits(vs[1].f), FloatBits(vs[2].f), FloatBits(vs[3].f)];
    ValuesBytesFour(vs[0].f, vs[1].f, vs[2].f, vs[3].f);
    FlatCons(Quat, []);
    assert [Quat] + [] == [Quat];
  }

  lemma {:induction false} QuatLayout()
    ensures Encodable(Data([Quat]))
    ensures Head(Data([Quat])) == QuatHead
    ensures Framed(Data([Quat]), 0xDD02) == QuatFrame
  {
    QuatFlat();
    assert AllWellFormed([Quat]) by {
      assert [Quat][1..] == [];
    }
    DataLayout([Quat], QuatBytes, QuatHead, QuatFrame, 0xDD02);
  }

  lemma {:induction false} TempLayout()
    ensures Encodable(Data([Temp]))
    ensures Head(Data([Temp])) == TempHead
    ensures Framed(Data([Temp]), 0x019A) == TempFrame
  {
    FloatComponentBytes(Temp.id, Temp.values[0].f);
    FlatCons(Temp, []);
    assert [Temp] + [] == [Temp];
    assert AllWellFormed([Temp]) by {
      assert [Temp][1..] == [];
    }
    assert TempHead[4..] == [0x07, 0x41, 0xC8, 0x80, 0x00];
    DataLayout([Temp], TempHead[4..], TempHead, TempFrame, 0x019A);
  }

  /** The two chunks joined are the two frames back to back. */
  lemma {:induction false} QuatChunks()
    ensures Concat([QuatChunk1, QuatChunk2]) == QuatFrame + TempFrame
  {
    var chunks := [QuatChunk1, QuatChunk2];
    assert chunks[1..][1..] == [];
    assert Concat(chunks[1..]) == QuatChunk2 + [];
    assert QuatHead == QuatChunk1 + [0x73, 0xD9, 0x2F];
  }

  /** What the two-chunk vector rests on: both responses fit, their
      checksums are the trailers sent, and the chunks join into the two
      frames. */
  lemma {:induction false} QuatTempReady(crc: Crc16Fn)
    requires crc(QuatHead) == 0xDD02 && crc(TempHead) == 0x019A
    ensures Encodable(Data([Quat])) && crc(Head(Data([Quat]))) == 0xDD02
    ensures Encodable(Data([Temp])) && crc(Head(Data([Temp]))) == 0x019A
    ensures Concat([QuatChunk1, QuatChunk2]) == Framed(Data([Quat]), 0xDD02) + Framed(Data([Temp]), 0x019A)
  {
    QuatLayout();
    TempLayout();
    QuatChunks();
  }

  /** The quaternion response is split between the two calls and the
      temperature response follows it in the second: both are delivered,
      in order, after the second call. */
  lemma {:induction false} QuatTempVector(crc: Crc16Fn)
    requires crc(QuatHead) == 0xDD02 && crc(TempHead) == 0x019A
    ensures DecodeAll(crc, Initial, [QuatChunk1, QuatChunk2])
         == Decoded(Decoder([], 2, true), [
              Frame(Protocol.GetDataResp, 0xDD02, false, Data([Quat])),
              Frame(Protocol.GetDataResp, 0x019A, false, Data([Temp]))])
  {
    QuatTempReady(crc);
    ChunkedPair(crc, true, 0, Data([Quat]), 0xDD02, Data([Temp]), 0x019A, [QuatChunk1, QuatChunk2]);
  }
}
