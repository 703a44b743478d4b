/** Streams of responses laid out back to back, as the module sends them,
    and what the decoder makes of them: every frame, in order, however the
    stream is cut into chunks. */
module Transmission {
  import opened Wrappers
  import opened Bytes
  import Protocol
  import opened Frames
  import opened FrameDecoder
  import opened Layout
  import opened Scanner
  import opened StreamDecoder

  /** Every payload fits its response and has a 16-bit checksum. */
  predicate AllSendable(crc: Crc16Fn, ps: seq<Payload>)
    decreases |ps|
  {
    ps == [] || (Encodable(ps[0]) && Sealable(crc, ps[0]) && AllSendable(crc, ps[1..]))
  }

  /** The payloads' frames back to back. */
  function StreamBytes(crc: Crc16Fn, ps: seq<Payload>): seq<byte>
    requires AllSendable(crc, ps)
    decreases |ps|
  {
    if ps == [] then [] else FrameBytes(crc, ps[0]) + StreamBytes(crc, ps[1..])
  }

  /** The frames the decoder should deliver for the payloads, in order. */
  function ExpectedAll(crc: Crc16Fn, ps: seq<Payload>): seq<Frame>
    requires AllSendable(crc, ps)
    decreases |ps|
  {
    if ps == [] then [] else [Expected(crc, ps[0])] + ExpectedAll(crc, ps[1..])
  }

  /** Scanning a stream of laid-out frames accepts every one of them, in
      order, counts one step per frame, and consumes every byte. */
  lemma {:induction false} ScanStream(crc: Crc16Fn, skip: bool, ps: seq<Payload>)
    requires AllSendable(crc, ps)
    ensures var buf := StreamBytes(crc, ps);
      ScanFrom(Rule(crc, skip), buf, 0) == ScanResult(ExpectedAll(crc, ps), |buf|, |ps|)
    decreases |ps|
  {
    var buf := StreamBytes(crc, ps);
    var step := Rule(crc, skip);
    if ps != [] {
      var p := ps[0];
      var f := FrameBytes(crc, p);
      var tail := StreamBytes(crc, ps[1..]);
      assert buf == f + tail;
      CandidateRoundTrip(crc, skip, p, tail);
      assert FrameLength(buf) == |f| by {
        assert buf[0] == f[0] && buf[1] == f[1];
      }
      assert buf[0..] == buf;
      assert step(buf[0..]) == Go([Expected(crc, p)], |f|, 1);
      ScanUnfold(step, buf, 0);
      ScanStream(crc, skip, ps[1..]);
      assert buf[|f|..] == tail;
      ScanSuffix(step, buf, |f|, tail, 0);
    }
  }

  /** A decoder with nothing buffered that receives a stream of laid-out
      frames delivers exactly those frames, counts one per frame, and keeps
      nothing back. */
  lemma {:induction false} StreamRoundTrip(crc: Crc16Fn, skip: bool, count: nat, ps: seq<Payload>)
    requires AllSendable(crc, ps)
    ensures Decode(crc, Decoder([], count, skip), StreamBytes(crc, ps))
         == Decoded(Decoder([], count + |ps|, skip), ExpectedAll(crc, ps))
  {
    var buf := StreamBytes(crc, ps);
    var d := Decoder([], count, skip);
    assert d.backlog + buf == buf;
    ScanStream(crc, skip, ps);
    assert buf[|buf|..] == [];
  }

  /** A single frame on a fresh decoder is delivered as laid out. */
  lemma {:induction false} SingleFrame(crc: Crc16Fn, skip: bool, count: nat, p: Payload)
    requires Encodable(p) && Sealable(crc, p)
    ensures Decode(crc, Decoder([], count, skip), FrameBytes(crc, p))
         == Decoded(Decoder([], count + 1, skip), [Expected(crc, p)])
  {
    var f := FrameBytes(crc, p);
    CandidateRoundTrip(crc, skip, p, []);
    assert f + [] == f;
    WholeFrame(crc, skip, count, f, Expected(crc, p));
  }

  /** A buffer holding exactly one frame that its candidate accepts:
      the frame is delivered, counted, and nothing is kept. */
  lemma {:induction false} WholeFrame(crc: Crc16Fn, skip: bool, count: nat, buf: seq<byte>, fr: Frame)
    requires |buf| >= 4 && FrameLength(buf) == |buf|
    requires DecodeCandidate(crc, skip, buf) == Accepted(Some(fr))
    ensures Decode(crc, Decoder([], count, skip), buf) == Decoded(Decoder([], count + 1, skip), [fr])
  {
    var step := Rule(crc, skip);
    assert [] + buf == buf;
    assert buf[0..] == buf;
    assert step(buf[0..]) == Go([fr], |buf|, 1);
    ScanUnfold(step, buf, 0);
    assert [fr] + [] == [fr];
    assert buf[|buf|..] == [];
  }

  /** Fewer than four bytes are never examined: they are kept as they are
      and nothing is counted. */
  lemma {:induction false} ShortInput(crc: Crc16Fn, skip: bool, count: nat, bytes: seq<byte>)
    requires |bytes| < 4
    ensures Decode(crc, Decoder([], count, skip), bytes) == Decoded(Decoder(bytes, count, skip), [])
  {
    assert [] + bytes == bytes;
    assert bytes[0..] == bytes;
  }

  /** A buffer that starts with an incomplete frame is kept whole, to be
      completed by the next call; nothing is delivered or counted. */
  lemma {:induction false} SplitKept(crc: Crc16Fn, skip: bool, count: nat, bytes: seq<byte>)
    requires SplitHeader(bytes)
    ensures Decode(crc, Decoder([], count, skip), bytes) == Decoded(Decoder(bytes, count, skip), [])
  {
    assert [] + bytes == bytes;
    assert bytes[0..] == bytes;
    RuleMoves(crc, skip, bytes);
  }

  /** The same holds however the stream is cut into chunks fed one call
      after another. */
  lemma {:induction false} ChunkedStreamRoundTrip(crc: Crc16Fn, skip: bool, count: nat, ps: seq<Payload>, chunks: seq<seq<byte>>)
    requires AllSendable(crc, ps) && Concat(chunks) == StreamBytes(crc, ps)
    ensures DecodeAll(crc, Decoder([], count, skip), chunks)
         == Decoded(Decoder([], count + |ps|, skip), ExpectedAll(crc, ps))
  {
    DecodeAllIsDecode(crc, Decoder([], count, skip), chunks);
    StreamRoundTrip(crc, skip, count, ps);
  }

  /** Resynchronisation: a byte at which no frame starts is stepped over;
      the decoder goes on from the next byte exactly as a fresh decoder fed
      the rest would, with the step counted when the length there is not
      zero. */
  lemma {:induction false} SkipRejected(crc: Crc16Fn, skip: bool, count: nat, g: byte, bytes: seq<byte>)
    requires |bytes| >= 3 && DecodeCandidate(crc, skip, [g] + bytes).Rejected?
    ensures Decode(crc, Decoder([], count, skip), [g] + bytes)
         == Decode(crc, Decoder([], count + Tick(FrameLength([g] + bytes)), skip), bytes)
  {
    var buf := [g] + bytes;
    assert buf[1..] == bytes;
    ScanSkip(crc, skip, buf);
    DecodeShift(crc, skip, count, buf, 1, Tick(FrameLength(buf)));
  }

  /** The scan over a buffer whose first candidate is rejected is the scan
      of the buffer without its first byte, one byte further on. */
  lemma {:induction false} ScanSkip(crc: Crc16Fn, skip: bool, buf: seq<byte>)
    requires |buf| >= 4 && DecodeCandidate(crc, skip, buf).Rejected?
    ensures var r0 := ScanFrom(Rule(crc, skip), buf, 0);
      var r1 := ScanFrom(Rule(crc, skip), buf[1..], 0);
      r0 == ScanResult(r1.frames, r1.stop + 1, r1.counted + Tick(FrameLength(buf)))
  {
    assert Rule(crc, skip)(buf) == Go([], 1, Tick(FrameLength(buf)));
    ScanSkipOne(Rule(crc, skip), buf);
  }

  /** Every position of `junk`, read with `rest` after it, is rejected at a
      non-zero declared length. */
  predicate Garbage(crc: Crc16Fn, skip: bool, junk: seq<byte>, rest: seq<byte>)
    decreases |junk|
  {
    junk == [] ||
      (&& |junk + rest| >= 4
       && DecodeCandidate(crc, skip, junk + rest).Rejected?
       && FrameLength(junk + rest) != 0
       && Garbage(crc, skip, junk[1..], rest))
  }

  /** A run of bytes at which no frame starts is stepped over byte by byte,
      each step counted, and what follows decodes as if fed alone. */
  lemma {:induction false} SkipGarbage(crc: Crc16Fn, skip: bool, count: nat, junk: seq<byte>, rest: seq<byte>)
    requires Garbage(crc, skip, junk, rest)
    ensures Decode(crc, Decoder([], count, skip), junk + rest)
         == Decode(crc, Decoder([], count + |junk|, skip), rest)
  {
    ScanGarbage(crc, skip, junk, rest);
    DecodeShift(crc, skip, count, junk + rest, |junk|, |junk|);
  }

  /** The scan-level form of `SkipGarbage`. */
  lemma {:induction false} ScanGarbage(crc: Crc16Fn, skip: bool, junk: seq<byte>, rest: seq<byte>)
    requires Garbage(crc, skip, junk, rest)
    ensures (junk + rest)[|junk|..] == rest
    ensures var r := ScanFrom(Rule(crc, skip), (junk + rest)[|junk|..], 0);
      ScanFrom(Rule(crc, skip), junk + rest, 0) == ScanResult(r.frames, r.stop + |junk|, r.counted + |junk|)
  {
    assert (junk + rest)[|junk|..] == rest;
    GarbageSkips(crc, skip, junk, rest);
    ScanSkipsOver(Rule(crc, skip), junk, rest);
  }

  /** When the scan of a buffer is the scan of its tail after `k` bytes,
      shifted by `k` and with `extra` more counted steps, a fresh decoder
      fed the buffer ends as one fed the tail with `extra` more counted. */
  lemma {:induction false} DecodeShift(crc: Crc16Fn, skip: bool, count: nat, buf: seq<byte>, k: nat, extra: nat)
    requires k <= |buf|
    requires var r := ScanFrom(Rule(crc, skip), buf[k..], 0);
      ScanFrom(Rule(crc, skip), buf, 0) == ScanResult(r.frames, r.stop + k, r.counted + extra)
    ensures Decode(crc, Decoder([], count, skip), buf)
         == Decode(crc, Decoder([], count + extra, skip), buf[k..])
  {
    var r := ScanFrom(Rule(crc, skip), buf[k..], 0);
    DropDrop(buf, k, r.stop);
    DecodeFresh(crc, count, skip, buf);
    DecodeFresh(crc, count + extra, skip, buf[k..]);
  }

  /** A decoder with nothing buffered decodes a buffer to what one scan
      of that buffer finds. */
  lemma {:induction false} DecodeFresh(crc: Crc16Fn, count: nat, skip: bool, buf: seq<byte>)
    ensures var r := ScanFrom(Rule(crc, skip), buf, 0);
      Decode(crc, Decoder([], count, skip), buf)
      == Decoded(Decoder(buf[r.stop..], count + r.counted, skip), r.frames)
  {
    assert [] + buf == buf;
  }


  /** The decoder's rule steps over garbage. */
  lemma {:induction false} GarbageSkips(crc: Crc16Fn, skip: bool, junk: seq<byte>, rest: seq<byte>)
    requires Garbage(crc, skip, junk, rest)
    ensures SkipsOver(Rule(crc, skip), junk, rest)
    decreases |junk|
  {
    if junk != [] {
      assert Rule(crc, skip)(junk + rest) == Go([], 1, 1);
      GarbageSkips(crc, skip, junk[1..], rest);
    }
  }


  /** A frame laid out with a trailer that matches its checksum, cut into
      any chunks, is delivered once the last chunk arrives. */
  lemma {:induction false} ChunkedFrame(crc: Crc16Fn, skip: bool, count: nat, p: Payload, trailer: nat, chunks: seq<seq<byte>>)
    requires Encodable(p) && trailer < 0x1_0000 && crc(Head(p)) == trailer
    requires Concat(chunks) == Framed(p, trailer)
    ensures DecodeAll(crc, Decoder([], count, skip), chunks)
         == Decoded(Decoder([], count + 1, skip), [Frame(FrameIdOf(p), trailer, false, p)])
  {
    DecodeAllIsDecode(crc, Decoder([], count, skip), chunks);
    SingleFrame(crc, skip, count, p);
  }

  /** Two frames laid out with trailers that match their checksums, back
      to back and cut into any chunks, are both delivered, in order, once
      the last chunk arrives. */
  lemma {:induction false} ChunkedPair(crc: Crc16Fn, skip: bool, count: nat, p: Payload, tp: nat, q: Payload, tq: nat, chunks: seq<seq<byte>>)
    requires Encodable(p) && tp < 0x1_0000 && crc(Head(p)) == tp
    requires Encodable(q) && tq < 0x1_0000 && crc(Head(q)) == tq
    requires Concat(chunks) == Framed(p, tp) + Framed(q, tq)
    ensures DecodeAll(crc, Decoder([], count, skip), chunks)
         == Decoded(Decoder([], count + 2, skip),
                    [Frame(FrameIdOf(p), tp, false, p), Frame(FrameIdOf(q), tq, false, q)])
  {
    PairStream(crc, p, q);
    ChunkedStreamRoundTrip(crc, skip, count, [p, q], chunks);
  }

  /** Two payloads back to back. */
  lemma {:induction false} PairStream(crc: Crc16Fn, p: Payload, q: Payload)
    requires Encodable(p) && Sealable(crc, p) && Encodable(q) && Sealable(crc, q)
    ensures AllSendable(crc, [p, q])
    ensures StreamBytes(crc, [p, q]) == FrameBytes(crc, p) + FrameBytes(crc, q)
    ensures ExpectedAll(crc, [p, q]) == [Expected(crc, p), Expected(crc, q)]
  {
    var ps := [p, q];
    assert ps[1..] == [q] && [q][1..] == [];
    assert AllSendable(crc, [q]);
    assert StreamBytes(crc, [q]) == FrameBytes(crc, q) + [] == FrameBytes(crc, q);
    assert ExpectedAll(crc, [q]) == [Expected(crc, q)] + [] == [Expected(crc, q)];
  }

  /** No frame can start at position `j` of `buf`: four bytes are there,
      the declared length is not zero, and the length rule fails. */
  predicate NoFrameAt(buf: seq<byte>, j: nat) {
    && j + 4 <= |buf|
    && U16(buf[j], buf[j + 1]) != 0
    && !Protocol.StructurallyValid(buf[j + 2], U16(buf[j], buf[j + 1]))
  }

  /** Positions at which no frame can start, one after another, are garbage
      the decoder steps over. */
  lemma {:induction false} GarbageFrom(crc: Crc16Fn, skip: bool, buf: seq<byte>, k: nat, n: nat)
    requires k <= n <= |buf|
    requires forall j :: k <= j < n ==> NoFrameAt(buf, j)
    ensures Garbage(crc, skip, buf[k..n], buf[n..])
    decreases n - k
  {
    if k < n {
      GarbageFrom(crc, skip, buf, k + 1, n);
      assert NoFrameAt(buf, k);
      var b := buf[k..n] + buf[n..];
      assert b == buf[k..];
      assert b[0] == buf[k] && b[1] == buf[k + 1] && b[2] == buf[k + 2];
      assert buf[k..n][1..] == buf[k + 1..n];
    }
  }

  /** Garbage found in the first `n + 3` bytes of a buffer stays garbage
      whatever follows: only the first four bytes at a position decide that
      no frame starts there. */
  lemma {:induction false} GarbageExtends(crc: Crc16Fn, skip: bool, buf: seq<byte>, n: nat, more: seq<byte>)
    requires n <= |buf|
    requires forall j :: 0 <= j < n ==> NoFrameAt(buf, j)
    ensures Garbage(crc, skip, buf[..n], buf[n..] + more)
  {
    var all := buf + more;
    forall j | 0 <= j < n
      ensures NoFrameAt(all, j)
    {
      assert NoFrameAt(buf, j);
    }
    GarbageFrom(crc, skip, all, 0, n);
    assert all[0..n] == buf[..n];
    assert all[n..] == buf[n..] + more;
  }
}
