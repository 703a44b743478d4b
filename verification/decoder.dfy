/** The scan loop of the decoder, stated for any rule that says what to do at
    one position: stop, or deliver some frames and move on. Keeping the rule
    a parameter lets the facts about the loop be proved once, independently
    of how a frame is decoded. */
module Scanner {
  import opened Bytes
  import opened Frames

  /** What the rule makes of the bytes from the scan position on: halt, or
      deliver `out`, move `adv` bytes and count `tick` steps. */
  datatype Step = Halt | Go(out: seq<Frame>, adv: nat, tick: nat)

  type Stepper = seq<byte> -> Step

  /** The result of a scan: the frames delivered in order, the position the
      scan stopped at, and how many steps were counted. */
  datatype ScanResult = ScanResult(frames: seq<Frame>, stop: nat, counted: nat)

  /** A step that moves forward and stays within the `room` bytes left. */
  predicate Moves(s: Step, room: nat) {
    s.Go? && 1 <= s.adv <= room
  }

  /** The scan of `buf` from position `i`: while four bytes remain and the
      rule moves, take its frames and move on. The stop position is
      absolute. */
  function ScanFrom(step: Stepper, buf: seq<byte>, i: nat): (r: ScanResult)
    requires i <= |buf|
    ensures i <= r.stop <= |buf|
    decreases |buf| - i
  {
    if |buf| - i < 4 || !Moves(step(buf[i..]), |buf| - i) then ScanResult([], i, 0)
    else
      var s := step(buf[i..]);
      var r := ScanFrom(step, buf, i + s.adv);
      ScanResult(s.out + r.frames, r.stop, r.counted + s.tick)
  }

  /** A scan that takes a step is that step followed by the scan from where
      it lands. */
  lemma {:induction false} ScanUnfold(step: Stepper, buf: seq<byte>, i: nat)
    requires i + 4 <= |buf| && Moves(step(buf[i..]), |buf| - i)
    ensures var s := step(buf[i..]);
      var r := ScanFrom(step, buf, i + s.adv);
      ScanFrom(step, buf, i) == ScanResult(s.out + r.frames, r.stop, r.counted + s.tick)
  {
  }

  /** The scan as a loop over an index, the way the decoder runs it: it
      delivers the frames, the stop position and the count that `ScanFrom`
      describes. */
  method ScanLoop(step: Stepper, buf: seq<byte>) returns (frames: seq<Frame>, index: nat, count: nat)
    ensures ScanResult(frames, index, count) == ScanFrom(step, buf, 0)
  {
    index := 0;
    count := 0;
    frames := [];
    ghost var whole := ScanFrom(step, buf, 0);
    ghost var rest := whole;
    while index < |buf| - 3
      invariant index <= |buf| && rest == ScanFrom(step, buf, index)
      invariant Gathered(frames, count, rest, whole)
      decreases |buf| - index
    {
      var s := step(buf[index..]);
      if !Moves(s, |buf| - index) {
        break;
      }
      ghost var tail := ScanFrom(step, buf, index + s.adv);
      GatheredStep(frames, count, rest, whole, tail, s.out, s.tick);
      frames := frames + s.out;
      index := index + s.adv;
      count := count + s.tick;
      rest := tail;
    }
    GatheredDone(frames, index, count, rest, whole);
  }

  /** What the loop has gathered so far, joined with what the scan from the
      current position gathers (`rest`), is the scan of the whole buffer. */
  predicate Gathered(frames: seq<Frame>, count: nat, rest: ScanResult, whole: ScanResult) {
    && frames + rest.frames == whole.frames
    && rest.stop == whole.stop
    && count + rest.counted == whole.counted
  }

  /** The bookkeeping of one turn of the loop. */
  lemma {:induction false} GatheredStep(frames: seq<Frame>, count: nat, rest: ScanResult, whole: ScanResult,
                                        tail: ScanResult, delivered: seq<Frame>, tick: nat)
    requires rest == ScanResult(delivered + tail.frames, tail.stop, tail.counted + tick)
    requires Gathered(frames, count, rest, whole)
    ensures Gathered(frames + delivered, count + tick, tail, whole)
  {
    ConcatAssoc(frames, delivered, tail.frames);
  }

  /** When nothing is left to scan, the loop has gathered the whole scan. */
  lemma {:induction false} GatheredDone(frames: seq<Frame>, index: nat, count: nat, rest: ScanResult, whole: ScanResult)
    requires rest == ScanResult([], index, 0) && Gathered(frames, count, rest, whole)
    ensures ScanResult(frames, index, count) == whole
  {
    assert frames + [] == frames;
  }

  /** The scan stops only where fewer than four bytes remain or the rule
      does not move. */
  lemma {:induction false} ScanRemainder(step: Stepper, buf: seq<byte>, i: nat)
    requires i <= |buf|
    ensures var r := ScanFrom(step, buf, i);
      |buf| - r.stop < 4 || !Moves(step(buf[r.stop..]), |buf| - r.stop)
    decreases |buf| - i
  {
    if |buf| - i >= 4 && Moves(step(buf[i..]), |buf| - i) {
      ScanRemainder(step, buf, i + step(buf[i..]).adv);
    }
  }

  /** Every step that moves delivers at most as many frames as it counts,
      and counts at most as many steps as bytes it moves. */
  ghost predicate Counted(step: Stepper) {
    forall b: seq<byte> :: Moves(step(b), |b|) ==> |step(b).out| <= step(b).tick <= step(b).adv
  }

  lemma {:induction false} ScanCounts(step: Stepper, buf: seq<byte>, i: nat)
    requires i <= |buf| && Counted(step)
    ensures var r := ScanFrom(step, buf, i);
      |r.frames| <= r.counted <= r.stop - i
    decreases |buf| - i
  {
    if |buf| - i >= 4 && Moves(step(buf[i..]), |buf| - i) {
      ScanCounts(step, buf, i + step(buf[i..]).adv);
    }
  }

  /** No frame in `fs` is flagged with a checksum error. */
  predicate NoCrcErrors(fs: seq<Frame>) {
    forall k :: 0 <= k < |fs| ==> !fs[k].crc16ErrorStatus
  }

  /** Every step that moves delivers only frames without a checksum error. */
  ghost predicate Clean(step: Stepper) {
    forall b: seq<byte> :: Moves(step(b), |b|) ==> NoCrcErrors(step(b).out)
  }

  lemma {:induction false} ScanClean(step: Stepper, buf: seq<byte>, i: nat)
    requires i <= |buf| && Clean(step)
    ensures NoCrcErrors(ScanFrom(step, buf, i).frames)
    decreases |buf| - i
  {
    if |buf| - i >= 4 && Moves(step(buf[i..]), |buf| - i) {
      var s := step(buf[i..]);
      ScanClean(step, buf, i + s.adv);
      NoCrcErrorsAppend(s.out, ScanFrom(step, buf, i + s.adv).frames);
    }
  }

  lemma {:induction false} NoCrcErrorsAppend(a: seq<Frame>, b: seq<Frame>)
    requires NoCrcErrors(a) && NoCrcErrors(b)
    ensures NoCrcErrors(a + b)
  {
    forall k | 0 <= k < |a + b|
      ensures !(a + b)[k].crc16ErrorStatus
    {
      if k >= |a| {
        assert (a + b)[k] == b[k - |a|];
      }
    }
  }

  /** A step that moves looks no further than the bytes it moves over:
      bytes appended afterwards do not change it. */
  ghost predicate Extends(step: Stepper) {
    forall b: seq<byte>, extra: seq<byte> {:trigger step(b + extra)} ::
      |b| >= 4 && Moves(step(b), |b|) ==> step(b + extra) == step(b)
  }

  /** Appending bytes to the buffer does not change the scan up to where the
      shorter buffer stopped: the longer scan is the shorter one followed by
      a scan of the longer buffer from that position. */
  lemma {:induction false} ScanAppend(step: Stepper, a: seq<byte>, b: seq<byte>, i: nat)
    requires i <= |a| && Extends(step)
    ensures var r1 := ScanFrom(step, a, i);
      var r2 := ScanFrom(step, a + b, r1.stop);
      ScanFrom(step, a + b, i) == ScanResult(r1.frames + r2.frames, r2.stop, r1.counted + r2.counted)
    decreases |a| - i
  {
    var r1 := ScanFrom(step, a, i);
    if |a| - i < 4 || !Moves(step(a[i..]), |a| - i) {
      assert r1 == ScanResult([], i, 0);
      assert [] + ScanFrom(step, a + b, i).frames == ScanFrom(step, a + b, i).frames;
    } else {
      var s := step(a[i..]);
      DropConcat(a, b, i);
      assert step((a + b)[i..]) == s;
      ScanAppend(step, a, b, i + s.adv);
      ScanUnfold(step, a, i);
      ScanUnfold(step, a + b, i);
      var tail := ScanFrom(step, a, i + s.adv);
      ConcatAssoc(s.out, tail.frames, ScanFrom(step, a + b, tail.stop).frames);
    }
  }

  /** A scan depends only on what lies ahead of its position: two buffers
      that agree from `i` and from `j` onwards scan alike, with positions
      shifted by `i - j`. */
  lemma {:induction false} ScanSuffix(step: Stepper, x: seq<byte>, i: nat, y: seq<byte>, j: nat)
    requires i <= |x| && j <= |y| && x[i..] == y[j..]
    ensures var r := ScanFrom(step, x, i);
      var q := ScanFrom(step, y, j);
      q.frames == r.frames && q.counted == r.counted && q.stop - j == r.stop - i
    decreases |x| - i
  {
    assert |x| - i == |y| - j;
    if |x| - i >= 4 && Moves(step(x[i..]), |x| - i) {
      var s := step(x[i..]);
      assert x[i + s.adv..] == y[j + s.adv..] by {
        DropDrop(x, i, s.adv);
        DropDrop(y, j, s.adv);
      }
      ScanSuffix(step, x, i + s.adv, y, j + s.adv);
      ScanUnfold(step, x, i);
      ScanUnfold(step, y, j);
    }
  }

  /** `junk`, read with `rest` after it, is stepped over one byte at a
      time, each step counted and delivering nothing. */
  predicate SkipsOver(step: Stepper, junk: seq<byte>, rest: seq<byte>)
    decreases |junk|
  {
    junk == [] ||
      (&& |junk + rest| >= 4
       && step(junk + rest) == Go([], 1, 1)
       && SkipsOver(step, junk[1..], rest))
  }

  /** The scan over a stretch the rule steps over is the scan of what
      follows, shifted by its length and with one counted step per byte. */
  lemma {:induction false} ScanSkipsOver(step: Stepper, junk: seq<byte>, rest: seq<byte>)
    requires SkipsOver(step, junk, rest)
    ensures var r := ScanFrom(step, rest, 0);
      ScanFrom(step, junk + rest, 0) == ScanResult(r.frames, r.stop + |junk|, r.counted + |junk|)
    decreases |junk|
  {
    var whole := junk + rest;
    if junk == [] {
      assert whole == rest;
    } else {
      ScanSkipOne(step, whole);
      assert whole[1..] == junk[1..] + rest;
      ScanSkipsOver(step, junk[1..], rest);
    }
  }

  /** A scan whose first step moves one byte and delivers nothing is the
      scan of the buffer without its first byte, one byte further on. */
  lemma {:induction false} ScanSkipOne(step: Stepper, buf: seq<byte>)
    requires |buf| >= 4 && step(buf).Go? && step(buf).out == [] && step(buf).adv == 1
    ensures var r := ScanFrom(step, buf[1..], 0);
      ScanFrom(step, buf, 0) == ScanResult(r.frames, r.stop + 1, r.counted + step(buf).tick)
  {
    assert buf[0..] == buf;
    ScanUnfold(step, buf, 0);
    ScanSuffix(step, buf, 1, buf[1..], 0);
  }

  /** Two scans, the second over what the first left plus `b`, gather what
      one scan of `a + b` gathers and stop where it stops. */
  lemma {:induction false} ScanJoin(step: Stepper, a: seq<byte>, b: seq<byte>)
    requires Extends(step)
    ensures var s1 := ScanFrom(step, a, 0);
      var rest := a[s1.stop..] + b;
      var s2 := ScanFrom(step, rest, 0);
      var w := ScanFrom(step, a + b, 0);
      && rest[s2.stop..] == (a + b)[w.stop..]
      && s1.frames + s2.frames == w.frames
      && s1.counted + s2.counted == w.counted
  {
    var s1 := ScanFrom(step, a, 0);
    ScanAppend(step, a, b, 0);
    var t := ScanFrom(step, a + b, s1.stop);
    DropConcat(a, b, s1.stop);
    ScanSuffix(step, a + b, s1.stop, a[s1.stop..] + b, 0);
    DropDrop(a + b, s1.stop, t.stop - s1.stop);
  }

  lemma {:induction false} ConcatAssoc<T>(a: seq<T>, b: seq<T>, c: seq<T>)
    ensures a + (b + c) == (a + b) + c
  {
  }

  lemma {:induction false} DropDrop<T>(s: seq<T>, i: nat, j: nat)
    requires i + j <= |s|
    ensures s[i..][j..] == s[i + j..]
  {
  }

  lemma {:induction false} DropConcat<T>(a: seq<T>, b: seq<T>, i: nat)
    requires i <= |a|
    ensures (a + b)[i..] == a[i..] + b
  {
  }
}

/** The streaming decoder: a backlog carried between calls, a counter, and the
    checksum policy; `Decode` joins the backlog with the new bytes, scans them,
    and keeps what it could not resolve. */
module StreamDecoder {
  import opened Wrappers
  import opened Bytes
  import Protocol
  import opened Frames
  import opened FrameDecoder
  import opened FrameChecks
  import opened Scanner

  /** Decoder state between calls: the unprocessed bytes, the number of scan
      steps that saw a non-zero declared length, and whether frames with a
      checksum error are dropped. */
  datatype Decoder = Decoder(backlog: seq<byte>, count: nat, skipCrcErrorFrame: bool)

  /** A freshly constructed decoder: nothing buffered, nothing counted, frames
      with a checksum error dropped. */
  const Initial := Decoder([], 0, true)

  /** The result of one `Decode` call. */
  datatype Decoded = Decoded(decoder: Decoder, frames: seq<Frame>)

  /** `b` starts with the header of a frame that passes its length rule but is
      not yet complete. */
  predicate SplitHeader(b: seq<byte>) {
    |b| >= 4 && Protocol.StructurallyValid(b[2], FrameLength(b)) && FrameLength(b) > |b|
  }

  /** A decoder whose backlog is what a scan leaves behind: fewer than four
      bytes, or the start of an incomplete frame. The initial decoder and
      every decoder `Decode` returns are settled. */
  predicate Settled(d: Decoder) {
    |d.backlog| < 4 || SplitHeader(d.backlog)
  }

  /** The frames a status delivers. */
  function Delivered(st: Status): seq<Frame> {
    if st.Accepted? && st.frame.Some? then [st.frame.value] else []
  }

  /** How far a step moves: the declared length past an accepted frame, one
      byte otherwise. */
  function Advance(st: Status, n: nat): nat {
    if st.Accepted? then n else 1
  }

  /** Whether a scan step with declared length `n` is counted. */
  function Tick(n: nat): nat {
    if n != 0 then 1 else 0
  }

  /** The decoder's rule at one scan position: halt at a split candidate,
      otherwise deliver what the candidate yields and advance past it. */
  function CandidateStep(crc: Crc16Fn, skip: bool, b: seq<byte>): (s: Step)
    ensures s.Halt? <==> |b| < 4 || SplitHeader(b)
    ensures s.Go? ==> 1 <= s.adv <= |b| && |s.out| <= s.tick <= 1
  {
    if |b| < 4 then Halt
    else
      var st := DecodeCandidate(crc, skip, b);
      if st.Split? then Halt
      else Go(Delivered(st), Advance(st, FrameLength(b)), Tick(FrameLength(b)))
  }

  /** The rule as a value the scan can be parameterised by. */
  function Rule(crc: Crc16Fn, skip: bool): Stepper {
    b => CandidateStep(crc, skip, b)
  }

  /** Scan progress at one position: past an accepted frame the scan moves
      by its whole declared length, which is at least five; past anything
      else that is not split it moves by one byte and delivers nothing. The
      step is counted exactly when the declared length is not zero. */
  lemma {:induction false} RuleAdvance(crc: Crc16Fn, skip: bool, b: seq<byte>)
    requires |b| >= 4 && !SplitHeader(b)
    ensures var s := Rule(crc, skip)(b);
      && s.Go?
      && (DecodeCandidate(crc, skip, b).Accepted? ==> 5 <= s.adv == FrameLength(b) <= |b|)
      && (!DecodeCandidate(crc, skip, b).Accepted? ==> s.adv == 1 && s.out == [])
      && (s.tick == 1 <==> FrameLength(b) != 0)
      && (s.tick == 0 <==> FrameLength(b) == 0)
  {
  }

  /** At four bytes or more the decoder's rule always moves, except at a
      split candidate, which is exactly where it halts. */
  lemma {:induction false} RuleMoves(crc: Crc16Fn, skip: bool, b: seq<byte>)
    requires |b| >= 4
    ensures Moves(Rule(crc, skip)(b), |b|) <==> !SplitHeader(b)
    ensures Moves(Rule(crc, skip)(b), |b|) ==>
      var s := Rule(crc, skip)(b);
      && |s.out| <= s.tick <= s.adv
      && (skip ==> NoCrcErrors(s.out))
  {
    var st := DecodeCandidate(crc, skip, b);
    if st.Accepted? && st.frame.Some? {
      assert Delivered(st)[0] == st.frame.value;
    }
  }

  /** The decoder's rule counts as the scan lemmas ask: at most one frame
      per counted step and at most one counted step per byte. */
  lemma {:induction false} RuleCounted(crc: Crc16Fn, skip: bool)
    ensures Counted(Rule(crc, skip))
  {
    forall b: seq<byte> | Moves(Rule(crc, skip)(b), |b|)
      ensures |Rule(crc, skip)(b).out| <= Rule(crc, skip)(b).tick <= Rule(crc, skip)(b).adv
    {
      RuleMoves(crc, skip, b);
    }
  }

  /** With checksum errors dropped, the decoder's rule delivers no frame
      that carries one. */
  lemma {:induction false} RuleClean(crc: Crc16Fn)
    ensures Clean(Rule(crc, true))
  {
    forall b: seq<byte> | Moves(Rule(crc, true)(b), |b|)
      ensures NoCrcErrors(Rule(crc, true)(b).out)
    {
      RuleMoves(crc, true, b);
    }
  }

  /** The decoder's rule looks no further than the frame it moves over. */
  lemma {:induction false} RuleExtends(crc: Crc16Fn, skip: bool)
    ensures Extends(Rule(crc, skip))
  {
    forall b: seq<byte>, extra: seq<byte> | |b| >= 4 && Moves(Rule(crc, skip)(b), |b|)
      ensures Rule(crc, skip)(b + extra) == Rule(crc, skip)(b)
    {
      CandidateExtends(crc, skip, b, extra);
      assert (b + extra)[..4] == b[..4];
    }
  }

  /** One call of the decoder on newly received bytes. */
  function Decode(crc: Crc16Fn, d: Decoder, bytes: seq<byte>): (r: Decoded)
    ensures var buf := d.backlog + bytes;
      && r.decoder.skipCrcErrorFrame == d.skipCrcErrorFrame
      && |r.decoder.backlog| <= |buf|
      && d.count + |r.frames| <= r.decoder.count <= d.count + |buf| - |r.decoder.backlog|
  {
    var buf := d.backlog + bytes;
    var step := Rule(crc, d.skipCrcErrorFrame);
    var r := ScanFrom(step, buf, 0);
    ScanFacts(crc, d.skipCrcErrorFrame, buf);
    Decoded(Decoder(buf[r.stop..], d.count + r.counted, d.skipCrcErrorFrame), r.frames)
  }

  /** What one call leaves behind: the backlog is the tail of the joined
      buffer, it is settled, and with checksum errors dropped no delivered
      frame carries one. Stated apart from `Decode` so that proofs about
      particular inputs do not carry these facts along. */
  lemma {:induction false} DecodeFacts(crc: Crc16Fn, d: Decoder, bytes: seq<byte>)
    ensures var buf := d.backlog + bytes;
      var r := Decode(crc, d, bytes);
      && r.decoder.backlog == buf[|buf| - |r.decoder.backlog|..]
      && Settled(r.decoder)
      && (d.skipCrcErrorFrame ==> NoCrcErrors(r.frames))
  {
    ScanFacts(crc, d.skipCrcErrorFrame, d.backlog + bytes);
  }

  /** What the scan of a joined buffer guarantees: it stops short of four
      bytes or at a split header, delivers at most one frame per counted
      step and counts at most one step per byte, and with checksum errors
      dropped it delivers none that carries one. */
  lemma {:induction false} ScanFacts(crc: Crc16Fn, skip: bool, buf: seq<byte>)
    ensures var r := ScanFrom(Rule(crc, skip), buf, 0);
      && (|buf| - r.stop < 4 || SplitHeader(buf[r.stop..]))
      && |r.frames| <= r.counted <= r.stop
      && (skip ==> NoCrcErrors(r.frames))
  {
    var step := Rule(crc, skip);
    var r := ScanFrom(step, buf, 0);
    RuleCounted(crc, skip);
    ScanRemainder(step, buf, 0);
    ScanCounts(step, buf, 0);
    if skip {
      RuleClean(crc);
      ScanClean(step, buf, 0);
    }
    if |buf| - r.stop >= 4 {
      RuleMoves(crc, skip, buf[r.stop..]);
    }
  }

  /** The decoder as the source writes it: an index into the joined buffer,
      advanced by one or by the frame length, and the remainder kept as the
      backlog. It computes exactly what `Decode` does. */
  method DecodeLoop(crc: Crc16Fn, d: Decoder, bytes: seq<byte>) returns (next: Decoder, frames: seq<Frame>)
    ensures Decoded(next, frames) == Decode(crc, d, bytes)
  {
    var buf := d.backlog + bytes;
    var index, counted;
    frames, index, counted := ScanLoop(Rule(crc, d.skipCrcErrorFrame), buf);
    next := Decoder(buf[index..], d.count + counted, d.skipCrcErrorFrame);
  }

  /** Splitting the input between two calls changes nothing: feeding `a`
      and then `b` gives the same decoder and the same frames, in the same
      order, as feeding `a + b` at once. */
  lemma {:induction false} DecodeAppend(crc: Crc16Fn, d: Decoder, a: seq<byte>, b: seq<byte>)
    ensures var first := Decode(crc, d, a);
      var second := Decode(crc, first.decoder, b);
      var whole := Decode(crc, d, a + b);
      && second.decoder == whole.decoder
      && first.frames + second.frames == whole.frames
  {
    assert d.backlog + (a + b) == (d.backlog + a) + b;
    RuleExtends(crc, d.skipCrcErrorFrame);
    ScanJoin(Rule(crc, d.skipCrcErrorFrame), d.backlog + a, b);
  }

  /** Feeding a sequence of chunks one call after another. */
  function DecodeAll(crc: Crc16Fn, d: Decoder, chunks: seq<seq<byte>>): Decoded
    decreases |chunks|
  {
    if chunks == [] then Decoded(d, [])
    else
      var first := Decode(crc, d, chunks[0]);
      var rest := DecodeAll(crc, first.decoder, chunks[1..]);
      Decoded(rest.decoder, first.frames + rest.frames)
  }

  /** The chunks joined in order. */
  function Concat(chunks: seq<seq<byte>>): seq<byte>
    decreases |chunks|
  {
    if chunks == [] then [] else chunks[0] + Concat(chunks[1..])
  }

  /** Any number of chunks fed in order decode as their concatenation does. */
  lemma {:induction false} DecodeAllIsDecode(crc: Crc16Fn, d: Decoder, chunks: seq<seq<byte>>)
    requires Settled(d)
    ensures DecodeAll(crc, d, chunks) == Decode(crc, d, Concat(chunks))
    decreases |chunks|
  {
    if chunks == [] {
      EmptyInputKeepsState(crc, d);
    } else {
      DecodeFacts(crc, d, chunks[0]);
      DecodeAllIsDecode(crc, Decode(crc, d, chunks[0]).decoder, chunks[1..]);
      DecodeAppend(crc, d, chunks[0], Concat(chunks[1..]));
    }
  }

  /** Re-scanning what a decoder keeps changes nothing. */
  lemma {:induction false} EmptyInputKeepsState(crc: Crc16Fn, d: Decoder)
    requires Settled(d)
    ensures Decode(crc, d, []) == Decoded(d, [])
  {
    assert d.backlog + [] == d.backlog;
    assert d.backlog[0..] == d.backlog;
    if |d.backlog| >= 4 {
      RuleMoves(crc, d.skipCrcErrorFrame, d.backlog);
    }
  }
}
