/** The component list of a data response: the count byte at offset 3, then
    components from offset 4 on, each an identifier byte and the value bytes
    its kind prescribes. */
module Components {
  import opened Bytes
  import opened Protocol
  import opened Frames

  datatype Parse = ParseFailed | Parsed(components: seq<Component>)

  /** The float whose four bytes start at `at`. */
  function ReadFloat(b: seq<byte>, at: nat): (f: Float32)
    requires at + 4 <= |b|
  {
    Float32(b[at], b[at + 1], b[at + 2], b[at + 3])
  }

  function FloatBytes(f: Float32): seq<byte> {
    [f.b0, f.b1, f.b2, f.b3]
  }

  function ValueBytes(v: Value): seq<byte> {
    match v
    case FloatBits(f) => FloatBytes(f)
    case ByteValue(b) => [b]
  }

  function ValuesBytes(vs: seq<Value>): seq<byte> {
    if vs == [] then [] else ValueBytes(vs[0]) + ValuesBytes(vs[1..])
  }

  /** The bytes one component occupies in a data response. */
  function ComponentBytes(c: Component): seq<byte> {
    [c.id] + ValuesBytes(c.values)
  }

  /** The bytes a run of components occupies, back to back. */
  function Flat(cs: seq<Component>): seq<byte> {
    if cs == [] then [] else ComponentBytes(cs[0]) + Flat(cs[1..])
  }

  /** A component the decoder can produce: its identifier is known and its
      values have the shape that identifier prescribes. */
  predicate WellFormed(c: Component) {
    match KindOf(c.id)
    case FloatScalar => |c.values| == 1 && c.values[0].FloatBits?
    case ByteScalar => |c.values| == 1 && c.values[0].ByteValue?
    case FourFloats =>
      |c.values| == 4 && c.values[0].FloatBits? && c.values[1].FloatBits?
      && c.values[2].FloatBits? && c.values[3].FloatBits?
    case UnknownComponent => false
  }

  lemma {:induction false} ValuesBytesOne(v: Value)
    ensures ValuesBytes([v]) == ValueBytes(v)
  {
    assert [v][1..] == [];
  }

  lemma {:induction false} ValuesBytesFour(a: Float32, b: Float32, c: Float32, d: Float32)
    ensures ValuesBytes([FloatBits(a), FloatBits(b), FloatBits(c), FloatBits(d)])
         == FloatBytes(a) + FloatBytes(b) + FloatBytes(c) + FloatBytes(d)
  {
    var vs := [FloatBits(a), FloatBits(b), FloatBits(c), FloatBits(d)];
    assert vs[1..] == [FloatBits(b), FloatBits(c), FloatBits(d)];
    assert vs[1..][1..] == [FloatBits(c), FloatBits(d)];
    assert vs[1..][1..][1..] == [FloatBits(d)];
    ValuesBytesOne(FloatBits(d));
    calc {
      ValuesBytes(vs);
      FloatBytes(a) + ValuesBytes(vs[1..]);
      FloatBytes(a) + (FloatBytes(b) + ValuesBytes(vs[1..][1..]));
      FloatBytes(a) + (FloatBytes(b) + (FloatBytes(c) + FloatBytes(d)));
      FloatBytes(a) + FloatBytes(b) + FloatBytes(c) + FloatBytes(d);
    }
  }

  lemma {:induction false} FlatCons(c: Component, cs: seq<Component>)
    ensures Flat([c] + cs) == ComponentBytes(c) + Flat(cs)
  {
    assert ([c] + cs)[1..] == cs;
  }

  lemma {:induction false} ComponentSize(c: Component)
    requires WellFormed(c)
    ensures |ComponentBytes(c)| == 1 + ValueSize(KindOf(c.id))
  {
    var vs := c.values;
    if KindOf(c.id) == FourFloats {
      assert vs == [FloatBits(vs[0].f), FloatBits(vs[1].f), FloatBits(vs[2].f), FloatBits(vs[3].f)];
      ValuesBytesFour(vs[0].f, vs[1].f, vs[2].f, vs[3].f);
    } else {
      assert vs == [vs[0]];
      ValuesBytesOne(vs[0]);
    }
  }

  /** The component of kind `k` whose identifier byte is at `i`. */
  function ReadComponent(frame: seq<byte>, i: nat, k: ComponentKind): (c: Component)
    requires i + 1 + ValueSize(k) <= |frame|
    requires k != UnknownComponent && KindOf(frame[i]) == k
    ensures WellFormed(c) && ComponentBytes(c) == frame[i..i + 1 + ValueSize(k)]
  {
    match k
    case FloatScalar =>
      var v := FloatBits(ReadFloat(frame, i + 1));
      ValuesBytesOne(v);
      Component(frame[i], [v])
    case ByteScalar =>
      var v := ByteValue(frame[i + 1]);
      ValuesBytesOne(v);
      Component(frame[i], [v])
    case FourFloats =>
      var a, b, c, d := ReadFloat(frame, i + 1), ReadFloat(frame, i + 5),
                        ReadFloat(frame, i + 9), ReadFloat(frame, i + 13);
      ValuesBytesFour(a, b, c, d);
      Component(frame[i], [FloatBits(a), FloatBits(b), FloatBits(c), FloatBits(d)])
  }

  /** Where parsing stopped without failing: the declared count was reached,
      the frame ran out, or the next identifier is unknown. */
  predicate Stopped(frame: seq<byte>, count: nat, j: nat, done: nat) {
    done >= count || j >= |frame| || KindOf(frame[j]) == UnknownComponent
  }

  /** The component loop of a data response, from byte offset `i` with `parsed`
      components read so far. A known component is read only when its last
      value byte lies before the frame's last byte; a known component that does
      not fit fails the whole frame; an unknown identifier ends the list. */
  function ParseComponents(frame: seq<byte>, count: nat, i: nat, parsed: nat): (r: Parse)
    requires i <= |frame| && parsed <= count
    ensures r.Parsed? ==> Fits(frame, count, i, parsed, r.components)
    decreases count - parsed
  {
    if i < |frame| && parsed < count then
      var k := KindOf(frame[i]);
      if k == UnknownComponent then Parsed([])
      else if |frame| < i + 2 + ValueSize(k) then ParseFailed
      else
        var c := ReadComponent(frame, i, k);
        var i' := i + 1 + ValueSize(k);
        var rest := ParseComponents(frame, count, i', parsed + 1);
        if rest.ParseFailed? then ParseFailed
        else
          FitsCons(frame, count, i, parsed, c, rest.components);
          Parsed([c] + rest.components)
    else Parsed([])
  }

  /** Every component of `cs` is well formed. */
  predicate AllWellFormed(cs: seq<Component>)
    decreases |cs|
  {
    cs == [] || (WellFormed(cs[0]) && AllWellFormed(cs[1..]))
  }

  /** The well-formed components `cs` lie in `frame` back to back from
      offset `i`. */
  predicate Laid(frame: seq<byte>, i: nat, cs: seq<Component>) {
    && i + |Flat(cs)| <= |frame|
    && frame[i..i + |Flat(cs)|] == Flat(cs)
    && AllWellFormed(cs)
  }

  /** `cs` is a component list the loop can stop at from offset `i`: at most
      the remaining count, lying in the frame from `i`, ending before the
      frame's last byte, and followed by a reason to stop. */
  predicate Fits(frame: seq<byte>, count: nat, i: nat, parsed: nat, cs: seq<Component>)
    requires parsed <= count
  {
    var j := i + |Flat(cs)|;
    && |cs| <= count - parsed
    && Laid(frame, i, cs)
    && (cs == [] || j < |frame|)
    && Stopped(frame, count, j, parsed + |cs|)
  }

  lemma {:induction false} FitsCons(frame: seq<byte>, count: nat, i: nat, parsed: nat, c: Component, cs: seq<Component>)
    requires parsed < count
    requires WellFormed(c) && i + |ComponentBytes(c)| <= |frame|
    requires frame[i..i + |ComponentBytes(c)|] == ComponentBytes(c)
    requires i + |ComponentBytes(c)| < |frame|
    requires Fits(frame, count, i + |ComponentBytes(c)|, parsed + 1, cs)
    ensures Fits(frame, count, i, parsed, [c] + cs)
  {
    LaidCons(frame, i, c, cs);
  }

  /** A component followed by a run laid out after it is a run laid out. */
  lemma {:induction false} LaidCons(frame: seq<byte>, i: nat, c: Component, cs: seq<Component>)
    requires WellFormed(c) && i + |ComponentBytes(c)| <= |frame|
    requires frame[i..i + |ComponentBytes(c)|] == ComponentBytes(c)
    requires Laid(frame, i + |ComponentBytes(c)|, cs)
    ensures Laid(frame, i, [c] + cs)
    ensures |Flat([c] + cs)| == |ComponentBytes(c)| + |Flat(cs)|
  {
    var n := |ComponentBytes(c)|;
    FlatCons(c, cs);
    var j := i + |Flat([c] + cs)|;
    assert frame[i..j] == frame[i..i + n] + frame[i + n..j];
    assert ([c] + cs)[1..] == cs;
  }

  /** A laid-out run starts with its first component's bytes, and the rest
      of the run is laid out after them. */
  lemma {:induction false} LaidTail(frame: seq<byte>, i: nat, cs: seq<Component>)
    requires cs != [] && Laid(frame, i, cs)
    ensures var c, n := cs[0], |ComponentBytes(cs[0])|;
      && WellFormed(c)
      && n == 1 + ValueSize(KindOf(c.id))
      && |Flat(cs)| == n + |Flat(cs[1..])|
      && frame[i] == c.id
      && frame[i..i + n] == ComponentBytes(c)
      && Laid(frame, i + n, cs[1..])
  {
    ComponentSize(cs[0]);
    assert Flat(cs) == ComponentBytes(cs[0]) + Flat(cs[1..]);
    SliceSplit(frame, i, ComponentBytes(cs[0]), Flat(cs[1..]));
  }

  /** Components laid out back to back from offset `i`, each fitting, are read
      back exactly, up to the point where the count is reached, the frame ends
      or an unknown identifier follows: the converse of `ParseComponents`'s
      postcondition. */
  lemma {:induction false} ParseEncoded(frame: seq<byte>, count: nat, i: nat, parsed: nat, cs: seq<Component>)
    requires parsed <= count && Fits(frame, count, i, parsed, cs)
    ensures ParseComponents(frame, count, i, parsed) == Parsed(cs)
    decreases |cs|
  {
    if cs != [] {
      var c := cs[0];
      LaidTail(frame, i, cs);
      var n := |ComponentBytes(c)|;
      var k := KindOf(c.id);
      var c' := ReadComponent(frame, i, k);
      ComponentEq(c, c');
      ParseEncoded(frame, count, i + n, parsed + 1, cs[1..]);
      assert [c'] + cs[1..] == cs;
    }
  }

  /** A window of `frame` holding `x + y` holds `x` and then `y`. */
  lemma {:induction false} SliceSplit(frame: seq<byte>, i: nat, x: seq<byte>, y: seq<byte>)
    requires i + |x + y| <= |frame| && frame[i..i + |x + y|] == x + y
    ensures frame[i..i + |x|] == x && frame[i + |x|..i + |x + y|] == y
    ensures |x| > 0 ==> frame[i] == x[0]
  {
    var w := frame[i..i + |x + y|];
    assert frame[i..i + |x|] == w[..|x|];
    assert frame[i + |x|..i + |x + y|] == w[|x|..];
    if |x| > 0 {
      assert frame[i] == w[0];
    }
  }

  /** A well-formed component is read back from its own bytes. */
  lemma {:induction false} ReadBack(c: Component)
    requires WellFormed(c)
    ensures |ComponentBytes(c)| == 1 + ValueSize(KindOf(c.id))
    ensures ReadComponent(ComponentBytes(c), 0, KindOf(c.id)) == c
  {
    ComponentSize(c);
    var vs := c.values;
    if KindOf(c.id) == FourFloats {
      assert vs == [FloatBits(vs[0].f), FloatBits(vs[1].f), FloatBits(vs[2].f), FloatBits(vs[3].f)];
      ValuesBytesFour(vs[0].f, vs[1].f, vs[2].f, vs[3].f);
    } else {
      assert vs == [vs[0]];
      ValuesBytesOne(vs[0]);
    }
  }

  /** Two well-formed components with the same bytes are the same component. */
  lemma {:induction false} ComponentEq(c: Component, d: Component)
    requires WellFormed(c) && WellFormed(d) && ComponentBytes(c) == ComponentBytes(d)
    ensures c == d
  {
    ReadBack(c);
    ReadBack(d);
  }

  /** After components that fit, a known component whose last value byte would
      reach the frame's last byte fails the whole component list. */
  lemma {:induction false} ParseMisfit(frame: seq<byte>, count: nat, i: nat, parsed: nat, cs: seq<Component>)
    requires parsed + |cs| < count && Laid(frame, i, cs)
    requires var j := i + |Flat(cs)|;
      && j < |frame| && KindOf(frame[j]) != UnknownComponent
      && |frame| <= j + 1 + ValueSize(KindOf(frame[j]))
    ensures ParseComponents(frame, count, i, parsed) == ParseFailed
    decreases |cs|
  {
    if cs != [] {
      LaidTail(frame, i, cs);
      ParseMisfit(frame, count, i + |ComponentBytes(cs[0])|, parsed + 1, cs[1..]);
    }
  }
}
