/**
 * Protocol vocabulary of the controller link (src/gc.rs): the line symbol,
 * the sample counters, the poll request with its two rumble flags and the
 * controller snapshot whose eight-byte reply layout the declarations document.
 * The bit order inside a multi-bit field is not given there; this model sends
 * each field most significant bit first.
 */
module Gc {
  import opened Wrappers

  /** One symbol on the line: two data bits and the stop marker. There is no wildcard symbol. */
  datatype Bit = Low | High | Stop

  /** Rust's `u8`. */
  type U8 = x: int | 0 <= x < 256

  /** How many samples a pulse spent low and high (both `u8`). */
  datatype BitSamples = BitSamples(lowSamples: U8, highSamples: U8)

  /** The two free flag bits at the end of a poll request. */
  datatype HostCommand = HostCommand(rumbleActivatedBefore: bool, rumble: bool)

  /** One controller snapshot: 12 buttons and 6 analog channels. */
  datatype ControllerState = ControllerState(
    start: bool, y: bool, x: bool, b: bool, a: bool,
    l: bool, r: bool, z: bool, dUp: bool, dDown: bool, dRight: bool, dLeft: bool,
    joystickX: U8, joystickY: U8, cStickX: U8, cStickY: U8, lAnalog: U8, rAnalog: U8)

  /** Number of symbols in a controller reply: 8 bytes and a stop symbol. */
  const RESPONSE_LENGTH: nat := 8 * 8 + 1

  /** The 22 fixed leading bits of a poll request: 0100 0000 0000 0011 0000 00. */
  const POLL_PREFIX: seq<Bit> :=
    [Low, High, Low, Low, Low, Low, Low, Low,
     Low, Low, Low, Low, Low, Low, High, High,
     Low, Low, Low, Low, Low, Low]

  /** Number of symbols in a poll request: the prefix, two flags and a stop symbol. */
  const POLL_REQUEST_LENGTH: nat := 22 + 2 + 1

  predicate IsData(b: Bit) {
    b != Stop
  }

  predicate AllData(bits: seq<Bit>) {
    forall i :: 0 <= i < |bits| ==> IsData(bits[i])
  }

  /** A complete message: data bits terminated by exactly one stop symbol, in last position. */
  predicate IsMessage(bits: seq<Bit>) {
    |bits| > 0 && bits[|bits| - 1] == Stop && AllData(bits[..|bits| - 1])
  }

  function DataBit(v: bool): (r: Bit)
    ensures IsData(r) && (r == High <==> v)
  {
    if v then High else Low
  }

  function Pow2(n: nat): (p: nat)
    ensures p > 0
  {
    if n == 0 then 1 else 2 * Pow2(n - 1)
  }

  /** The low `width` bits of `v`, most significant first. */
  function BitsOf(v: nat, width: nat): (r: seq<Bit>)
    ensures |r| == width && AllData(r)
  {
    if width == 0 then [] else BitsOf(v / 2, width - 1) + [DataBit(v % 2 == 1)]
  }

  /** The number that a run of data bits spells, most significant first. */
  function ValueOf(bits: seq<Bit>): (v: nat)
    requires AllData(bits)
    ensures v < Pow2(|bits|)
  {
    if bits == [] then 0
    else 2 * ValueOf(bits[..|bits| - 1]) + (if bits[|bits| - 1] == High then 1 else 0)
  }

  lemma {:induction false} ValueOfBitsOf(v: nat, width: nat)
    requires v < Pow2(width)
    ensures ValueOf(BitsOf(v, width)) == v
  {
    if width > 0 {
      ValueOfBitsOf(v / 2, width - 1);
      var r := BitsOf(v, width);
      assert r[..|r| - 1] == BitsOf(v / 2, width - 1);
    }
  }

  lemma {:induction false} BitsOfValueOf(bits: seq<Bit>)
    requires AllData(bits)
    ensures BitsOf(ValueOf(bits), |bits|) == bits
  {
    if bits != [] {
      var init := bits[..|bits| - 1];
      BitsOfValueOf(init);
      assert bits == init + [bits[|bits| - 1]];
    }
  }

  /** One `u8` as eight data bits, most significant first. */
  function ByteBits(v: U8): (r: seq<Bit>)
    ensures |r| == 8 && AllData(r)
  {
    BitsOf(v, 8)
  }

  function ByteValue(bits: seq<Bit>): (v: U8)
    requires |bits| == 8 && AllData(bits)
  {
    assert Pow2(8) == 256;
    ValueOf(bits)
  }

  lemma ByteRoundTrip(v: U8)
    ensures ByteValue(ByteBits(v)) == v
  {
    assert Pow2(8) == 256;
    ValueOfBitsOf(v, 8);
  }

  lemma ByteValueInverse(bits: seq<Bit>)
    requires |bits| == 8 && AllData(bits)
    ensures ByteBits(ByteValue(bits)) == bits
  {
    BitsOfValueOf(bits);
  }

  /**
   * Byte 1 of a reply: two 0 bits, one bit the layout leaves open (`free`),
   * then start, y, x, b, a.
   */
  function FirstByte(s: ControllerState, free: bool): seq<Bit> {
    [Low, Low, DataBit(free), DataBit(s.start), DataBit(s.y), DataBit(s.x), DataBit(s.b), DataBit(s.a)]
  }

  /** Byte 2 of a reply: a 1 bit, then l, r, z, d-up, d-down, d-right, d-left. */
  function SecondByte(s: ControllerState): seq<Bit> {
    [High, DataBit(s.l), DataBit(s.r), DataBit(s.z), DataBit(s.dUp), DataBit(s.dDown), DataBit(s.dRight), DataBit(s.dLeft)]
  }

  /** The six analog channels in reply order (bytes 3 to 8). */
  function Analogs(s: ControllerState): (vs: seq<U8>)
    ensures |vs| == 6
  {
    [s.joystickX, s.joystickY, s.cStickX, s.cStickY, s.lAnalog, s.rAnalog]
  }

  /** Consecutive bytes, each most significant bit first. */
  function BytesBits(vs: seq<U8>): (r: seq<Bit>)
    ensures |r| == 8 * |vs| && AllData(r)
  {
    if vs == [] then [] else ByteBits(vs[0]) + BytesBits(vs[1..])
  }

  function BitsBytes(bits: seq<Bit>): (vs: seq<U8>)
    requires |bits| % 8 == 0 && AllData(bits)
    ensures |vs| == |bits| / 8
  {
    if bits == [] then [] else [ByteValue(bits[..8])] + BitsBytes(bits[8..])
  }

  lemma {:induction false} BytesRoundTrip(vs: seq<U8>)
    ensures BitsBytes(BytesBits(vs)) == vs
  {
    if vs != [] {
      var r := BytesBits(vs);
      assert r[..8] == ByteBits(vs[0]);
      assert r[8..] == BytesBits(vs[1..]);
      ByteRoundTrip(vs[0]);
      BytesRoundTrip(vs[1..]);
    }
  }

  lemma {:induction false} BitsBytesInverse(bits: seq<Bit>)
    requires |bits| % 8 == 0 && AllData(bits)
    ensures BytesBits(BitsBytes(bits)) == bits
  {
    if bits != [] {
      var vs := BitsBytes(bits);
      assert vs[1..] == BitsBytes(bits[8..]);
      ByteValueInverse(bits[..8]);
      BitsBytesInverse(bits[8..]);
      assert bits == bits[..8] + bits[8..];
    }
  }

  /**
   * The eight reply bytes followed by a stop symbol. The trailing stop and the
   * full 8-bit bytes 7 and 8 are choices of this model; the 4-bit mode is not modelled.
   */
  function ResponseLayout(s: ControllerState, free: bool): (r: seq<Bit>)
    ensures |r| == RESPONSE_LENGTH && IsMessage(r)
  {
    var r := FirstByte(s, free) + SecondByte(s) + BytesBits(Analogs(s)) + [Stop];
    assert r[..|r| - 1] == FirstByte(s, free) + SecondByte(s) + BytesBits(Analogs(s));
    r
  }

  /** The snapshot whose first two reply bytes are `header` and whose analog channels are `vs`. */
  function StateOf(header: seq<Bit>, vs: seq<U8>): ControllerState
    requires |header| == 16 && |vs| == 6
  {
    ControllerState(
      header[3] == High, header[4] == High, header[5] == High, header[6] == High, header[7] == High,
      header[9] == High, header[10] == High, header[11] == High, header[12] == High,
      header[13] == High, header[14] == High, header[15] == High,
      vs[0], vs[1], vs[2], vs[3], vs[4], vs[5])
  }

  /** Reads a reply back: the snapshot and the open bit of byte 1, or None when `bits` is not laid out as a reply. */
  function DecodeResponse(bits: seq<Bit>): Option<(ControllerState, bool)> {
    if |bits| != RESPONSE_LENGTH || !IsMessage(bits) || bits[0] != Low || bits[1] != Low || bits[8] != High then None
    else
      assert AllData(bits[16..64]) by {
        assert forall i :: 0 <= i < 48 ==> bits[16..64][i] == bits[..64][16 + i];
      }
      Some((StateOf(bits[..16], BitsBytes(bits[16..64])), bits[2] == High))
  }

  lemma ResponseRoundTrip(s: ControllerState, free: bool)
    ensures DecodeResponse(ResponseLayout(s, free)) == Some((s, free))
  {
    var r := ResponseLayout(s, free);
    assert r[16..64] == BytesBits(Analogs(s));
    BytesRoundTrip(Analogs(s));
  }

  lemma DecodeResponseInverse(bits: seq<Bit>, s: ControllerState, free: bool)
    requires DecodeResponse(bits) == Some((s, free))
    ensures ResponseLayout(s, free) == bits
  {
    var header, body := bits[..16], bits[16..64];
    assert AllData(header) by {
      assert forall i :: 0 <= i < 16 ==> header[i] == bits[..64][i];
    }
    assert AllData(body) by {
      assert forall i :: 0 <= i < 48 ==> body[i] == bits[..64][16 + i];
    }
    assert s == StateOf(header, BitsBytes(body));
    HeaderLayout(header, BitsBytes(body), free);
    assert Analogs(s) == BitsBytes(body);
    BitsBytesInverse(body);
    assert bits == header + body + [bits[64]];
  }

  /** The first two bytes of a reply are recovered from the snapshot they decode to. */
  lemma HeaderLayout(header: seq<Bit>, vs: seq<U8>, free: bool)
    requires |header| == 16 && |vs| == 6 && AllData(header)
    requires header[0] == Low && header[1] == Low && header[8] == High && free == (header[2] == High)
    ensures FirstByte(StateOf(header, vs), free) + SecondByte(StateOf(header, vs)) == header
  {
    forall i | 2 <= i < 16 ensures DataBit(header[i] == High) == header[i] {
      DataBitOf(header[i]);
    }
  }

  lemma DataBitOf(b: Bit)
    requires IsData(b)
    ensures DataBit(b == High) == b
  {
  }

  /** A poll request carrying the two rumble flags. */
  function PollRequest(c: HostCommand): (r: seq<Bit>)
    ensures |r| == POLL_REQUEST_LENGTH && IsMessage(r)
  {
    POLL_PREFIX + [DataBit(c.rumbleActivatedBefore), DataBit(c.rumble), Stop]
  }

  /** The flags of a poll request, or None when `bits` is not one. */
  function ParsePollRequest(bits: seq<Bit>): Option<HostCommand> {
    if |bits| == POLL_REQUEST_LENGTH && bits[..22] == POLL_PREFIX
       && IsData(bits[22]) && IsData(bits[23]) && bits[24] == Stop
    then Some(HostCommand(bits[22] == High, bits[23] == High))
    else None
  }

  lemma PollRequestRoundTrip(c: HostCommand)
    ensures ParsePollRequest(PollRequest(c)) == Some(c)
  {
    assert PollRequest(c)[..22] == POLL_PREFIX;
  }

  lemma ParsePollRequestInverse(bits: seq<Bit>, c: HostCommand)
    requires ParsePollRequest(bits) == Some(c)
    ensures PollRequest(c) == bits
  {
    assert bits == bits[..22] + [bits[22], bits[23], bits[24]];
  }
}
