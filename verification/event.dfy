/**
 * Events of a glyph timeline and their wire frame (src/event.rs).
 *
 * A glyph is a sequence of events. An event is a 16-bit millisecond offset
 * from the start of the glyph and an 8-bit tag. The frame sent to the
 * device is RAW_ENTER, then one (tag, time high byte, time low byte) triple
 * per event, then RAW_EXIT. Body bytes are not escaped, so only the fixed
 * width of the triples delimits events.
 */
module Event {

  /** Rust's `u8`. */
  type Uint8 = x: int | 0 <= x < 0x100

  /** Rust's `u16`. */
  type Uint16 = x: int | 0 <= x < 0x1_0000

  datatype Option<T> = None | Some(value: T)

  /**
   * Index of one of the twelve motors, laid out on the palm as
   *    0  1  2  3   (fingers)
   *    4  5  6  7
   *    8  9 10 11   (wrist)
   */
  type Motor = m: int | 0 <= m < 12

  /** `EvType`: `Go0` .. `Go11` play one motor, `EndGlyph` ends a glyph. */
  datatype EvType = Go(motor: Motor) | EndGlyph

  /** The enum discriminant, `ev_type as u8`: `GoN = N`, `EndGlyph = 12`. */
  function Tag(t: EvType): (k: Uint8)
    ensures k < 13
    ensures t.EndGlyph? <==> k == 12
  {
    match t
    case Go(m) => m
    case EndGlyph => 12
  }

  /** Reads a tag back as an `EvType`; the tags 13..255 name no variant. */
  function FromTag(k: Uint8): (t: Option<EvType>)
    ensures t.None? <==> k >= 13
  {
    if k < 12 then Some(Go(k))
    else if k == 12 then Some(EndGlyph)
    else None
  }

  /** The discriminants are exactly 0..12, one per variant. */
  lemma TagRoundTrip(t: EvType, k: Uint8)
    ensures FromTag(Tag(t)) == Some(t)
    ensures FromTag(k) == Some(t) ==> Tag(t) == k
  {
  }

  const END_GLYPH: Uint8 := Tag(EndGlyph)

  /** `Ev { ms_time, ev_type }`; `ms_time` is an offset from the start of the glyph. */
  datatype Ev = Ev(msTime: Uint16, evType: Uint8)

  /** `Ev::new`. */
  function NewEv(msTime: Uint16, evType: Uint8): (e: Ev)
    ensures e.msTime == msTime && e.evType == evType
  {
    Ev(msTime, evType)
  }

  predicate IsEnd(e: Ev) {
    e.evType == END_GLYPH
  }

  const RAW_ENTER: Uint8 := 0xC0
  const RAW_EXIT: Uint8 := 0xC1

  /** `u16::to_be_bytes`: the high byte first. */
  function ToBeBytes(t: Uint16): (r: seq<Uint8>)
    ensures |r| == 2 && r[0] as int * 0x100 + r[1] == t
  {
    [t / 0x100, t % 0x100]
  }

  /** The triple of one event: its tag, then its time big-endian. */
  function EvBytes(e: Ev): (r: seq<Uint8>)
    ensures |r| == 3 && r[0] == e.evType && r[1] as int * 0x100 + r[2] == e.msTime
  {
    [e.evType] + ToBeBytes(e.msTime)
  }

  /** The frame body: the `flat_map` of the events into triples. */
  function Body(evs: seq<Ev>): (r: seq<Uint8>)
    ensures |r| == 3 * |evs|
    ensures forall i :: 0 <= i < |evs| ==>
      r[3 * i] == evs[i].evType &&
      r[3 * i + 1] == evs[i].msTime / 0x100 &&
      r[3 * i + 2] == evs[i].msTime % 0x100
  {
    if evs == [] then []
    else
      var rest := Body(evs[1..]);
      assert forall i :: 1 <= i < |evs| ==> evs[i] == evs[1..][i - 1];
      EvBytes(evs[0]) + rest
  }

  /**
   * The bytes `queue_events_as_raw` hands to `write_all`: RAW_ENTER, the
   * body, RAW_EXIT.
   */
  function RawFrame(evs: seq<Ev>): (r: seq<Uint8>)
    ensures |r| == 3 * |evs| + 2
    ensures r[0] == RAW_ENTER && r[|r| - 1] == RAW_EXIT
    ensures forall i :: 0 <= i < |evs| ==>
      r[1 + 3 * i] == evs[i].evType &&
      r[2 + 3 * i] == evs[i].msTime / 0x100 &&
      r[3 + 3 * i] == evs[i].msTime % 0x100
  {
    [RAW_ENTER] + Body(evs) + [RAW_EXIT]
  }

  /**
   * Specification device, not part of the program: reads a body back as
   * fixed-width triples. It never looks for delimiters.
   */
  function DecodeBody(b: seq<Uint8>): Option<seq<Ev>>
    decreases |b|
  {
    if b == [] then Some([])
    else if |b| < 3 then None
    else
      match DecodeBody(b[3..])
      case None => None
      case Some(rest) => Some([Ev(b[1] as int * 0x100 + b[2], b[0])] + rest)
  }

  /** Specification device: checks both delimiters and decodes the body between them. */
  function DecodeFrame(b: seq<Uint8>): Option<seq<Ev>> {
    if |b| < 2 || b[0] != RAW_ENTER || b[|b| - 1] != RAW_EXIT then None
    else DecodeBody(b[1..|b| - 1])
  }

  lemma {:induction false} BodyAppend(a: seq<Ev>, b: seq<Ev>)
    ensures Body(a + b) == Body(a) + Body(b)
  {
    if a == [] {
      assert a + b == b;
    } else {
      assert (a + b)[0] == a[0];
      assert (a + b)[1..] == a[1..] + b;
      BodyAppend(a[1..], b);
    }
  }

  lemma {:induction false} BodyRoundTrip(evs: seq<Ev>)
    ensures DecodeBody(Body(evs)) == Some(evs)
  {
    if evs != [] {
      var b := Body(evs);
      assert b == EvBytes(evs[0]) + Body(evs[1..]);
      assert b[3..] == Body(evs[1..]);
      BodyRoundTrip(evs[1..]);
      assert [evs[0]] + evs[1..] == evs;
    }
  }

  /** Decoding a body succeeds only on the encoding of what it returns. */
  lemma {:induction false} DecodeBodySound(b: seq<Uint8>, evs: seq<Ev>)
    requires DecodeBody(b) == Some(evs)
    ensures Body(evs) == b
    decreases |b|
  {
    if b != [] {
      var rest := DecodeBody(b[3..]).value;
      DecodeBodySound(b[3..], rest);
      var e := Ev(b[1] as int * 0x100 + b[2], b[0]);
      assert evs == [e] + rest;
      assert evs[0] == e && evs[1..] == rest;
      assert EvBytes(e) == [b[0], b[1], b[2]];
      assert Body(evs) == EvBytes(e) + Body(rest);
      assert b == [b[0], b[1], b[2]] + b[3..];
    }
  }

  /**
   * Round trip: the frame of any event sequence decodes to that sequence,
   * including frames whose body holds the bytes 0xC0 or 0xC1.
   */
  lemma FrameRoundTrip(evs: seq<Ev>)
    ensures DecodeFrame(RawFrame(evs)) == Some(evs)
  {
    var r := RawFrame(evs);
    assert r[1..|r| - 1] == Body(evs);
    BodyRoundTrip(evs);
  }

  lemma SplitEnds(b: seq<Uint8>)
    requires |b| >= 2
    ensures b == [b[0]] + b[1..|b| - 1] + [b[|b| - 1]]
  {
  }

  /** The frame is determined by what it decodes to: `RawFrame` is injective and its decoder exact. */
  lemma FrameDecodeSound(b: seq<Uint8>, evs: seq<Ev>)
    requires DecodeFrame(b) == Some(evs)
    ensures RawFrame(evs) == b
  {
    var body := b[1..|b| - 1];
    DecodeBodySound(body, evs);
    SplitEnds(b);
  }

  /** Two events framed: `C0 03 00 00 06 00 1E C1`. */
  lemma TwoEventFrame()
    ensures RawFrame([Ev(0, 3), Ev(30, 6)]) == [0xC0, 0x03, 0x00, 0x00, 0x06, 0x00, 0x1E, 0xC1]
  {
    var r := RawFrame([Ev(0, 3), Ev(30, 6)]);
    assert |r| == 8;
    assert r[1] == 3 && r[2] == 0 && r[3] == 0;
    assert r[4] == 6 && r[5] == 0 && r[6] == 0x1E;
  }

  /**
   * An event whose tag is RAW_ENTER and whose time bytes are RAW_ENTER and
   * RAW_EXIT still frames to five bytes and decodes back to itself.
   */
  lemma DelimiterBytesInBody()
    ensures RawFrame([Ev(0xC0C1, 0xC0)]) == [0xC0, 0xC0, 0xC0, 0xC1, 0xC1]
    ensures DecodeFrame([0xC0, 0xC0, 0xC0, 0xC1, 0xC1]) == Some([Ev(0xC0C1, 0xC0)])
  {
    var r := RawFrame([Ev(0xC0C1, 0xC0)]);
    assert r[1] == 0xC0 && r[2] == 0xC0 && r[3] == 0xC1;
    FrameRoundTrip([Ev(0xC0C1, 0xC0)]);
  }
}
