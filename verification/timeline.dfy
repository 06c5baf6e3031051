/**
 * Synthesis and composition of glyph timelines (src/glyphs.rs:130-156).
 *
 * `EqualSpacedEvs` places triggers at a fixed spacing and ends the glyph;
 * `StitchEvs` plays glyphs back to back by shifting each one by the
 * durations of those before it. Both compute times in `u16`, where an
 * overflow panics in debug builds and wraps in release builds; here its
 * absence is an explicit precondition.
 */
module Timeline {
  import opened Event

  /** A well-formed glyph: exactly one `EndGlyph`, and it is the last event. */
  predicate IsGlyph(g: seq<Ev>) {
    |g| > 0 && IsEnd(g[|g| - 1]) && forall i :: 0 <= i < |g| - 1 ==> !IsEnd(g[i])
  }

  /** The length of a glyph, carried by its `EndGlyph`. */
  function Duration(g: seq<Ev>): Uint16
    requires IsGlyph(g)
  {
    g[|g| - 1].msTime
  }

  predicate NoEnds(s: seq<Ev>) {
    forall i :: 0 <= i < |s| ==> !IsEnd(s[i])
  }

  predicate NonDecreasing(s: seq<Ev>) {
    forall i, j :: 0 <= i <= j < |s| ==> s[i].msTime <= s[j].msTime
  }

  /** Tags that fire a motor (or any tag other than `EndGlyph`). */
  predicate Triggers(tags: seq<Uint8>) {
    forall i :: 0 <= i < |tags| ==> tags[i] != END_GLYPH
  }

  lemma MulMono(i: nat, j: nat, s: nat)
    requires i <= j
    ensures i * s <= j * s
  {
  }

  // ---------------------------------------------------------------------
  // equal_spaced_evs
  // ---------------------------------------------------------------------

  /**
   * The `enumerate().map(..)` step of `equal_spaced_evs`, numbering the tags
   * from `first` on: tag `k` is placed at `(first + k) * spaceMs`.
   */
  function Enumerate(tags: seq<Uint8>, first: nat, spaceMs: Uint16): seq<Ev>
    requires tags == [] || (first + |tags| - 1) * spaceMs < 0x1_0000
    decreases |tags|
  {
    if tags == [] then []
    else
      MulMono(first, first + |tags| - 1, spaceMs);
      [NewEv(first * spaceMs, tags[0])] + Enumerate(tags[1..], first + 1, spaceMs)
  }

  lemma {:induction false} EnumerateSpec(tags: seq<Uint8>, first: nat, spaceMs: Uint16)
    requires tags == [] || (first + |tags| - 1) * spaceMs < 0x1_0000
    ensures |Enumerate(tags, first, spaceMs)| == |tags|
    ensures forall k :: 0 <= k < |tags| ==>
      Enumerate(tags, first, spaceMs)[k] == Ev((first + k) * spaceMs, tags[k])
    decreases |tags|
  {
    if tags != [] {
      EnumerateSpec(tags[1..], first + 1, spaceMs);
      var r := Enumerate(tags, first, spaceMs);
      forall k | 0 <= k < |tags|
        ensures r[k] == Ev((first + k) * spaceMs, tags[k])
      {
        if k > 0 {
          assert first + 1 + (k - 1) == first + k;
        }
      }
    }
  }

  /**
   * `equal_spaced_evs`: trigger `i` at `i * spaceMs`, then `EndGlyph` at
   * `|evs| * spaceMs`. The precondition is the absence of 16-bit overflow
   * in `i as u16 * space_ms`.
   */
  function EqualSpacedEvs(evs: seq<Uint8>, spaceMs: Uint16): (r: seq<Ev>)
    requires |evs| * spaceMs < 0x1_0000
    ensures |r| == |evs| + 1
    ensures forall i :: 0 <= i < |evs| ==> r[i].msTime == i * spaceMs && r[i].evType == evs[i]
    ensures r[|evs|] == Ev(|evs| * spaceMs, END_GLYPH)
  {
    EnumerateSpec(evs + [END_GLYPH], 0, spaceMs);
    Enumerate(evs + [END_GLYPH], 0, spaceMs)
  }

  /** The timestamps of an equally spaced glyph never go back. */
  lemma EqualSpacedNonDecreasing(evs: seq<Uint8>, spaceMs: Uint16)
    requires |evs| * spaceMs < 0x1_0000
    ensures NonDecreasing(EqualSpacedEvs(evs, spaceMs))
  {
    var r := EqualSpacedEvs(evs, spaceMs);
    forall i, j | 0 <= i <= j < |r|
      ensures r[i].msTime <= r[j].msTime
    {
      MulMono(i, j, spaceMs);
    }
  }

  /** Built from triggers, an equally spaced glyph is well formed and lasts `|evs| * spaceMs`. */
  lemma EqualSpacedIsGlyph(evs: seq<Uint8>, spaceMs: Uint16)
    requires |evs| * spaceMs < 0x1_0000
    requires Triggers(evs)
    ensures IsGlyph(EqualSpacedEvs(evs, spaceMs))
    ensures Duration(EqualSpacedEvs(evs, spaceMs)) == |evs| * spaceMs
  {
  }

  /** Four triggers 30 ms apart, and the frame `queue_events_as_raw` sends for them. */
  lemma EqualSpacedFrameExample()
    ensures EqualSpacedEvs([3, 6, 5, 8], 30) == [Ev(0, 3), Ev(30, 6), Ev(60, 5), Ev(90, 8), Ev(120, END_GLYPH)]
    ensures RawFrame(EqualSpacedEvs([3, 6, 5, 8], 30)) ==
      [0xC0, 0x03, 0x00, 0x00, 0x06, 0x00, 0x1E, 0x05, 0x00, 0x3C, 0x08, 0x00, 0x5A, 0x0C, 0x00, 0x78, 0xC1]
  {
    var g := EqualSpacedEvs([3, 6, 5, 8], 30);
    assert g[0] == Ev(0, 3) && g[1] == Ev(30, 6) && g[2] == Ev(60, 5) && g[3] == Ev(90, 8);
    var r := RawFrame(g);
    assert r[1] == 3 && r[2] == 0 && r[3] == 0 && r[4] == 6 && r[5] == 0 && r[6] == 0x1E;
    assert r[7] == 5 && r[8] == 0 && r[9] == 0x3C && r[10] == 8 && r[11] == 0 && r[12] == 0x5A;
    assert r[13] == 12 && r[14] == 0 && r[15] == 0x78;
  }

  // ---------------------------------------------------------------------
  // stitch_evs
  // ---------------------------------------------------------------------

  /** The clock of `stitch_evs` after reading `e`: only an `EndGlyph` advances it. */
  function ClockAfter(time: nat, e: Ev): nat {
    if IsEnd(e) then time + e.msTime else time
  }

  /** The sum of the `EndGlyph` timestamps in `s`. */
  function EndSum(s: seq<Ev>): nat {
    if s == [] then 0 else ClockAfter(0, s[0]) + EndSum(s[1..])
  }

  /**
   * No 16-bit overflow while the inner loop of `stitch_evs` reads `s` from
   * clock `time`: the clock is in range, and so is every `time + ev.ms_time`.
   */
  predicate FitsFrom(s: seq<Ev>, time: nat) {
    time < 0x1_0000 &&
    (s == [] || (time + s[0].msTime < 0x1_0000 && FitsFrom(s[1..], ClockAfter(time, s[0]))))
  }

  /**
   * What the inner loop of `stitch_evs` pushes for one glyph `s` read from
   * clock `time`: every non-`EndGlyph` event, in order, shifted by the
   * clock; an `EndGlyph` is not pushed, it advances the clock.
   */
  function Stitched(s: seq<Ev>, time: nat): seq<Ev>
    requires FitsFrom(s, time)
  {
    if s == [] then []
    else
      var e := s[0];
      (if IsEnd(e) then [] else [Ev(time + e.msTime, e.evType)]) + Stitched(s[1..], ClockAfter(time, e))
  }

  /** One step of the inner loop, unfolded. */
  lemma StitchStep(s: seq<Ev>, time: nat)
    requires FitsFrom(s, time) && s != []
    ensures time + s[0].msTime < 0x1_0000
    ensures IsEnd(s[0]) ==>
      FitsFrom(s[1..], time + s[0].msTime) &&
      Stitched(s, time) == Stitched(s[1..], time + s[0].msTime) &&
      EndSum(s) == s[0].msTime + EndSum(s[1..])
    ensures !IsEnd(s[0]) ==>
      FitsFrom(s[1..], time) &&
      Stitched(s, time) == [Ev(time + s[0].msTime, s[0].evType)] + Stitched(s[1..], time) &&
      EndSum(s) == EndSum(s[1..])
  {
  }

  /** No overflow across a list of glyphs, each read from the clock left by the ones before. */
  predicate FitsGlyphs(gs: seq<seq<Ev>>, time: nat) {
    time < 0x1_0000 &&
    (gs == [] || (FitsFrom(gs[0], time) && FitsGlyphs(gs[1..], time + EndSum(gs[0]))))
  }

  /** The sum of the `EndGlyph` timestamps of all glyphs. */
  function TotalEnds(gs: seq<seq<Ev>>): nat {
    if gs == [] then 0 else EndSum(gs[0]) + TotalEnds(gs[1..])
  }

  /** What the outer loop of `stitch_evs` pushes for the glyphs `gs` from clock `time`. */
  function StitchGlyphs(gs: seq<seq<Ev>>, time: nat): seq<Ev>
    requires FitsGlyphs(gs, time)
  {
    if gs == [] then [] else Stitched(gs[0], time) + StitchGlyphs(gs[1..], time + EndSum(gs[0]))
  }

  lemma {:induction false} TotalEndsFit(gs: seq<seq<Ev>>, time: nat)
    requires FitsGlyphs(gs, time)
    ensures time + TotalEnds(gs) < 0x1_0000
  {
    if gs != [] {
      TotalEndsFit(gs[1..], time + EndSum(gs[0]));
    }
  }

  /**
   * The whole output of `stitch_evs`: the stitched events, then one
   * `EndGlyph` at the final clock, the sum of all `EndGlyph` timestamps.
   */
  function StitchSpec(gs: seq<seq<Ev>>): seq<Ev>
    requires FitsGlyphs(gs, 0)
  {
    TotalEndsFit(gs, 0);
    StitchGlyphs(gs, 0) + [Ev(TotalEnds(gs), END_GLYPH)]
  }

  /** The inner loop of `stitch_evs` as an accumulator: `out` is what was pushed before `s`. */
  function StitchAcc(out: seq<Ev>, s: seq<Ev>, time: nat): seq<Ev>
    requires FitsFrom(s, time)
    decreases |s|
  {
    if s == [] then out
    else if IsEnd(s[0]) then StitchAcc(out, s[1..], time + s[0].msTime)
    else StitchAcc(out + [Ev(time + s[0].msTime, s[0].evType)], s[1..], time)
  }

  /** The outer loop of `stitch_evs` as an accumulator. */
  function GlyphsAcc(out: seq<Ev>, gs: seq<seq<Ev>>, time: nat): seq<Ev>
    requires FitsGlyphs(gs, time)
    decreases |gs|
  {
    if gs == [] then out
    else GlyphsAcc(StitchAcc(out, gs[0], time), gs[1..], time + EndSum(gs[0]))
  }

  lemma {:induction false} StitchAccIsStitched(out: seq<Ev>, s: seq<Ev>, time: nat)
    requires FitsFrom(s, time)
    ensures StitchAcc(out, s, time) == out + Stitched(s, time)
    decreases |s|
  {
    if s == [] {
      assert out + [] == out;
    } else {
      StitchStep(s, time);
      if IsEnd(s[0]) {
        StitchAccIsStitched(out, s[1..], time + s[0].msTime);
      } else {
        var x, tl := Ev(time + s[0].msTime, s[0].evType), Stitched(s[1..], time);
        StitchAccIsStitched(out + [x], s[1..], time);
        assert (out + [x]) + tl == out + ([x] + tl);
      }
    }
  }

  lemma {:induction false} GlyphsAccIsStitched(out: seq<Ev>, gs: seq<seq<Ev>>, time: nat)
    requires FitsGlyphs(gs, time)
    ensures GlyphsAcc(out, gs, time) == out + StitchGlyphs(gs, time)
    decreases |gs|
  {
    if gs == [] {
      assert out + [] == out;
    } else {
      var t := time + EndSum(gs[0]);
      StitchAccIsStitched(out, gs[0], time);
      GlyphsAccIsStitched(StitchAcc(out, gs[0], time), gs[1..], t);
      assert (out + Stitched(gs[0], time)) + StitchGlyphs(gs[1..], t) == out + (Stitched(gs[0], time) + StitchGlyphs(gs[1..], t));
    }
  }

  /**
   * `stitch_evs`: the two nested loops over the glyphs and their events,
   * with the running clock `time` and the final `end_time`.
   */
  method StitchEvs(glyphs: seq<seq<Ev>>) returns (out: seq<Ev>)
    requires FitsGlyphs(glyphs, 0)
    ensures out == StitchSpec(glyphs)
  {
    ghost var target, total := GlyphsAcc([], glyphs, 0), TotalEnds(glyphs);
    out := [];
    var time: Uint16 := 0;
    var endTime: Uint16 := 0;
    var gi := 0;
    assert glyphs[0..] == glyphs;
    while gi < |glyphs|
      invariant gi <= |glyphs|
      invariant FitsGlyphs(glyphs[gi..], time)
      invariant GlyphsAcc(out, glyphs[gi..], time) == target
      invariant time + TotalEnds(glyphs[gi..]) == total
      invariant endTime == time
    {
      var g := glyphs[gi];
      ghost var gs, gtail := glyphs[gi..], glyphs[gi + 1..];
      assert gs[0] == g && gs[1..] == gtail;
      ghost var out0, time0 := out, time;
      assert g[0..] == g;
      var ei := 0;
      while ei < |g|
        invariant ei <= |g|
        invariant FitsFrom(g[ei..], time)
        invariant StitchAcc(out, g[ei..], time) == StitchAcc(out0, g, time0)
        invariant time + EndSum(g[ei..]) == time0 + EndSum(g)
        invariant endTime == time
      {
        var ev := g[ei];
        ghost var rest, tail := g[ei..], g[ei + 1..];
        assert rest[0] == ev && rest[1..] == tail;
        if ev.evType == END_GLYPH {
          endTime := time + ev.msTime;
          time := time + ev.msTime;
        } else {
          out := out + [ev.(msTime := ev.msTime + time)];
        }
        ei := ei + 1;
      }
      assert g[|g|..] == [];
      gi := gi + 1;
    }
    assert glyphs[gi..] == [];
    GlyphsAccIsStitched([], glyphs, 0);
    assert [] + StitchGlyphs(glyphs, 0) == StitchGlyphs(glyphs, 0);
    out := out + [NewEv(endTime, END_GLYPH)];
  }

  // ---------------------------------------------------------------------
  // What stitching produces
  // ---------------------------------------------------------------------

  /** The events of all glyphs, in the order the nested loops visit them. */
  function Concat(gs: seq<seq<Ev>>): seq<Ev> {
    if gs == [] then [] else gs[0] + Concat(gs[1..])
  }

  function CountEnds(s: seq<Ev>): nat {
    if s == [] then 0 else (if IsEnd(s[0]) then 1 else 0) + CountEnds(s[1..])
  }

  lemma {:induction false} CountEndsAppend(a: seq<Ev>, b: seq<Ev>)
    ensures CountEnds(a + b) == CountEnds(a) + CountEnds(b)
  {
    if a == [] {
      assert a + b == b;
    } else {
      assert (a + b)[0] == a[0] && (a + b)[1..] == a[1..] + b;
      CountEndsAppend(a[1..], b);
    }
  }

  /** The inner loop pushes every event but the `EndGlyph`s, and no `EndGlyph`. */
  lemma {:induction false} StitchedShape(s: seq<Ev>, time: nat)
    requires FitsFrom(s, time)
    ensures NoEnds(Stitched(s, time))
    ensures |Stitched(s, time)| == |s| - CountEnds(s)
    decreases |s|
  {
    if s != [] {
      StitchStep(s, time);
      StitchedShape(s[1..], ClockAfter(time, s[0]));
    }
  }

  lemma {:induction false} StitchGlyphsShape(gs: seq<seq<Ev>>, time: nat)
    requires FitsGlyphs(gs, time)
    ensures NoEnds(StitchGlyphs(gs, time))
    ensures |StitchGlyphs(gs, time)| == |Concat(gs)| - CountEnds(Concat(gs))
    decreases |gs|
  {
    if gs != [] {
      StitchedShape(gs[0], time);
      StitchGlyphsShape(gs[1..], time + EndSum(gs[0]));
      CountEndsAppend(gs[0], Concat(gs[1..]));
    }
  }

  /**
   * The output of `stitch_evs` is a well-formed glyph of `n - e + 1`
   * events, where `n` is the number of input events and `e` the number of
   * `EndGlyph`s among them, and it lasts the sum of their timestamps.
   */
  lemma StitchIsGlyph(gs: seq<seq<Ev>>)
    requires FitsGlyphs(gs, 0)
    ensures IsGlyph(StitchSpec(gs))
    ensures |StitchSpec(gs)| == |Concat(gs)| - CountEnds(Concat(gs)) + 1
    ensures Duration(StitchSpec(gs)) == TotalEnds(gs)
  {
    StitchGlyphsShape(gs, 0);
  }

  /** Stitching no glyph gives the empty glyph: one `EndGlyph` at 0. */
  lemma StitchEmpty()
    ensures FitsGlyphs([], 0)
    ensures StitchSpec([]) == [Ev(0, END_GLYPH)]
  {
  }

  // ---------------------------------------------------------------------
  // Stitching well-formed glyphs
  // ---------------------------------------------------------------------

  /** Every event of `s` can be delayed by `d` without 16-bit overflow. */
  predicate ShiftFits(s: seq<Ev>, d: nat) {
    forall i :: 0 <= i < |s| ==> s[i].msTime + d < 0x1_0000
  }

  /** `s` with every event delayed by `d`. */
  function Shifted(s: seq<Ev>, d: nat): (r: seq<Ev>)
    requires ShiftFits(s, d)
    ensures |r| == |s|
    ensures forall i :: 0 <= i < |s| ==> r[i].msTime == s[i].msTime + d && r[i].evType == s[i].evType
  {
    seq(|s|, i requires 0 <= i < |s| => Ev(s[i].msTime + d, s[i].evType))
  }

  /**
   * Read from clock `time`, the events of a glyph from index `k` on are
   * pushed delayed by `time`, its `EndGlyph` excepted, and the clock
   * advances by the glyph's duration.
   */
  lemma {:induction false} GlyphSuffixStitched(g: seq<Ev>, k: nat, time: nat)
    requires IsGlyph(g) && k < |g|
    requires ShiftFits(g, time)
    ensures FitsFrom(g[k..], time)
    ensures Stitched(g[k..], time) == Shifted(g[k..|g| - 1], time)
    ensures EndSum(g[k..]) == Duration(g)
    decreases |g| - k
  {
    var s := g[k..];
    assert s[0] == g[k] && s[1..] == g[k + 1..];
    if k == |g| - 1 {
      assert s[1..] == [];
    } else {
      GlyphSuffixStitched(g, k + 1, time);
      StitchStep(s, time);
      var x, tl := Ev(time + g[k].msTime, g[k].evType), Shifted(g[k + 1..|g| - 1], time);
      assert Stitched(s, time) == [x] + tl;
      assert Shifted(g[k..|g| - 1], time) == [x] + tl;
    }
  }

  /** A glyph read from clock `time` is the glyph without its `EndGlyph`, delayed by `time`. */
  lemma GlyphStitched(g: seq<Ev>, time: nat)
    requires IsGlyph(g) && ShiftFits(g, time)
    ensures FitsFrom(g, time)
    ensures Stitched(g, time) == Shifted(g[..|g| - 1], time)
    ensures EndSum(g) == Duration(g)
  {
    GlyphSuffixStitched(g, 0, time);
    assert g[0..] == g && g[0..|g| - 1] == g[..|g| - 1];
  }

  /** Stitching a single well-formed glyph gives it back unchanged. */
  lemma StitchSingle(a: seq<Ev>)
    requires IsGlyph(a)
    ensures FitsGlyphs([a], 0)
    ensures StitchSpec([a]) == a
  {
    GlyphStitched(a, 0);
    assert [a][1..] == [];
    var body := a[..|a| - 1];
    assert Shifted(body, 0) == body;
    assert StitchGlyphs([a], 0) == body + [];
    assert TotalEnds([a]) == Duration(a);
    assert a == body + [a[|a| - 1]];
  }

  /**
   * Two glyphs played back to back: the first without its `EndGlyph`,
   * then the second delayed by the duration of the first; the result is a
   * glyph whose duration is the sum of the two.
   */
  lemma StitchPair(a: seq<Ev>, b: seq<Ev>)
    requires IsGlyph(a) && IsGlyph(b)
    requires ShiftFits(b, Duration(a))
    ensures FitsGlyphs([a, b], 0)
    ensures StitchSpec([a, b]) == a[..|a| - 1] + Shifted(b, Duration(a))
    ensures IsGlyph(StitchSpec([a, b]))
    ensures Duration(StitchSpec([a, b])) == Duration(a) + Duration(b)
  {
    var da := Duration(a);
    assert b[|b| - 1].msTime + da < 0x1_0000;
    GlyphStitched(a, 0);
    GlyphStitched(b, da);
    var gs := [a, b];
    assert gs[1..] == [b] && gs[1..][1..] == [];
    var body := a[..|a| - 1];
    assert Shifted(body, 0) == body;
    var sb := Shifted(b, da);
    var tb := Shifted(b[..|b| - 1], da);
    var end := Ev(da + Duration(b), END_GLYPH);
    assert sb == tb + [end];
    assert StitchGlyphs(gs[1..], da) == tb + [];
    assert StitchGlyphs(gs, 0) == body + (tb + []);
    assert TotalEnds(gs[1..]) == Duration(b) + TotalEnds(gs[1..][1..]);
    assert TotalEnds(gs) == da + Duration(b);
    assert StitchSpec(gs) == body + (tb + []) + [end];
    assert body + (tb + []) + [end] == body + (tb + [end]);
    StitchIsGlyph(gs);
  }

  predicate AllGlyphs(gs: seq<seq<Ev>>) {
    forall i :: 0 <= i < |gs| ==> IsGlyph(gs[i])
  }

  /** The durations of well-formed glyphs, added up. */
  function SumDurations(gs: seq<seq<Ev>>): nat
    requires AllGlyphs(gs)
  {
    if gs == [] then 0 else Duration(gs[0]) + SumDurations(gs[1..])
  }

  /**
   * No overflow when the glyphs are played back to back from clock `time`:
   * each one can be delayed by the durations of those before it.
   */
  predicate ChainFits(gs: seq<seq<Ev>>, time: nat)
    requires AllGlyphs(gs)
  {
    time < 0x1_0000 &&
    (gs == [] || (ShiftFits(gs[0], time) && ChainFits(gs[1..], time + Duration(gs[0]))))
  }

  lemma {:induction false} ChainStitched(gs: seq<seq<Ev>>, time: nat)
    requires AllGlyphs(gs) && ChainFits(gs, time)
    ensures FitsGlyphs(gs, time)
    ensures TotalEnds(gs) == SumDurations(gs)
    decreases |gs|
  {
    if gs != [] {
      GlyphStitched(gs[0], time);
      ChainStitched(gs[1..], time + Duration(gs[0]));
    }
  }

  /**
   * Durations add up: stitching well-formed glyphs gives a well-formed
   * glyph whose duration is the sum of theirs.
   */
  lemma StitchDurations(gs: seq<seq<Ev>>)
    requires AllGlyphs(gs) && ChainFits(gs, 0)
    ensures FitsGlyphs(gs, 0)
    ensures IsGlyph(StitchSpec(gs))
    ensures Duration(StitchSpec(gs)) == SumDurations(gs)
  {
    ChainStitched(gs, 0);
    StitchIsGlyph(gs);
  }

  /** In a well-formed glyph whose timestamps never go back, no event is later than its end. */
  lemma EventsWithinDuration(g: seq<Ev>)
    requires IsGlyph(g) && NonDecreasing(g)
    ensures forall i :: 0 <= i < |g| ==> g[i].msTime <= Duration(g)
  {
  }

  /**
   * Read from clock `time`, well-formed glyphs whose timestamps never go
   * back push events in time order, all between `time` and `time` plus
   * the sum of their durations.
   */
  lemma {:induction false} StitchGlyphsOrdered(gs: seq<seq<Ev>>, time: nat)
    requires AllGlyphs(gs) && ChainFits(gs, time)
    requires forall k :: 0 <= k < |gs| ==> NonDecreasing(gs[k])
    ensures FitsGlyphs(gs, time)
    ensures NonDecreasing(StitchGlyphs(gs, time))
    ensures forall i :: 0 <= i < |StitchGlyphs(gs, time)| ==>
      time <= StitchGlyphs(gs, time)[i].msTime <= time + SumDurations(gs)
    decreases |gs|
  {
    ChainStitched(gs, time);
    if gs != [] {
      var g, rest := gs[0], gs[1..];
      var d := Duration(g);
      GlyphStitched(g, time);
      EventsWithinDuration(g);
      StitchGlyphsOrdered(rest, time + d);
      var head, tail := Stitched(g, time), StitchGlyphs(rest, time + d);
      assert head == Shifted(g[..|g| - 1], time);
      assert forall i :: 0 <= i < |head| ==> head[i].msTime == g[i].msTime + time;
      var s := StitchGlyphs(gs, time);
      assert s == head + tail;
      forall i, j | 0 <= i <= j < |s|
        ensures s[i].msTime <= s[j].msTime
      {
        if j < |head| {
          assert s[i] == head[i] && s[j] == head[j];
        } else if i >= |head| {
          assert s[i] == tail[i - |head|] && s[j] == tail[j - |head|];
        } else {
          assert s[i] == head[i] && s[j] == tail[j - |head|];
        }
      }
      forall i | 0 <= i < |s|
        ensures time <= s[i].msTime <= time + SumDurations(gs)
      {
        if i < |head| {
          assert s[i] == head[i];
        } else {
          assert s[i] == tail[i - |head|];
        }
      }
    }
  }

  /**
   * Stitching keeps time order: well-formed glyphs whose timestamps never
   * go back stitch into a glyph whose timestamps never go back.
   */
  lemma StitchNonDecreasing(gs: seq<seq<Ev>>)
    requires AllGlyphs(gs) && ChainFits(gs, 0)
    requires forall k :: 0 <= k < |gs| ==> NonDecreasing(gs[k])
    ensures FitsGlyphs(gs, 0)
    ensures NonDecreasing(StitchSpec(gs))
  {
    StitchGlyphsOrdered(gs, 0);
    ChainStitched(gs, 0);
    var s, r := StitchGlyphs(gs, 0), StitchSpec(gs);
    var total := TotalEnds(gs);
    TotalEndsFit(gs, 0);
    assert r == s + [Ev(total, END_GLYPH)];
    assert total == SumDurations(gs);
    assert forall i :: 0 <= i < |s| ==> s[i].msTime <= total;
    forall i, j | 0 <= i <= j < |r|
      ensures r[i].msTime <= r[j].msTime
    {
      if j < |s| {
        assert r[i] == s[i] && r[j] == s[j];
      } else if i < |s| {
        assert r[i] == s[i] && r[j].msTime == total;
      }
    }
  }

  /** A pulse on motor 0, then one on motor 1: `(0,0) (50,1)`, ending at 100 ms. */
  lemma StitchTwoPulses()
    ensures FitsGlyphs([EqualSpacedEvs([0], 50), EqualSpacedEvs([1], 50)], 0)
    ensures StitchSpec([EqualSpacedEvs([0], 50), EqualSpacedEvs([1], 50)]) ==
      [Ev(0, 0), Ev(50, 1), Ev(100, END_GLYPH)]
  {
    var a, b := EqualSpacedEvs([0], 50), EqualSpacedEvs([1], 50);
    assert a == [Ev(0, 0), Ev(50, END_GLYPH)];
    assert b == [Ev(0, 1), Ev(50, END_GLYPH)];
    StitchPair(a, b);
    var sb := Shifted(b, 50);
    assert sb[0] == Ev(50, 1) && sb[1] == Ev(100, END_GLYPH);
    assert a[..1] == [Ev(0, 0)];
  }

  // ---------------------------------------------------------------------
  // Stitching equally spaced glyphs
  // ---------------------------------------------------------------------

  /** All trigger lists, one after the other. */
  function Flatten(ts: seq<seq<Uint8>>): seq<Uint8> {
    if ts == [] then [] else ts[0] + Flatten(ts[1..])
  }

  /** One equally spaced glyph per trigger list. */
  function EqualSpacedAll(ts: seq<seq<Uint8>>, spaceMs: Uint16): (r: seq<seq<Ev>>)
    requires |Flatten(ts)| * spaceMs < 0x1_0000
    ensures |r| == |ts|
    decreases |ts|
  {
    if ts == [] then []
    else
      MulMono(|ts[0]|, |Flatten(ts)|, spaceMs);
      MulMono(|Flatten(ts[1..])|, |Flatten(ts)|, spaceMs);
      [EqualSpacedEvs(ts[0], spaceMs)] + EqualSpacedAll(ts[1..], spaceMs)
  }

  lemma Distrib(a: nat, b: nat, s: nat)
    ensures a * s + b * s == (a + b) * s
  {
  }

  /** An equally spaced glyph delayed by `k` spacings fits when its last trigger does. */
  lemma EqualSpacedShifted(t: seq<Uint8>, k: nat, spaceMs: Uint16)
    requires (k + |t|) * spaceMs < 0x1_0000
    requires |t| * spaceMs < 0x1_0000
    requires t == [] || (k + |t| - 1) * spaceMs < 0x1_0000
    ensures ShiftFits(EqualSpacedEvs(t, spaceMs), k * spaceMs)
    ensures Shifted(EqualSpacedEvs(t, spaceMs)[..|t|], k * spaceMs) == Enumerate(t, k, spaceMs)
  {
    EnumerateSpec(t, k, spaceMs);
    var g := EqualSpacedEvs(t, spaceMs);
    forall i | 0 <= i < |g|
      ensures g[i].msTime + k * spaceMs == (k + i) * spaceMs < 0x1_0000
    {
      Distrib(i, k, spaceMs);
      MulMono(k + i, k + |t|, spaceMs);
    }
  }

  lemma EnumerateAppend(a: seq<Uint8>, b: seq<Uint8>, k: nat, spaceMs: Uint16)
    requires a == [] || (k + |a| - 1) * spaceMs < 0x1_0000
    requires b == [] || (k + |a| + |b| - 1) * spaceMs < 0x1_0000
    ensures Enumerate(a, k, spaceMs) + Enumerate(b, k + |a|, spaceMs) == Enumerate(a + b, k, spaceMs)
  {
    EnumerateSpec(a, k, spaceMs);
    EnumerateSpec(b, k + |a|, spaceMs);
    EnumerateSpec(a + b, k, spaceMs);
    var l, r, e := Enumerate(a, k, spaceMs), Enumerate(b, k + |a|, spaceMs), Enumerate(a + b, k, spaceMs);
    forall i | 0 <= i < |e|
      ensures (l + r)[i] == e[i]
    {
      if i >= |a| {
        assert k + |a| + (i - |a|) == k + i;
      }
    }
  }

  lemma TriggersAppend(a: seq<Uint8>, b: seq<Uint8>)
    requires Triggers(a + b)
    ensures Triggers(a) && Triggers(b)
  {
    assert forall i :: 0 <= i < |a| ==> a[i] == (a + b)[i];
    assert forall i :: 0 <= i < |b| ==> b[i] == (a + b)[|a| + i];
  }

  /** The arithmetic behind numbering `a` and then `b` triggers from `k`. */
  lemma SpacingBounds(k: nat, a: nat, b: nat, s: nat)
    requires (k + a + b) * s < 0x1_0000
    ensures 0 <= k * s && 0 <= (k + a) * s
    ensures k * s + a * s == (k + a) * s && a * s + b * s == (a + b) * s
    ensures (k + a) * s < 0x1_0000 && a * s < 0x1_0000 && b * s < 0x1_0000 && (a + b) * s < 0x1_0000
    ensures a == 0 || (k + a - 1) * s < 0x1_0000
    ensures b == 0 || (k + a + b - 1) * s < 0x1_0000
  {
    MulMono(k + a, k + a + b, s);
    MulMono(a, k + a + b, s);
    MulMono(b, k + a + b, s);
    MulMono(a + b, k + a + b, s);
    if a > 0 {
      MulMono(k + a - 1, k + a + b, s);
    }
    if b > 0 {
      MulMono(k + a + b - 1, k + a + b, s);
    }
  }

  /** One step of the outer loop, read from clock `time` with the next glyph starting at `next`. */
  lemma StitchGlyphsCons(gs: seq<seq<Ev>>, time: nat, next: nat)
    requires gs != [] && FitsFrom(gs[0], time) && time + EndSum(gs[0]) == next
    requires FitsGlyphs(gs[1..], next)
    ensures FitsGlyphs(gs, time)
    ensures StitchGlyphs(gs, time) == Stitched(gs[0], time) + StitchGlyphs(gs[1..], next)
    ensures TotalEnds(gs) == EndSum(gs[0]) + TotalEnds(gs[1..])
  {
  }

  /** An equally spaced glyph read from clock `k * spaceMs` pushes its triggers numbered on from `k`. */
  lemma EqualSpacedStitched(t: seq<Uint8>, k: nat, clock: nat, spaceMs: Uint16)
    requires Triggers(t)
    requires clock == k * spaceMs
    requires (k + |t|) * spaceMs < 0x1_0000
    requires |t| * spaceMs < 0x1_0000
    requires t == [] || (k + |t| - 1) * spaceMs < 0x1_0000
    ensures FitsFrom(EqualSpacedEvs(t, spaceMs), clock)
    ensures Stitched(EqualSpacedEvs(t, spaceMs), clock) == Enumerate(t, k, spaceMs)
    ensures EndSum(EqualSpacedEvs(t, spaceMs)) == |t| * spaceMs
  {
    var g := EqualSpacedEvs(t, spaceMs);
    EqualSpacedIsGlyph(t, spaceMs);
    EqualSpacedShifted(t, k, spaceMs);
    GlyphStitched(g, clock);
    assert |g| - 1 == |t|;
  }

  /**
   * Read from clock `k * spaceMs`, equally spaced glyphs are pushed as the
   * triggers of all of them numbered on from `k`, and the clock advances
   * by one spacing per trigger.
   */
  lemma {:induction false} EqualSpacedAllStitched(ts: seq<seq<Uint8>>, k: nat, clock: nat, spaceMs: Uint16)
    requires Triggers(Flatten(ts))
    requires clock == k * spaceMs
    requires (k + |Flatten(ts)|) * spaceMs < 0x1_0000
    requires |Flatten(ts)| * spaceMs < 0x1_0000
    ensures FitsGlyphs(EqualSpacedAll(ts, spaceMs), clock)
    ensures StitchGlyphs(EqualSpacedAll(ts, spaceMs), clock) == Enumerate(Flatten(ts), k, spaceMs)
    ensures TotalEnds(EqualSpacedAll(ts, spaceMs)) == |Flatten(ts)| * spaceMs
    decreases |ts|
  {
    SpacingBounds(k, |Flatten(ts)|, 0, spaceMs);
    if ts != [] {
      var t, rest, f := ts[0], ts[1..], Flatten(ts);
      var fr := Flatten(rest);
      assert f == t + fr;
      assert |f| == |t| + |fr|;
      TriggersAppend(t, fr);
      SpacingBounds(k, |t|, |fr|, spaceMs);
      var g, gs, gr := EqualSpacedEvs(t, spaceMs), EqualSpacedAll(ts, spaceMs), EqualSpacedAll(rest, spaceMs);
      assert gs[0] == g && gs[1..] == gr;
      EqualSpacedStitched(t, k, clock, spaceMs);
      var next := clock + EndSum(g);
      EqualSpacedAllStitched(rest, k + |t|, next, spaceMs);
      StitchGlyphsCons(gs, clock, next);
      var head, tail := Enumerate(t, k, spaceMs), Enumerate(fr, k + |t|, spaceMs);
      assert Stitched(g, clock) == head;
      assert StitchGlyphs(gr, next) == tail;
      EnumerateAppend(t, fr, k, spaceMs);
      assert head + tail == Enumerate(f, k, spaceMs);
      assert TotalEnds(gs) == |t| * spaceMs + |fr| * spaceMs;
    }
  }

  /**
   * Stitching equally spaced glyphs gives the equally spaced glyph of all
   * their triggers, in order, at the same spacing.
   */
  lemma StitchEqualSpaced(ts: seq<seq<Uint8>>, spaceMs: Uint16)
    requires Triggers(Flatten(ts))
    requires |Flatten(ts)| * spaceMs < 0x1_0000
    ensures FitsGlyphs(EqualSpacedAll(ts, spaceMs), 0)
    ensures StitchSpec(EqualSpacedAll(ts, spaceMs)) == EqualSpacedEvs(Flatten(ts), spaceMs)
  {
    var f := Flatten(ts);
    EqualSpacedAllStitched(ts, 0, 0, spaceMs);
    SpacingBounds(0, |f|, 0, spaceMs);
    EnumerateSpec(f, 0, spaceMs);
    var r, e := StitchSpec(EqualSpacedAll(ts, spaceMs)), EqualSpacedEvs(f, spaceMs);
    assert |r| == |e|;
    forall i | 0 <= i < |e|
      ensures r[i] == e[i]
    {
    }
  }
}
