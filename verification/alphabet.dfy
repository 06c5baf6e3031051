/**
 * Glyph alphabets and the built-in `distinguish` alphabet (src/glyphs.rs:8-54,
 * 158-236).
 *
 * An alphabet maps the printable ASCII characters, a few other characters
 * and free-form names to glyphs; every lookup that finds nothing answers
 * the alphabet's unknown glyph.
 */
module Alphabets {
  import opened Event
  import opened Timeline

  /** One pulse on motor 0, then `EndGlyph` at 200 ms. */
  const DEFAULT_GLYPH: seq<Ev> := [NewEv(0, 0), NewEv(200, END_GLYPH)]

  /** The printable ASCII block runs from ' ' to '~' inclusive. */
  const ASCII_BLOCK_SIZE: nat := 95

  predicate IsPrintable(c: char) {
    ' ' <= c <= '~'
  }

  /** `c as usize - ' ' as usize`: the slot of a printable character. */
  function AsciiIndex(c: char): (i: nat)
    requires IsPrintable(c)
    ensures i < ASCII_BLOCK_SIZE
    ensures (' ' as int + i) as char == c
  {
    c as int - ' ' as int
  }

  // ---------------------------------------------------------------------
  // Alphabet
  // ---------------------------------------------------------------------

  /** The glyph bound to `s` in `m`, or `unknown` when `s` is not bound. */
  function Lookup(m: map<string, seq<Ev>>, unknown: seq<Ev>, s: string): (g: seq<Ev>)
    ensures s in m ==> g == m[s]
    ensures s !in m ==> g == unknown
  {
    if s in m then m[s] else unknown
  }

  class Alphabet {
    /** One glyph per printable character, from ' ' to '~'. */
    var asciiBlock: seq<seq<Ev>>
    var charMap: map<char, seq<Ev>>
    var otherMap: map<string, seq<Ev>>
    var unknownGlyph: seq<Ev>

    ghost predicate Valid()
      reads this
    {
      |asciiBlock| == ASCII_BLOCK_SIZE
    }

    /**
     * `Alphabet::default`: every printable character, '\n' and the unknown
     * glyph are the default glyph; no name is bound.
     */
    constructor Default()
      ensures Valid()
      ensures asciiBlock == seq(ASCII_BLOCK_SIZE, _ => DEFAULT_GLYPH)
      ensures charMap == map['\n' := DEFAULT_GLYPH]
      ensures otherMap == map[]
      ensures unknownGlyph == DEFAULT_GLYPH
      ensures forall c :: GetGlyph(c) == DEFAULT_GLYPH
      ensures forall s :: GetOtherGlyph(s) == DEFAULT_GLYPH
    {
      asciiBlock := seq(ASCII_BLOCK_SIZE, _ => DEFAULT_GLYPH);
      charMap := map['\n' := DEFAULT_GLYPH];
      otherMap := map[];
      unknownGlyph := DEFAULT_GLYPH;
    }

    /**
     * `get_glyph`: a printable character reads its slot of the block; any
     * other character its entry in the char map, or the unknown glyph.
     */
    function GetGlyph(c: char): (g: seq<Ev>)
      reads this
      requires Valid()
      ensures IsPrintable(c) ==> g == asciiBlock[AsciiIndex(c)]
      ensures !IsPrintable(c) && c in charMap ==> g == charMap[c]
      ensures !IsPrintable(c) && c !in charMap ==> g == unknownGlyph
    {
      if IsPrintable(c) then asciiBlock[AsciiIndex(c)]
      else if c in charMap then charMap[c]
      else unknownGlyph
    }

    /** `get_other_glyph`: the glyph bound to `s`, or the unknown glyph. */
    function GetOtherGlyph(s: string): (g: seq<Ev>)
      reads this
      ensures s in otherMap ==> g == otherMap[s]
      ensures s !in otherMap ==> g == unknownGlyph
    {
      Lookup(otherMap, unknownGlyph, s)
    }

    /**
     * `add_other_glyph`: binds `s` to `g`, replacing any earlier binding;
     * every other lookup answers as before.
     */
    method AddOtherGlyph(s: string, g: seq<Ev>)
      modifies this
      requires Valid()
      ensures Valid()
      ensures otherMap == old(otherMap)[s := g]
      ensures asciiBlock == old(asciiBlock) && charMap == old(charMap)
      ensures unknownGlyph == old(unknownGlyph)
      ensures GetOtherGlyph(s) == g
      ensures forall t :: t != s ==> GetOtherGlyph(t) == old(GetOtherGlyph(t))
      ensures forall c :: GetGlyph(c) == old(GetGlyph(c))
    {
      otherMap := otherMap[s := g];
    }

    /** `add_other_glyphs`: `add_other_glyph` for each pair, in order. */
    method AddOtherGlyphs(gls: seq<(string, seq<Ev>)>)
      modifies this
      requires Valid()
      ensures Valid()
      ensures otherMap == BindAll(old(otherMap), gls)
      ensures asciiBlock == old(asciiBlock) && charMap == old(charMap)
      ensures unknownGlyph == old(unknownGlyph)
    {
      var i := 0;
      while i < |gls|
        invariant i <= |gls| && Valid()
        invariant BindAll(otherMap, gls[i..]) == BindAll(old(otherMap), gls)
        invariant asciiBlock == old(asciiBlock) && charMap == old(charMap)
        invariant unknownGlyph == old(unknownGlyph)
      {
        var (s, evs) := gls[i];
        assert gls[i..][0] == (s, evs) && gls[i..][1..] == gls[i + 1..];
        AddOtherGlyph(s, evs);
        i := i + 1;
      }
    }
  }

  /** The map after binding each pair of `gls` in order, later pairs winning. */
  function BindAll(m: map<string, seq<Ev>>, gls: seq<(string, seq<Ev>)>): map<string, seq<Ev>>
    decreases |gls|
  {
    if gls == [] then m else BindAll(m[gls[0].0 := gls[0].1], gls[1..])
  }

  /** A name no pair binds keeps its old entry, or its absence. */
  lemma {:induction false} BindAllUntouched(m: map<string, seq<Ev>>, gls: seq<(string, seq<Ev>)>, s: string)
    requires forall j :: 0 <= j < |gls| ==> gls[j].0 != s
    ensures s in BindAll(m, gls) <==> s in m
    ensures s in m ==> BindAll(m, gls)[s] == m[s]
    decreases |gls|
  {
    if gls != [] {
      BindAllUntouched(m[gls[0].0 := gls[0].1], gls[1..], s);
    }
  }

  /** A name bound by pair `i` and by no later pair ends up bound to that pair's glyph. */
  lemma {:induction false} BindAllLast(m: map<string, seq<Ev>>, gls: seq<(string, seq<Ev>)>, i: nat)
    requires i < |gls|
    requires forall j :: i < j < |gls| ==> gls[j].0 != gls[i].0
    ensures gls[i].0 in BindAll(m, gls)
    ensures BindAll(m, gls)[gls[i].0] == gls[i].1
    decreases |gls|
  {
    var m' := m[gls[0].0 := gls[0].1];
    if i == 0 {
      BindAllUntouched(m', gls[1..], gls[0].0);
    } else {
      BindAllLast(m', gls[1..], i - 1);
    }
  }

  // ---------------------------------------------------------------------
  // Names
  // ---------------------------------------------------------------------

  function DigitChar(d: nat): (c: char)
    requires d < 10
    ensures '0' <= c <= '9'
  {
    ('0' as int + d) as char
  }

  /** `i.to_string()`: the decimal digits of `n`, most significant first, no leading zero. */
  function DecimalString(n: nat): (s: string)
    ensures |s| > 0
    ensures forall k :: 0 <= k < |s| ==> '0' <= s[k] <= '9'
    ensures s[0] == '0' <==> n == 0
    ensures |s| > 1 ==> s[0] != '0'
  {
    if n < 10 then [DigitChar(n)]
    else DecimalString(n / 10) + [DigitChar(n % 10)]
  }

  /** Reads decimal digits back as a number. */
  function ParseDecimal(s: string): nat
    requires forall k :: 0 <= k < |s| ==> '0' <= s[k] <= '9'
  {
    if s == [] then 0
    else 10 * ParseDecimal(s[..|s| - 1]) + (s[|s| - 1] as int - '0' as int)
  }

  /** `to_string` loses nothing: its digits read back as the number, so distinct numbers get distinct names. */
  lemma {:induction false} DecimalRoundTrip(n: nat)
    ensures ParseDecimal(DecimalString(n)) == n
  {
    var s := DecimalString(n);
    if n >= 10 {
      DecimalRoundTrip(n / 10);
      assert s[..|s| - 1] == DecimalString(n / 10);
    }
  }

  lemma DecimalInjective(m: nat, n: nat)
    ensures DecimalString(m) == DecimalString(n) <==> m == n
  {
    DecimalRoundTrip(m);
    DecimalRoundTrip(n);
  }

  // ---------------------------------------------------------------------
  // The `distinguish` alphabet
  // ---------------------------------------------------------------------

  /**
   * The named movements of `distinguish`, as the motor sequences played
   * 50 ms apart: columns swept up and down, rows swept right and left, the
   * outer ring both ways and four diagonals.
   */
  const NAMED_TRIGGERS: seq<(string, seq<Uint8>)> := [
    ("col0_up", [8, 4, 0]),
    ("col1_up", [9, 5, 1]),
    ("col2_up", [10, 6, 2]),
    ("col3_up", [11, 7, 3]),
    ("col0_down", [0, 4, 8]),
    ("col1_down", [1, 5, 9]),
    ("col2_down", [2, 6, 10]),
    ("col3_down", [3, 7, 11]),
    ("row0_right", [0, 1, 2, 3]),
    ("row1_right", [4, 5, 6, 7]),
    ("row2_right", [8, 9, 10, 11]),
    ("row0_left", [3, 2, 1, 0]),
    ("row1_left", [7, 6, 5, 4]),
    ("row2_left", [11, 10, 9, 8]),
    ("clockwise", [0, 1, 2, 3, 7, 11, 10, 9, 8, 4, 0]),
    ("anticlockwise", [0, 4, 8, 9, 10, 11, 7, 3, 2, 1, 0]),
    ("slash", [3, 6, 5, 8]),
    ("rev_slash", [8, 5, 6, 3]),
    ("backslash", [0, 5, 6, 11]),
    ("rev_backslash", [11, 6, 5, 0])
  ]

  lemma NamedDistinct()
    ensures forall i, j :: 0 <= i < j < |NAMED_TRIGGERS| ==> NAMED_TRIGGERS[i].0 != NAMED_TRIGGERS[j].0
  {
  }

  /** No movement name is a number's decimal string: each starts with a letter. */
  lemma NamedNotDecimal(n: nat)
    ensures forall k :: 0 <= k < |NAMED_TRIGGERS| ==> NAMED_TRIGGERS[k].0 != DecimalString(n)
  {
    var d := DecimalString(n);
    forall k | 0 <= k < |NAMED_TRIGGERS|
      ensures NAMED_TRIGGERS[k].0 != d
    {
      assert 'a' <= NAMED_TRIGGERS[k].0[0] <= 'z';
    }
  }

  /** The glyph bound to the name `i` for each motor `i`: one pulse, then `EndGlyph` 50 ms later. */
  lemma SingleSpaced(i: Uint8)
    ensures EqualSpacedEvs([i], 50) == [Ev(0, i), Ev(50, END_GLYPH)]
  {
    var g := EqualSpacedEvs([i], 50);
    assert g[0] == Ev(0, i) && g[1] == Ev(50, END_GLYPH);
  }

  /** Three equally spaced glyphs stitched together: the equally spaced glyph of all their triggers. */
  lemma StitchThree(t1: seq<Uint8>, t2: seq<Uint8>, t3: seq<Uint8>, spaceMs: Uint16)
    requires Triggers(t1 + t2 + t3)
    requires (|t1| + |t2| + |t3|) * spaceMs < 0x1_0000
    requires |t1| * spaceMs < 0x1_0000 && |t2| * spaceMs < 0x1_0000 && |t3| * spaceMs < 0x1_0000
    ensures FitsGlyphs([EqualSpacedEvs(t1, spaceMs), EqualSpacedEvs(t2, spaceMs), EqualSpacedEvs(t3, spaceMs)], 0)
    ensures StitchSpec([EqualSpacedEvs(t1, spaceMs), EqualSpacedEvs(t2, spaceMs), EqualSpacedEvs(t3, spaceMs)])
      == EqualSpacedEvs(t1 + t2 + t3, spaceMs)
  {
    var ts: seq<seq<Uint8>> := [t1, t2, t3];
    var ts2, ts3: seq<seq<Uint8>>, ts4: seq<seq<Uint8>> := ts[1..], ts[2..], ts[3..];
    assert ts2 == [t2, t3] && ts2[1..] == ts3 && ts3 == [t3] && ts3[1..] == ts4 && ts4 == [];
    var e: seq<Uint8> := [];
    assert Flatten(ts3) == t3 + e && t3 + e == t3;
    assert Flatten(ts2) == t2 + t3;
    assert Flatten(ts) == t1 + (t2 + t3) == t1 + t2 + t3;
    MulMono(|t2| + |t3|, |t1| + |t2| + |t3|, spaceMs);
    var g1, g2, g3 := EqualSpacedEvs(t1, spaceMs), EqualSpacedEvs(t2, spaceMs), EqualSpacedEvs(t3, spaceMs);
    assert EqualSpacedAll(ts3, spaceMs) == [g3] + [];
    assert EqualSpacedAll(ts2, spaceMs) == [g2] + [g3];
    assert EqualSpacedAll(ts, spaceMs) == [g1] + [g2, g3] == [g1, g2, g3];
    StitchEqualSpaced(ts, spaceMs);
  }

  /** Every row of `table` fits the 16-bit clock when its triggers are spaced `spaceMs` apart. */
  predicate SpacedFit(table: seq<(string, seq<Uint8>)>, spaceMs: Uint16) {
    forall k :: 0 <= k < |table| ==> |table[k].1| * spaceMs < 0x1_0000
  }

  /** Each row of `table` as a name with its `equal_spaced_evs` glyph. */
  function SpacedGlyphs(table: seq<(string, seq<Uint8>)>, spaceMs: Uint16): (r: seq<(string, seq<Ev>)>)
    requires SpacedFit(table, spaceMs)
    ensures |r| == |table|
    ensures forall k :: 0 <= k < |table| ==>
      r[k].0 == table[k].0 && r[k].1 == EqualSpacedEvs(table[k].1, spaceMs)
  {
    seq(|table|, k requires 0 <= k < |table| => (table[k].0, EqualSpacedEvs(table[k].1, spaceMs)))
  }

  /** After the rows are bound, a name that no later row rebinds answers its row's glyph. */
  lemma SpacedLookup(m: map<string, seq<Ev>>, table: seq<(string, seq<Uint8>)>, spaceMs: Uint16, k: nat)
    requires SpacedFit(table, spaceMs) && k < |table|
    requires forall j :: k < j < |table| ==> table[j].0 != table[k].0
    ensures table[k].0 in BindAll(m, SpacedGlyphs(table, spaceMs))
    ensures BindAll(m, SpacedGlyphs(table, spaceMs))[table[k].0] == EqualSpacedEvs(table[k].1, spaceMs)
  {
    BindAllLast(m, SpacedGlyphs(table, spaceMs), k);
  }

  /** Every movement fits the 16-bit clock at 50 ms spacing. */
  lemma NamedFit()
    ensures SpacedFit(NAMED_TRIGGERS, 50)
  {
    assert forall k :: 0 <= k < |NAMED_TRIGGERS| ==> |NAMED_TRIGGERS[k].1| <= 11;
  }

  /** The glyphs handed to the first `add_other_glyphs`. */
  function NamedGlyphs(): seq<(string, seq<Ev>)> {
    SpacedGlyphs(NAMED_TRIGGERS, 50)
  }

  lemma NamedLastAt(k: nat)
    requires k < |NAMED_TRIGGERS|
    ensures forall j :: k < j < |NAMED_TRIGGERS| ==> NAMED_TRIGGERS[j].0 != NAMED_TRIGGERS[k].0
  {
    NamedDistinct();
  }

  /** After the movements are bound, movement `k`'s name answers its equally spaced glyph. */
  lemma NamedLookup(m: map<string, seq<Ev>>, k: nat)
    requires k < |NAMED_TRIGGERS|
    ensures NAMED_TRIGGERS[k].0 in BindAll(m, NamedGlyphs())
    ensures BindAll(m, NamedGlyphs())[NAMED_TRIGGERS[k].0] == EqualSpacedEvs(NAMED_TRIGGERS[k].1, 50)
  {
    NamedFit();
    NamedLastAt(k);
    SpacedLookup(m, NAMED_TRIGGERS, 50, k);
  }

  /** Binding the movements keeps every numbered glyph. */
  lemma NamedKeepsNumbered(m: map<string, seq<Ev>>, n: nat)
    requires DecimalString(n) in m
    ensures DecimalString(n) in BindAll(m, NamedGlyphs())
    ensures BindAll(m, NamedGlyphs())[DecimalString(n)] == m[DecimalString(n)]
  {
    NamedFit();
    NamedNotDecimal(n);
    BindAllUntouched(m, NamedGlyphs(), DecimalString(n));
  }

  /** The names `0` .. `n - 1` of `m` each answer one pulse on that motor and `EndGlyph` 50 ms later. */
  predicate Numbered(m: map<string, seq<Ev>>, n: nat)
    requires n <= 0x100
  {
    forall i :: 0 <= i < n ==> DecimalString(i) in m && m[DecimalString(i)] == [Ev(0, i), Ev(50, END_GLYPH)]
  }

  /** The names `0` .. `n - 1`, each bound to its single-motor glyph. */
  function NumberedMap(n: nat): map<string, seq<Ev>>
    requires n <= 0x100
  {
    if n == 0 then map[] else NumberedMap(n - 1)[DecimalString(n - 1) := EqualSpacedEvs([n - 1], 50)]
  }

  lemma {:induction false} NumberedLookup(n: nat)
    requires n <= 0x100
    ensures Numbered(NumberedMap(n), n)
  {
    if n > 0 {
      NumberedLookup(n - 1);
      SingleSpaced(n - 1);
      forall i | 0 <= i < n - 1
        ensures DecimalString(i) != DecimalString(n - 1)
      {
        DecimalInjective(i, n - 1);
      }
    }
  }

  /** Every movement's name answers its equally spaced glyph in `m`. */
  predicate NamedBound(m: map<string, seq<Ev>>) {
    forall k :: 0 <= k < |NAMED_TRIGGERS| ==>
      NAMED_TRIGGERS[k].0 in m && m[NAMED_TRIGGERS[k].0] == EqualSpacedEvs(NAMED_TRIGGERS[k].1, 50)
  }

  /** The first `add_other_glyphs` of `distinguish` binds every movement and keeps the numbered glyphs. */
  lemma NamedStage(m: map<string, seq<Ev>>, n: nat)
    requires n <= 0x100 && Numbered(m, n)
    ensures Numbered(BindAll(m, NamedGlyphs()), n)
    ensures NamedBound(BindAll(m, NamedGlyphs()))
  {
    forall i | 0 <= i < n
      ensures DecimalString(i) in BindAll(m, NamedGlyphs())
      ensures BindAll(m, NamedGlyphs())[DecimalString(i)] == m[DecimalString(i)]
    {
      NamedKeepsNumbered(m, i);
    }
    forall k | 0 <= k < |NAMED_TRIGGERS|
      ensures NAMED_TRIGGERS[k].0 in BindAll(m, NamedGlyphs())
      ensures BindAll(m, NamedGlyphs())[NAMED_TRIGGERS[k].0] == EqualSpacedEvs(NAMED_TRIGGERS[k].1, 50)
    {
      NamedLookup(m, k);
    }
  }

  /** The glyphs stitched for `distinguish`: each name with the three strokes it is drawn with. */
  const STITCHED: seq<(string, seq<string>)> := [
    ("N", ["col0_up", "col1_down", "col2_up"]),
    ("flipped_N", ["col2_up", "col1_down", "col0_up"]),
    ("zig", ["row0_right", "row1_left", "row2_right"]),
    ("zag", ["row0_left", "row1_right", "row2_left"])
  ]

  /** The glyphs `get_other_glyph` answers for `names`, given the name map `m` and the unknown glyph. */
  function Strokes(m: map<string, seq<Ev>>, unknown: seq<Ev>, names: seq<string>): seq<seq<Ev>> {
    seq(|names|, i requires 0 <= i < |names| => Lookup(m, unknown, names[i]))
  }

  predicate StrokesFit(m: map<string, seq<Ev>>, unknown: seq<Ev>) {
    forall k :: 0 <= k < |STITCHED| ==> FitsGlyphs(Strokes(m, unknown, STITCHED[k].1), 0)
  }

  /** The glyphs handed to the second `add_other_glyphs`: each name with its strokes stitched. */
  function StitchedGlyphs(m: map<string, seq<Ev>>, unknown: seq<Ev>): (r: seq<(string, seq<Ev>)>)
    requires StrokesFit(m, unknown)
    ensures |r| == |STITCHED|
    ensures forall k :: 0 <= k < |STITCHED| ==> r[k] == (STITCHED[k].0, StitchSpec(Strokes(m, unknown, STITCHED[k].1)))
  {
    seq(|STITCHED|, k requires 0 <= k < |STITCHED| => (STITCHED[k].0, StitchSpec(Strokes(m, unknown, STITCHED[k].1))))
  }

  /**
   * Three names bound to equally spaced glyphs stitch into the equally
   * spaced glyph of all their triggers.
   */
  lemma StrokesStitched(named: map<string, seq<Ev>>, unknown: seq<Ev>, names: seq<string>, t1: seq<Uint8>, t2: seq<Uint8>, t3: seq<Uint8>)
    requires |names| == 3 && Triggers(t1 + t2 + t3) && (|t1| + |t2| + |t3|) * 50 < 0x1_0000
    requires |t1| * 50 < 0x1_0000 && |t2| * 50 < 0x1_0000 && |t3| * 50 < 0x1_0000
    requires names[0] in named && named[names[0]] == EqualSpacedEvs(t1, 50)
    requires names[1] in named && named[names[1]] == EqualSpacedEvs(t2, 50)
    requires names[2] in named && named[names[2]] == EqualSpacedEvs(t3, 50)
    ensures FitsGlyphs(Strokes(named, unknown, names), 0)
    ensures StitchSpec(Strokes(named, unknown, names)) == EqualSpacedEvs(t1 + t2 + t3, 50)
  {
    assert Strokes(named, unknown, names) ==
      [EqualSpacedEvs(t1, 50), EqualSpacedEvs(t2, 50), EqualSpacedEvs(t3, 50)];
    StitchThree(t1, t2, t3, 50);
  }

  /** `N`: up the first column, down the second, up the third. */
  lemma StitchedN(named: map<string, seq<Ev>>, unknown: seq<Ev>)
    requires NamedBound(named)
    ensures FitsGlyphs(Strokes(named, unknown, STITCHED[0].1), 0)
    ensures StitchSpec(Strokes(named, unknown, STITCHED[0].1)) ==
      EqualSpacedEvs(NAMED_TRIGGERS[0].1 + NAMED_TRIGGERS[5].1 + NAMED_TRIGGERS[2].1, 50)
  {
    assert NAMED_TRIGGERS[0].1 == [8, 4, 0] && NAMED_TRIGGERS[5].1 == [1, 5, 9] && NAMED_TRIGGERS[2].1 == [10, 6, 2];
    StrokesStitched(named, unknown, STITCHED[0].1, NAMED_TRIGGERS[0].1, NAMED_TRIGGERS[5].1, NAMED_TRIGGERS[2].1);
  }
  /** `flipped_N`: `N` drawn from the third column back to the first. */
  lemma StitchedFlippedN(named: map<string, seq<Ev>>, unknown: seq<Ev>)
    requires NamedBound(named)
    ensures FitsGlyphs(Strokes(named, unknown, STITCHED[1].1), 0)
    ensures StitchSpec(Strokes(named, unknown, STITCHED[1].1)) ==
      EqualSpacedEvs(NAMED_TRIGGERS[2].1 + NAMED_TRIGGERS[5].1 + NAMED_TRIGGERS[0].1, 50)
  {
    assert NAMED_TRIGGERS[2].1 == [10, 6, 2] && NAMED_TRIGGERS[5].1 == [1, 5, 9] && NAMED_TRIGGERS[0].1 == [8, 4, 0];
    StrokesStitched(named, unknown, STITCHED[1].1, NAMED_TRIGGERS[2].1, NAMED_TRIGGERS[5].1, NAMED_TRIGGERS[0].1);
  }

  /** `zig`: the first row rightwards, the second leftwards, the third rightwards. */
  lemma StitchedZig(named: map<string, seq<Ev>>, unknown: seq<Ev>)
    requires NamedBound(named)
    ensures FitsGlyphs(Strokes(named, unknown, STITCHED[2].1), 0)
    ensures StitchSpec(Strokes(named, unknown, STITCHED[2].1)) ==
      EqualSpacedEvs(NAMED_TRIGGERS[8].1 + NAMED_TRIGGERS[12].1 + NAMED_TRIGGERS[10].1, 50)
  {
    assert NAMED_TRIGGERS[8].1 == [0, 1, 2, 3] && NAMED_TRIGGERS[12].1 == [7, 6, 5, 4] && NAMED_TRIGGERS[10].1 == [8, 9, 10, 11];
    StrokesStitched(named, unknown, STITCHED[2].1, NAMED_TRIGGERS[8].1, NAMED_TRIGGERS[12].1, NAMED_TRIGGERS[10].1);
  }

  /** `zag`: the first row leftwards, the second rightwards, the third leftwards. */
  lemma StitchedZag(named: map<string, seq<Ev>>, unknown: seq<Ev>)
    requires NamedBound(named)
    ensures FitsGlyphs(Strokes(named, unknown, STITCHED[3].1), 0)
    ensures StitchSpec(Strokes(named, unknown, STITCHED[3].1)) ==
      EqualSpacedEvs(NAMED_TRIGGERS[11].1 + NAMED_TRIGGERS[9].1 + NAMED_TRIGGERS[13].1, 50)
  {
    assert NAMED_TRIGGERS[11].1 == [3, 2, 1, 0] && NAMED_TRIGGERS[9].1 == [4, 5, 6, 7] && NAMED_TRIGGERS[13].1 == [11, 10, 9, 8];
    StrokesStitched(named, unknown, STITCHED[3].1, NAMED_TRIGGERS[11].1, NAMED_TRIGGERS[9].1, NAMED_TRIGGERS[13].1);
  }

  /** Once the movements are bound, every stitched glyph fits the 16-bit clock. */
  lemma NamedStrokesFit(named: map<string, seq<Ev>>, unknown: seq<Ev>)
    requires NamedBound(named)
    ensures StrokesFit(named, unknown)
  {
    StitchedN(named, unknown);
    StitchedFlippedN(named, unknown);
    StitchedZig(named, unknown);
    StitchedZag(named, unknown);
  }

  /** The `N` movement: up the first column, down the second, up the third. */
  const N_GLYPH: seq<Ev> := [
    Ev(0, 8), Ev(50, 4), Ev(100, 0), Ev(150, 1), Ev(200, 5), Ev(250, 9),
    Ev(300, 10), Ev(350, 6), Ev(400, 2), Ev(450, END_GLYPH)
  ]

  /** Nine triggers 50 ms apart from 0 to 400, then `EndGlyph` at 450. */
  lemma NGlyphSpaced()
    ensures EqualSpacedEvs([8, 4, 0, 1, 5, 9, 10, 6, 2], 50) == N_GLYPH
  {
    var g := EqualSpacedEvs([8, 4, 0, 1, 5, 9, 10, 6, 2], 50);
    assert g[0] == N_GLYPH[0] && g[1] == N_GLYPH[1] && g[2] == N_GLYPH[2];
    assert g[3] == N_GLYPH[3] && g[4] == N_GLYPH[4] && g[5] == N_GLYPH[5];
    assert g[6] == N_GLYPH[6] && g[7] == N_GLYPH[7] && g[8] == N_GLYPH[8];
    assert g[9] == N_GLYPH[9];
  }

  /** The triggers of the stitched glyphs, stroke after stroke. */
  lemma StitchedTriggers()
    ensures NAMED_TRIGGERS[0].1 + NAMED_TRIGGERS[5].1 + NAMED_TRIGGERS[2].1 == [8, 4, 0, 1, 5, 9, 10, 6, 2]
    ensures NAMED_TRIGGERS[2].1 + NAMED_TRIGGERS[5].1 + NAMED_TRIGGERS[0].1 == [10, 6, 2, 1, 5, 9, 8, 4, 0]
    ensures NAMED_TRIGGERS[8].1 + NAMED_TRIGGERS[12].1 + NAMED_TRIGGERS[10].1 == [0, 1, 2, 3, 7, 6, 5, 4, 8, 9, 10, 11]
    ensures NAMED_TRIGGERS[11].1 + NAMED_TRIGGERS[9].1 + NAMED_TRIGGERS[13].1 == [3, 2, 1, 0, 4, 5, 6, 7, 11, 10, 9, 8]
  {
  }

  /** The four stitched names answer their strokes played back to back. */
  predicate StitchedBound(m: map<string, seq<Ev>>) {
    && "N" in m && m["N"] == N_GLYPH
    && "flipped_N" in m && m["flipped_N"] == EqualSpacedEvs([10, 6, 2, 1, 5, 9, 8, 4, 0], 50)
    && "zig" in m && m["zig"] == EqualSpacedEvs([0, 1, 2, 3, 7, 6, 5, 4, 8, 9, 10, 11], 50)
    && "zag" in m && m["zag"] == EqualSpacedEvs([3, 2, 1, 0, 4, 5, 6, 7, 11, 10, 9, 8], 50)
  }

  /** The second `add_other_glyphs` of `distinguish` leaves every name other than the four stitched ones alone. */
  lemma StitchedKeeps(named: map<string, seq<Ev>>, unknown: seq<Ev>, n: nat)
    requires StrokesFit(named, unknown) && n <= 0x100
    requires Numbered(named, n) && NamedBound(named)
    ensures Numbered(BindAll(named, StitchedGlyphs(named, unknown)), n)
    ensures NamedBound(BindAll(named, StitchedGlyphs(named, unknown)))
  {
    var gls := StitchedGlyphs(named, unknown);
    forall i | 0 <= i < n
      ensures DecimalString(i) in BindAll(named, gls)
      ensures BindAll(named, gls)[DecimalString(i)] == named[DecimalString(i)]
    {
      var d := DecimalString(i);
      forall j | 0 <= j < |gls|
        ensures gls[j].0 != d
      {
        assert !('0' <= gls[j].0[0] <= '9');
      }
      BindAllUntouched(named, gls, d);
    }
    forall k | 0 <= k < |NAMED_TRIGGERS|
      ensures NAMED_TRIGGERS[k].0 in BindAll(named, gls)
      ensures BindAll(named, gls)[NAMED_TRIGGERS[k].0] == named[NAMED_TRIGGERS[k].0]
    {
      forall j | 0 <= j < |gls|
        ensures gls[j].0 != NAMED_TRIGGERS[k].0
      {
      }
      BindAllUntouched(named, gls, NAMED_TRIGGERS[k].0);
    }
  }

  /** After the second `add_other_glyphs`, each stitched name answers its strokes stitched together. */
  lemma StitchedAnswers(named: map<string, seq<Ev>>, unknown: seq<Ev>)
    requires NamedBound(named) && StrokesFit(named, unknown)
    ensures StitchedBound(BindAll(named, StitchedGlyphs(named, unknown)))
  {
    var gls := StitchedGlyphs(named, unknown);
    BindAllLast(named, gls, 0);
    BindAllLast(named, gls, 1);
    BindAllLast(named, gls, 2);
    BindAllLast(named, gls, 3);
    StitchedN(named, unknown);
    StitchedFlippedN(named, unknown);
    StitchedZig(named, unknown);
    StitchedZag(named, unknown);
    StitchedTriggers();
    NGlyphSpaced();
  }

  /** `stitch_evs` over what `get_other_glyph` answers for three stroke names. */
  method StitchStrokes(a: Alphabet, names: seq<string>) returns (g: seq<Ev>)
    requires |names| == 3
    requires FitsGlyphs(Strokes(a.otherMap, a.unknownGlyph, names), 0)
    ensures g == StitchSpec(Strokes(a.otherMap, a.unknownGlyph, names))
  {
    var strokes := [a.GetOtherGlyph(names[0]), a.GetOtherGlyph(names[1]), a.GetOtherGlyph(names[2])];
    assert strokes == Strokes(a.otherMap, a.unknownGlyph, names);
    g := StitchEvs(strokes);
  }

  /** The names and strokes of the stitched glyphs, as `init_alphabets` spells them. */
  lemma StitchedNames()
    ensures STITCHED[0] == ("N", ["col0_up", "col1_down", "col2_up"])
    ensures STITCHED[1] == ("flipped_N", ["col2_up", "col1_down", "col0_up"])
    ensures STITCHED[2] == ("zig", ["row0_right", "row1_left", "row2_right"])
    ensures STITCHED[3] == ("zag", ["row0_left", "row1_right", "row2_left"])
  {
  }

  /** The pairs handed to the second `add_other_glyphs` are the stitched glyphs of `named`. */
  lemma StitchedGlyphsAre(named: map<string, seq<Ev>>, unknown: seq<Ev>, n: seq<Ev>, flippedN: seq<Ev>, zig: seq<Ev>, zag: seq<Ev>)
    requires StrokesFit(named, unknown)
    requires n == StitchSpec(Strokes(named, unknown, STITCHED[0].1))
    requires flippedN == StitchSpec(Strokes(named, unknown, STITCHED[1].1))
    requires zig == StitchSpec(Strokes(named, unknown, STITCHED[2].1))
    requires zag == StitchSpec(Strokes(named, unknown, STITCHED[3].1))
    ensures [("N", n), ("flipped_N", flippedN), ("zig", zig), ("zag", zag)] == StitchedGlyphs(named, unknown)
  {
    StitchedNames();
  }

  /**
   * The `distinguish` part of `init_alphabets`: the default alphabet, the
   * numbered single-motor glyphs, the named movements and the four
   * movements stitched from three strokes each.
   */
  method InitDistinguish() returns (a: Alphabet)
    ensures fresh(a) && a.Valid()
    ensures a.asciiBlock == seq(ASCII_BLOCK_SIZE, _ => DEFAULT_GLYPH)
    ensures a.charMap == map['\n' := DEFAULT_GLYPH]
    ensures a.unknownGlyph == DEFAULT_GLYPH
    ensures Numbered(a.otherMap, 12) && NamedBound(a.otherMap) && StitchedBound(a.otherMap)
  {
    a := new Alphabet.Default();
    var i := 0;
    while i < 12
      invariant 0 <= i <= 12 && a.Valid()
      invariant a.asciiBlock == seq(ASCII_BLOCK_SIZE, _ => DEFAULT_GLYPH)
      invariant a.charMap == map['\n' := DEFAULT_GLYPH]
      invariant a.unknownGlyph == DEFAULT_GLYPH
      invariant a.otherMap == NumberedMap(i)
    {
      a.otherMap := a.otherMap[DecimalString(i) := EqualSpacedEvs([i], 50)];
      i := i + 1;
    }
    NumberedLookup(i);
    NamedStage(a.otherMap, i);
    a.AddOtherGlyphs(NamedGlyphs());
    ghost var named, unknown := a.otherMap, a.unknownGlyph;
    NamedStrokesFit(named, unknown);
    StitchedNames();
    var n := StitchStrokes(a, ["col0_up", "col1_down", "col2_up"]);
    var flippedN := StitchStrokes(a, ["col2_up", "col1_down", "col0_up"]);
    var zig := StitchStrokes(a, ["row0_right", "row1_left", "row2_right"]);
    var zag := StitchStrokes(a, ["row0_left", "row1_right", "row2_left"]);
    var stitched := [("N", n), ("flipped_N", flippedN), ("zig", zig), ("zag", zag)];
    StitchedGlyphsAre(named, unknown, n, flippedN, zig, zag);
    StitchedKeeps(named, unknown, i);
    StitchedAnswers(named, unknown);
    a.AddOtherGlyphs(stitched);
  }

  /** The glyphs of an alphabet whose fields `Alphabet::default` set are all the default glyph. */
  lemma DefaultLookups(a: Alphabet)
    requires a.asciiBlock == seq(ASCII_BLOCK_SIZE, _ => DEFAULT_GLYPH)
    requires a.charMap == map['\n' := DEFAULT_GLYPH]
    requires a.unknownGlyph == DEFAULT_GLYPH
    ensures forall c :: a.GetGlyph(c) == DEFAULT_GLYPH
  {
  }

  /**
   * `init_alphabets`: the registry holds `distinguish` and `alphabet_v1`,
   * which is still the default alphabet.
   */
  method InitAlphabets() returns (alphabets: map<string, Alphabet>)
    ensures alphabets.Keys == {"distinguish", "alphabet_v1"}
    ensures fresh(alphabets["distinguish"]) && fresh(alphabets["alphabet_v1"])
    ensures alphabets["distinguish"] != alphabets["alphabet_v1"]
    ensures alphabets["distinguish"].Valid() && alphabets["alphabet_v1"].Valid()
    ensures forall c :: alphabets["distinguish"].GetGlyph(c) == DEFAULT_GLYPH
    ensures alphabets["distinguish"].unknownGlyph == DEFAULT_GLYPH
    ensures Numbered(alphabets["distinguish"].otherMap, 12)
    ensures NamedBound(alphabets["distinguish"].otherMap)
    ensures StitchedBound(alphabets["distinguish"].otherMap)
    ensures forall c :: alphabets["alphabet_v1"].GetGlyph(c) == DEFAULT_GLYPH
    ensures forall s :: alphabets["alphabet_v1"].GetOtherGlyph(s) == DEFAULT_GLYPH
  {
    var distinguish := InitDistinguish();
    DefaultLookups(distinguish);
    var alphabetV1 := new Alphabet.Default();
    alphabets := map["distinguish" := distinguish, "alphabet_v1" := alphabetV1];
  }
}
