# Glyph timeline engine

A model of the glyph timeline engine of a haptic glove. The engine drives twelve
vibration motors laid out on the palm.

A *glyph* is a sequence of events `(ms_time: u16, ev_type: u8)`:

- tags 0..11 fire one motor;
- tag 12, `EndGlyph`, ends the glyph and carries its length.

The project has three modules:

- `Event` (`event.dfy`): the event type and the tag discriminants. It also holds
  the bytes `queue_events_as_raw` hands to the serial port. That frame is
  `0xC0`, then one `(tag, time high byte, time low byte)` triple per event,
  then `0xC1`. The body is not escaped. A decoder, defined only as a
  specification device, reads the frame back by the fixed width of the triples.
  The frame round-trips even when body bytes equal the delimiters.
- `Timeline` (`timeline.dfy`): `equal_spaced_evs` as a function and
  `stitch_evs` as a method with its two nested loops.
  - `stitch_evs` is proved against a specification function, `StitchSpec`.
  - Lemmas about `StitchSpec` cover: the output shape and length, the empty and
    single-glyph cases, durations adding up, time order being kept, and
    stitching equally spaced glyphs.
- `Alphabets` (`alphabet.dfy`): the `Alphabet` store as a class.
  - Its four fields are a 95-slot block for `' '..='~'`, a character map, a
    name map and the unknown glyph.
  - Lookups fall back to the unknown glyph, so they are total.
  - `init_alphabets` is a method that builds `distinguish` by mutation, in the
    source's order: 12 numbered single-motor glyphs, 20 named movements spaced
    50 ms apart, then four glyphs stitched from three movements each.

The source computes times with `u16` arithmetic. An overflow there panics in
debug builds and wraps in release builds. The model excludes it by an explicit
precondition: `|evs| * space < 65536` for
`equal_spaced_evs`, and `FitsGlyphs` for the running clock of `stitch_evs`.

## Model

| member | source | states |
|---|---|---|
| `Event.Tag` | src/event.rs:17-31 | The discriminant of every variant is below 13, and it is 12 exactly for `EndGlyph`. |
| `Event.FromTag` | src/event.rs:17-31 | A byte names a variant exactly when it is below 13. |
| `Event.TagRoundTrip` | src/event.rs:17-31 | `Go0..Go11` are 0..11 and `EndGlyph` is 12. Tag and variant determine each other. |
| `Event.NewEv` | src/event.rs:39-43 | `Ev::new(t, k)` stores `t` and `k` unchanged. |
| `Event.ToBeBytes` | src/event.rs:48 | `to_be_bytes` gives two bytes, high byte first, that recompose the time. |
| `Event.EvBytes` | src/event.rs:48 | One event becomes three bytes: its tag, then its time big-endian. |
| `Event.Body` | src/event.rs:46-48 | The body of `n` events has `3n` bytes. Event `i`'s tag, `time / 256` and `time % 256` sit at `3i`, `3i+1` and `3i+2`. |
| `Event.RawFrame` | src/event.rs:45-52 | The frame has `3n + 2` bytes. It starts with 0xC0 and ends with 0xC1. Event `i`'s bytes sit at `1+3i`, `2+3i` and `3+3i`. |
| `Event.BodyAppend` | src/event.rs:46-48 | The body of `a ++ b` is the body of `a` followed by the body of `b`. |
| `Event.BodyRoundTrip` | src/event.rs:46-48 | Reading a body back as fixed-width triples recovers exactly the events it encodes. |
| `Event.DecodeBodySound` | src/event.rs:46-48 | Whatever the triple reader accepts is the body of the events it returns. |
| `Event.FrameRoundTrip` | src/event.rs:45-52 | The frame of any event sequence decodes back to that sequence. This includes bodies that contain 0xC0 or 0xC1. |
| `Event.FrameDecodeSound` | src/event.rs:45-52 | A byte string that decodes to `evs` is exactly the frame of `evs`, so the frame is injective. |
| `Event.TwoEventFrame` | src/event.rs:48-51 | The events `(0,3)` and `(30,6)` frame to `C0 03 00 00 06 00 1E C1`. |
| `Event.DelimiterBytesInBody` | src/event.rs:46-52 | An event whose bytes are `C0 C0 C1` frames to five bytes and decodes back to itself. |
| `Timeline.EnumerateSpec` | src/glyphs.rs:131-135 | The `enumerate().map(..)` step numbered from `first` places tag `k` at `(first + k) * space`. |
| `Timeline.EqualSpacedEvs` | src/glyphs.rs:130-137 | For `n` triggers `T`, returns `n + 1` events. Event `i < n` is `(i*s, T[i])` and the last is `(n*s, EndGlyph)`, given no 16-bit overflow. |
| `Timeline.EqualSpacedNonDecreasing` | src/glyphs.rs:130-137 | The timestamps of an equally spaced glyph never decrease. |
| `Timeline.EqualSpacedIsGlyph` | src/glyphs.rs:130-137 | From trigger tags, it builds a well-formed glyph of duration `n * s` for `n` triggers. Well formed means one `EndGlyph`, placed last. |
| `Timeline.EqualSpacedFrameExample` | src/glyphs.rs:130-137 | `equal_spaced_evs([3,6,5,8], 30)` is `(0,3) (30,6) (60,5) (90,8) (120,12)`. Its frame is the 17 bytes `C0 03 00 00 06 00 1E 05 00 3C 08 00 5A 0C 00 78 C1`. |
| `Timeline.StitchStep` | src/glyphs.rs:144-152 | One inner-loop step: an `EndGlyph` is dropped and advances the clock by its time. Any other event is pushed shifted by the clock. |
| `Timeline.TotalEndsFit` | src/glyphs.rs:145-148 | When no step overflows, the final clock (the sum of all `EndGlyph` times) fits in 16 bits. |
| `Timeline.StitchAccIsStitched` | src/glyphs.rs:144-152 | The inner loop run over a glyph appends exactly the glyph's shifted non-`EndGlyph` events to what was pushed before. |
| `Timeline.GlyphsAccIsStitched` | src/glyphs.rs:143-153 | The outer loop appends, glyph after glyph, each glyph's events shifted by the `EndGlyph` times seen before it. |
| `Timeline.StitchEvs` | src/glyphs.rs:139-156 | The nested loops output the stitched events and then one `EndGlyph` at the accumulated clock (`StitchSpec`). |
| `Timeline.StitchedShape` | src/glyphs.rs:144-152 | One glyph contributes every event but its `EndGlyph`s, and no `EndGlyph`. |
| `Timeline.StitchGlyphsShape` | src/glyphs.rs:143-153 | Across all glyphs, the pushed events contain no `EndGlyph`. Their count is the input events minus the input `EndGlyph`s. |
| `Timeline.StitchIsGlyph` | src/glyphs.rs:139-156 | The output is a well-formed glyph of `total - #EndGlyph + 1` events. Its duration is the sum of the input `EndGlyph` times. |
| `Timeline.StitchEmpty` | src/glyphs.rs:139-156 | `stitch_evs([])` is `[(0, EndGlyph)]`. |
| `Timeline.GlyphSuffixStitched` | src/glyphs.rs:144-152 | A well-formed glyph's events from index `k` on, read from clock `t`, are pushed delayed by `t`, except the `EndGlyph`. |
| `Timeline.GlyphStitched` | src/glyphs.rs:144-152 | A well-formed glyph read from clock `t` pushes its body delayed by `t` and advances the clock by its duration. |
| `Timeline.StitchSingle` | src/glyphs.rs:139-156 | `stitch_evs([A])` is `A` for a well-formed glyph `A`. |
| `Timeline.StitchPair` | src/glyphs.rs:139-156 | `stitch_evs([A, B])` is `A`'s body, then `B` delayed by `dur(A)`. It is a glyph of duration `dur(A) + dur(B)`. |
| `Timeline.ChainStitched` | src/glyphs.rs:145-148 | For well-formed glyphs, the running clock sums their durations and never overflows when their delays fit. |
| `Timeline.StitchDurations` | src/glyphs.rs:139-156 | Stitching well-formed glyphs gives a well-formed glyph whose duration is the sum of theirs. |
| `Timeline.StitchGlyphsOrdered` | src/glyphs.rs:143-153 | Read from clock `t`, well-formed glyphs in time order push events in time order, all between `t` and `t` plus the sum of their durations. |
| `Timeline.StitchNonDecreasing` | src/glyphs.rs:139-156 | Stitching well-formed glyphs whose timestamps never decrease gives a glyph whose timestamps never decrease. |
| `Timeline.StitchTwoPulses` | src/glyphs.rs:139-156 | Stitching `equal_spaced_evs(&[0], 50)` and `equal_spaced_evs(&[1], 50)` gives `(0,0) (50,1) (100,12)`. |
| `Timeline.EqualSpacedShifted` | src/glyphs.rs:130-137 | An equally spaced glyph delayed by `k` spacings is its triggers numbered on from `k`. |
| `Timeline.EqualSpacedStitched` | src/glyphs.rs:130-152 | Read from clock `k * s`, an equally spaced glyph pushes its triggers at `(k + i) * s` and advances the clock by one spacing per trigger. |
| `Timeline.EqualSpacedAllStitched` | src/glyphs.rs:130-153 | Read from clock `k * s`, equally spaced glyphs push all their triggers numbered on from `k`. |
| `Timeline.StitchEqualSpaced` | src/glyphs.rs:130-156 | Stitching equally spaced glyphs equals equal-spacing all their triggers at the same spacing. |
| `Alphabets.AsciiIndex` | src/glyphs.rs:40-43 | A printable character's slot is below 95, and `' ' + slot` is the character again. |
| `Alphabets.Alphabet.Default` | src/glyphs.rs:15-27 | Sets up 95 default slots, `'\n'` bound to the default glyph, no names, and the default glyph as unknown glyph. Every lookup then answers `[(0,0),(200,12)]`. |
| `Alphabets.Alphabet.GetGlyph` | src/glyphs.rs:40-47 | A printable character reads its slot. Any other character reads its char-map entry, or else the unknown glyph. |
| `Alphabets.Alphabet.GetOtherGlyph` | src/glyphs.rs:49-53 | Answers the name's entry, or the unknown glyph when the name is not bound. |
| `Alphabets.Alphabet.AddOtherGlyph` | src/glyphs.rs:36-38 | Binds `s` to `g`: `get_other_glyph(s) == g`. Every other name and every character answers as before. |
| `Alphabets.Alphabet.AddOtherGlyphs` | src/glyphs.rs:30-34 | Binds the pairs in order (`BindAll`) and leaves the other fields unchanged. |
| `Alphabets.BindAllUntouched` | src/glyphs.rs:30-38 | A name that no pair binds keeps its old entry, or its absence. |
| `Alphabets.BindAllLast` | src/glyphs.rs:30-38 | A name that pair `i` binds and no later pair rebinds ends up bound to pair `i`'s glyph. |
| `Alphabets.DecimalString` | src/glyphs.rs:165 | `i.to_string()` is a non-empty string of decimal digits. It starts with `0` only for 0, so it has no leading zero. |
| `Alphabets.DecimalRoundTrip` | src/glyphs.rs:165 | The digits read back as the number. |
| `Alphabets.DecimalInjective` | src/glyphs.rs:162-166 | Distinct numbers get distinct names, so the twelve numbered insertions do not overwrite each other. |
| `Alphabets.NamedDistinct` | src/glyphs.rs:167-194 | The twenty movement names are pairwise distinct. |
| `Alphabets.NamedNotDecimal` | src/glyphs.rs:162-194 | No movement name is a number's name. |
| `Alphabets.SingleSpaced` | src/glyphs.rs:165 | `equal_spaced_evs(&[i], 50)` is `[(0,i),(50,12)]`. |
| `Alphabets.StitchThree` | src/glyphs.rs:195-228 | Three equally spaced glyphs stitched together form the equally spaced glyph of all their triggers. |
| `Alphabets.SpacedGlyphs` | src/glyphs.rs:167-194 | Each row of a trigger table becomes its name paired with its `equal_spaced_evs` glyph, in order. |
| `Alphabets.SpacedLookup` | src/glyphs.rs:167-194 | After a table is bound, a row's name that no later row rebinds answers that row's glyph. |
| `Alphabets.NamedFit` | src/glyphs.rs:167-194 | Every movement fits the 16-bit clock at 50 ms spacing. |
| `Alphabets.NamedLookup` | src/glyphs.rs:167-194 | After the movements are bound, movement `k`'s name answers its equally spaced glyph. |
| `Alphabets.NamedKeepsNumbered` | src/glyphs.rs:162-194 | Binding the movements keeps every numbered glyph. |
| `Alphabets.NumberedLookup` | src/glyphs.rs:162-166 | After the numbered loop, the name of each `i < n` answers `[(0,i),(50,12)]`. |
| `Alphabets.NamedStage` | src/glyphs.rs:162-194 | After the first `add_other_glyphs`, the numbered glyphs are intact and every movement answers its glyph. |
| `Alphabets.StitchedGlyphs` | src/glyphs.rs:195-228 | The second batch pairs each stitched name with `stitch_evs` of its three stroke lookups, in order. |
| `Alphabets.StrokesStitched` | src/glyphs.rs:195-228 | Three names bound to equally spaced glyphs stitch into the equally spaced glyph of all their triggers. |
| `Alphabets.StitchedN` | src/glyphs.rs:196-203 | `N` is `col0_up ++ col1_down ++ col2_up`, equally spaced at 50 ms. |
| `Alphabets.StitchedFlippedN` | src/glyphs.rs:204-211 | `flipped_N` is `col2_up ++ col1_down ++ col0_up`, equally spaced at 50 ms. |
| `Alphabets.StitchedZig` | src/glyphs.rs:212-219 | `zig` is `row0_right ++ row1_left ++ row2_right`, equally spaced at 50 ms. |
| `Alphabets.StitchedZag` | src/glyphs.rs:220-227 | `zag` is `row0_left ++ row1_right ++ row2_left`, equally spaced at 50 ms. |
| `Alphabets.NamedStrokesFit` | src/glyphs.rs:195-228 | Once the movements are bound, no stitched glyph overflows the 16-bit clock. |
| `Alphabets.NGlyphSpaced` | src/glyphs.rs:196-203 | `N` has nine triggers at 0, 50, …, 400 (motors 8 4 0 1 5 9 10 6 2) and `EndGlyph` at 450. |
| `Alphabets.StitchedKeeps` | src/glyphs.rs:195-228 | The second `add_other_glyphs` leaves every numbered and movement glyph alone. |
| `Alphabets.StitchedAnswers` | src/glyphs.rs:195-228 | After the second `add_other_glyphs`, the four stitched names answer their concrete glyphs. |
| `Alphabets.StitchStrokes` | src/glyphs.rs:198-202 | Runs `stitch_evs` over the three `get_other_glyph` answers of the alphabet, each falling back to the alphabet's own unknown glyph. It returns the specified stitch of those strokes. |
| `Alphabets.StitchedGlyphsAre` | src/glyphs.rs:195-228 | The four pairs built in `init_alphabets` are the second batch. |
| `Alphabets.InitDistinguish` | src/glyphs.rs:161-229 | `distinguish` keeps the default block, char map and unknown glyph. Names `"0"`..`"11"` answer `[(0,i),(50,12)]`. Every movement answers its equally spaced glyph. `N`, `flipped_N`, `zig` and `zag` answer their stitched glyphs. |
| `Alphabets.DefaultLookups` | src/glyphs.rs:15-47 | With the fields `Alphabet::default` sets, every character answers the default glyph. |
| `Alphabets.InitAlphabets` | src/glyphs.rs:158-236 | The registry holds exactly `distinguish` and `alphabet_v1` as two fresh alphabets. `distinguish` answers as above. `alphabet_v1` answers the default glyph for every character and name. |

## Left out

- The `tty.write_all` call (src/event.rs:53): the model stops at the byte sequence handed to it. All of src/main.rs (command line, prompts, logging, shuffling, sleeping, serial port) is left out as I/O.
- `println_glyph`, `ch_to_lin`, `lin_to_ch` and `color_interpolate` (src/glyphs.rs:56-128): terminal rendering with `f32` colour math.
- `Timeline.EqualSpacedEvs`: does not model overflow of `i as u16 * space_ms`, which panics in debug builds and wraps in release builds. Its absence is a precondition, because the source does not intend it.
- `Timeline.StitchEvs`: does not model overflow of `time + ev.ms_time`, which panics in debug builds and wraps in release builds. Its absence is the precondition `FitsGlyphs`.
- `Alphabets.InitDistinguish`: states what every name the source binds answers. It does not state the exact key set of the name map.
- `Alphabets.InitAlphabets`: states the same lookups for `distinguish`, not its exact key set.
- `HashMap` is a Dafny `map`. Hashing and iteration order play no part in the source's behaviour.
- Bytes are the subset type `Uint8` (`0..255`), not a bit-vector.
- `&str` and `String` are both `string`. Ownership, `to_owned` copies and the borrowed slices returned by the lookups are not modelled; lookups return values.
- `ev_type` stays a raw `u8`, as in the source; `EvType` and its tags are modelled separately.
- `DecodeBody` and `DecodeFrame` are specification devices for the round-trip lemmas; the source has no frame parser. `FromTag`, `IsGlyph` and `Duration` are specification devices too. The source has no conversion from `u8` to `EvType`, no glyph well-formedness check and no duration helper.
- `alphabet_v1` is a TODO in the source and stays the default alphabet here.
