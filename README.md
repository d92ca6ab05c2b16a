# font-kit FreeType loader, modelled in Dafny

This is a model of the core of font-kit's FreeType loader
(`src/loaders/freetype.rs`), together with proofs about it. It covers:

- **Glyph outline decoding** (`Font::outline` and its nested `get_point`).
  FreeType exposes a glyph as three parallel arrays: contour end indices,
  26.6 fixed-point positions and tag bytes. The decoder walks these with one
  running index and drives a path builder with `move_to`, `line_to`,
  `quadratic_bezier_to`, `cubic_bezier_to` and `close`. `Outline.Outline` is
  an imperative method with the source's `for` and `while` loops. It is
  proved equal to the recursive specification `Outline.Decode`, and
  `OutlineFacts` proves the shape of what `Decode` produces.
- **Full-name lookup** (`get_type_1_or_sfnt_name`). The Type 1 dictionary
  value comes first. After it comes the first sfnt `name` record with the
  requested Name ID whose bytes decode as UTF-16BE. If neither gives a name,
  `descriptor` falls back to the family name. The method with the source's
  loops is proved equal to a specification, and lemmas characterise that
  specification's first-match behaviour. The UTF-16BE, UTF-16 and UTF-8
  decodings each come with an encoder, and both round trips are proved.
- **Face-wide derivations.** These are `metrics`, `typographic_bounds`,
  `descriptor` (flags, stretch, weight, names, and its panics in
  evaluation order), the `analyze_bytes`/`analyze_file` type mapping, the
  26.6 conversion `ft_fixed_26_6_to_f32`, and the character size that
  `setup_freetype_face` sets (`units_per_EM << 6`). That character size is
  why coordinates come out in design units.

Modelling conventions:

- FreeType is foreign code. What its calls return is an input to the model:
  a `Glyph`, a `NativeFace`, a `PsValue`, a sequence of `NameRecord`s, and a
  `Probe`.
- Rust panics are explicit outcomes: a `Fault`, `FaceFault` or
  `OddLengthRecord`. These come from a failed `assert!`, an out-of-bounds
  slice index, an `unwrap` on an error, or an index into
  `FONT_STRETCH_MAPPING` outside the table.
- Dereferencing a missing OS/2 table is also modelled as a fault
  (`MissingOs2`).
- `outline` returns `Ok(())` whenever it returns at all. The model therefore
  returns the emitted commands and an optional fault.
- Contour ends are C shorts cast `as usize`, so a negative end becomes an
  index near 2^64 (`Outline.ContourEnd`).
- `i16` arithmetic in `metrics` wraps as in a release build (`Base.Wrap16`).
  Rust's `/` truncates toward zero (`Base.HalfTowardZero`).
- 26.6 values are exact reals `x / 64`. The outline commands carry the raw
  26.6 positions; `Fixed.ToReal` is the per-coordinate conversion
  `get_point` applies.
- Every other integer converted to `f32` in the source is at most 16 bits
  wide, so those conversions are exact and the model keeps them as integers.

Modules: `Base` (shared types), `Fixed` (26.6 values and the character
size), `Outline` and `OutlineFacts` (the decoder and its properties),
`Unicode` (text decodings), `Names` (the name lookup) and `Face` (the face
queries).

## Model

| member | source | states |
|---|---|---|
| Outline.GetPoint | src/loaders/freetype.rs:277-289 | Succeeds exactly when the index is at most the contour's last index and inside the point arrays. On success it returns that point's position and tag and advances the index by exactly one; on failure the index is unchanged and the fault names the failed assertion or the out-of-range read. |
| Outline.ContourEnd | src/loaders/freetype.rs:243 | The `usize` contour end is congruent to the `i16` value modulo 2^64 and below 2^64. It equals the value when that is non-negative. |
| Outline.Segment | src/loaders/freetype.rs:250-270 | Succeeds exactly when all the points the tag needs (1 on-curve, 2 quadratic, 3 cubic) lie at or before the contour's last index and inside the arrays. The command it builds hands exactly those points to the builder, in order. It is a line iff the tag is on-curve, and a cubic iff the tag is off-curve with the cubic bit set. |
| Outline.ReadSegment | src/loaders/freetype.rs:250-270 | The inner loop's body, made of successive `get_point` calls, produces exactly `Segment`'s command, next index or fault. |
| Outline.Body | src/loaders/freetype.rs:249-271 | The inner loop only emits segments. It never moves the index past the contour's last index + 1 or past the points. Without a panic it ends exactly at last index + 1. |
| Outline.Outline | src/loaders/freetype.rs:226-275 | The imperative decoder emits exactly the commands of the specification `Decode` and stops with the same fault. |
| OutlineFacts.DecodeShape | src/loaders/freetype.rs:241-273 | When decoding does not panic, the output has exactly one `MoveTo` and one `Close` per contour, grouped contour by contour. The points are used in order, each exactly once, up to one past the last contour's end. Contour ends strictly increase, so no contour uses another's points. |
| OutlineFacts.ContoursGrouped | src/loaders/freetype.rs:242-273 | From any contour on, without a panic, `Close` and `MoveTo` counts equal the number of remaining contours, and every `MoveTo` directly follows a `Close`. |
| OutlineFacts.ContoursEnds | src/loaders/freetype.rs:241-272 | A shared running index that ends one past the last contour's end, with each contour starting at or before its own end. |
| OutlineFacts.ContoursAnchors | src/loaders/freetype.rs:241-272 | The points handed to the path builder are exactly the points from the starting index up to the final index, in order. |
| OutlineFacts.BodyAnchors | src/loaders/freetype.rs:249-271 | One contour's segments consume exactly the points from the index after its first point through its last index. |
| OutlineFacts.ContoursStep | src/loaders/freetype.rs:242-272 | A contour that decodes without a panic emits `MoveTo` of its first point, its segments, then `Close`, and hands the index (last index + 1) on to the next contour. |
| OutlineFacts.FirstPointMoves | src/loaders/freetype.rs:244-248 | A contour opens with `MoveTo` of its first point, whatever that point's tag. |
| OutlineFacts.OffCurveAtContourEndPanics | src/loaders/freetype.rs:257-265 | An off-curve point at a contour's last index panics. It does not borrow the next contour's point, even when one exists. |
| OutlineFacts.QuadraticContour | src/loaders/freetype.rs:254-269 | [on, off, on] decodes to move, quadratic curve, close. |
| OutlineFacts.CubicContour | src/loaders/freetype.rs:254-269 | [on, cubic, cubic, on] decodes to move, cubic curve, close. |
| OutlineFacts.RectangleContour | src/loaders/freetype.rs:254-256 | Four on-curve points decode to move, three lines, close. |
| OutlineFacts.NoBorrowingAcrossContours | src/loaders/freetype.rs:257-265 | Contours [on, off] and [on] panic after the first `MoveTo`, at index 2 against last index 1. |
| OutlineFacts.ContourEndBeyondPoints | src/loaders/freetype.rs:283-284 | A contour end past the points panics on the out-of-range read after emitting what it could. |
| OutlineFacts.NegativeContourEnd | src/loaders/freetype.rs:243 | A contour end of -1 runs the contour on until the point arrays end, then panics on the read past them. |
| Fixed.ToReal | src/loaders/freetype.rs:522-524 | The converted value times 64 is the 26.6 value. A whole multiple of 64 converts to that integer. |
| Fixed.FromReal | src/loaders/freetype.rs:522-524 | The inverse conversion gives the 26.6 value nearest the real, within 1/128. |
| Fixed.RoundTrip | src/loaders/freetype.rs:522-524 | Converting a 26.6 value to a real and back gives the same value. |
| Fixed.CharSize | src/loaders/freetype.rs:508-510 | `units_per_EM << 6` fits in an `i64`, is a whole number of 26.6 points, and equals units-per-em in whole points. |
| Fixed.ScaledIsDesignUnits | src/loaders/freetype.rs:509 | With that character size, a design-unit coordinate `d` is scaled to the 26.6 value `d * 64`, which converts back to exactly `d`. |
| Base.Wrap16 | src/loaders/freetype.rs:333-334 | The `i16` result is congruent to the exact result modulo 2^16, and equal to it when it fits. |
| Base.HalfTowardZero | src/loaders/freetype.rs:334 | `a / 2` truncates toward zero. The remainder is 0 or 1 for non-negative `a`, and 0 or -1 for negative `a`. |
| Unicode.BigEndianUnits | src/loaders/freetype.rs:378-383 | An even-length byte string of length 2k gives k units. Unit i is `bytes[2i] * 256 + bytes[2i+1]`. |
| Unicode.UnitsRoundTrip | src/loaders/freetype.rs:378-383 | Reading back the big-endian bytes of any units gives the units. |
| Unicode.BytesRoundTrip | src/loaders/freetype.rs:378-383 | Writing out the units read from an even-length byte string gives the bytes. |
| Unicode.Utf16RoundTrip | src/loaders/freetype.rs:385 | Decoding the UTF-16 encoding of any string gives the string. |
| Unicode.Utf16DecodeExact | src/loaders/freetype.rs:385 | When UTF-16 decoding succeeds, the input is exactly the encoding of the result. |
| Unicode.Utf8RoundTrip | src/loaders/freetype.rs:364 | Decoding the UTF-8 encoding of any string gives the string. |
| Unicode.Utf8DecodeExact | src/loaders/freetype.rs:364 | When UTF-8 decoding succeeds, the input is exactly the encoding of the result. Overlong forms, surrogates and values above 0x10FFFF are rejected. |
| Names.ReadUnits | src/loaders/freetype.rs:378-383 | The `read_u16` loop fails (the `unwrap` panics) exactly when the byte count is odd. Otherwise it yields the big-endian units. |
| Names.GetType1OrSfntName | src/loaders/freetype.rs:350-392 | The method with the source's loops returns exactly the specification `LookupName`. That is the fetched Type 1 value decoded as UTF-8, else the sfnt loop's result. |
| Names.SfntNameFound | src/loaders/freetype.rs:368-391 | The loop returns a name `s` iff some record with the Name ID decodes to `s` and every earlier record has another ID or is even-length but not valid UTF-16. |
| Names.SfntNameAbsent | src/loaders/freetype.rs:368-391 | The loop returns no name iff every record has another ID or is even-length and not UTF-16. |
| Names.SfntNamePanics | src/loaders/freetype.rs:368-391 | The loop panics at record k iff record k has the Name ID and an odd byte count, and every earlier record is passed over. |
| Names.OtherIdsIgnored | src/loaders/freetype.rs:374-376 | A record with another Name ID changes nothing but the index a panic names. |
| Face.FaceMetrics | src/loaders/freetype.rs:322-340 | Fails exactly when the OS/2 table is missing. Units-per-em, ascent, descent, underline thickness, cap height and x-height are copied unchanged. The line gap and underline position are `i16` values. Ascent − descent + line gap matches the height modulo 2^16, and the underline position matches FreeType's position plus half the thickness (truncated toward zero) modulo 2^16. |
| Face.LineSpacingIsHeight | src/loaders/freetype.rs:333 | When the `i16` line gap does not overflow, ascent − descent + line gap equals the face's height. |
| Face.UnderlineShiftedByHalfThickness | src/loaders/freetype.rs:334 | When it does not overflow, the underline position moves by half the thickness, truncated toward zero. |
| Face.TypographicBounds | src/loaders/freetype.rs:292-304 | The left edge is the horizontal bearing. The top edge is the vertical bearing. Width and height are the glyph's. All are 26.6 values divided by 64. |
| Face.BoundsInDesignUnits | src/loaders/freetype.rs:299-302 | Under the character size `setup_freetype_face` sets, a glyph's bounds come out as its design-unit box. |
| Face.Stretch | src/loaders/freetype.rs:213 | The stretch lookup succeeds exactly for width classes 1 to 9, giving a factor from 0.5 to 2.0. Otherwise it panics, naming the class. |
| Face.StretchIncreasing | src/loaders/freetype.rs:213 | Wider classes map to larger factors, and class 5 (medium) maps to 1.0. |
| Face.FlagsRoundTrip | src/loaders/freetype.rs:200-206 | `FaceFlags`, the descriptor's flag reading, takes each flag from exactly its own FreeType bit (italic from `style_flags` bit 0, monospace and vertical from `face_flags` bits 2 and 5). Flags written as flag words read back unchanged, and other bits never change them. |
| Face.DisplayName | src/loaders/freetype.rs:195-197 | A found name is the display name. No name falls back to the family name. A lookup panic propagates. |
| Face.DescriptorBuilt | src/loaders/freetype.rs:185-218 | `FaceDescriptor` (`Font::descriptor`) builds a descriptor iff the three names are UTF-8, the full-name lookup does not panic, and the OS/2 table exists with width class 1 to 9. It then holds the decoded names, the looked-up or family display name, the mapped stretch, the weight class, and the flags `FaceFlags` reads from the face's flag words. |
| Face.DisplayNameFromType1 | src/loaders/freetype.rs:357-365 | A present, fetched Type 1 full name decides the display name: its UTF-8 decoding, or the family name when it is not UTF-8. The `name` table is never read, so any other table gives the same descriptor. |
| Face.Type1NotUtf8HidesNameTable | src/loaders/freetype.rs:357-365 | A fetched Type 1 value 0xFF (not UTF-8) makes the lookup return no name, even though the `name` table holds a full-name record that decodes to "A". |
| Face.DisplayNameFromNameTable | src/loaders/freetype.rs:195-197 | With no usable Type 1 value, the display name is the first full-name record that decodes as UTF-16BE. |
| Face.DisplayNameFallsBackToFamily | src/loaders/freetype.rs:195-197 | With no usable Type 1 value and no decodable full-name record, the display name is the family name. |
| Face.TruncateU32 | src/loaders/freetype.rs:152 | `num_faces as u32` keeps the value modulo 2^32, and is the value itself when it fits. |
| Face.AnalyzeBytes | src/loaders/freetype.rs:139-158 | Unsupported exactly when FreeType fails to open the face. Single exactly when it opens with one face. Otherwise a collection whose count is the face count when that fits in 32 bits. |
| Face.AnalyzeFile | src/loaders/freetype.rs:160-183 | A file that cannot be memory-mapped is Unsupported. |
| Face.AnalyzeFileAgrees | src/loaders/freetype.rs:160-183 | A file that maps is classified exactly as its bytes are. |
| Face.CollectionCountWraps | src/loaders/freetype.rs:150-153 | A face count of 0 gives a collection of 0. A face count of 2^32 + 1 gives a collection of 1. |

## Left out

- The FreeType calls themselves are foreign code, and their results are inputs. These calls are FT_New_Memory_Face, FT_Load_Glyph, FT_Set_Char_Size, FT_Get_Sfnt_Name(_Count), FT_Get_PS_Font_Value, FT_Get_Postscript_Name, FT_Get_Sfnt_Table and FT_Get_Char_Index. The `assert_eq!(…, 0)` checks on them are not modelled, and each such call is taken to succeed.
- `FT_Get_PS_Font_Value`'s return convention is not modelled. `PsValue` records what the two calls return and does not say what FreeType means by it. The source treats a result of 0 from the fetching call as success.
- The thread-local FreeType library (`FREETYPE_LIBRARY`) is ambient global state plus a foreign initialisation.
- `Clone` and `Drop` only forward to FreeType's reference count.
- `from_bytes`, `from_file`, `from_native_font` and `from_core_text_font` are not modelled. They are face construction, memory mapping, a chunked copy driven by a foreign stream callback, and a platform API.
- `from_bytes`'s `Result` is never `Err`: a face FreeType cannot open fails the `assert_eq!` on FT_New_Memory_Face and panics.
- `glyph_for_char` always returns `Some`, with FreeType's glyph index 0 for a missing character. It is a single foreign call and is not modelled.
- `advance` and `origin` are not modelled. `advance` is one foreign call plus `ToReal`; `origin` is a constant zero point.
- The `Face` trait delegations, `Debug`, `FontData`'s `Deref` and `font_data` are trivial wrappers.
- `f32` rounding is not modelled. `Fixed.ToReal` is exact, and a 26.6 value too wide for `f32`'s 24-bit mantissa is rounded by the source but not by the model.
- Base.Wrap16: models release builds. A debug build panics on `i16` overflow in `metrics` instead of wrapping.
- Face.TypographicBounds: `horiBearingY - height` is exact. The source's `i64` subtraction could overflow only for values FreeType never produces.
- `FONT_STRETCH_MAPPING` is defined in `src/descriptor.rs`, which is not part of this model. `Face.StretchMapping` uses the OpenType `usWidthClass` percentages (50% to 200%) as factors, and descriptor flags are three booleans rather than that file's bit set.
- Face.DescriptorBuilt: a null PostScript, family or style name pointer is undefined behaviour in the source. The model takes the names as byte strings, so this case does not arise.
- Outline.Outline: slice lengths come from `n_contours` and `n_points`. A negative count cast `as usize` is undefined behaviour in the source, and the model takes the arrays as given.
