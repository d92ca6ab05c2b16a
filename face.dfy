/** The FreeType loader's face-level queries: `Font::metrics`,
    `Font::typographic_bounds`, `Font::descriptor` and the font-type probes
    `Font::analyze_bytes` / `Font::analyze_file`.

    A loaded face is read, never changed, by these queries, so it is a
    value: the fields of FreeType's FT_FaceRec, its OS/2 table (if the font
    has one), and what the name lookups return. Every integer read here is
    at most 16 bits wide, so the source's conversions to `f32` are exact and
    the results are kept as integers. */
module Face {
  import opened Base
  import opened Unicode
  import opened Fixed
  import opened Names

  /** FT_STYLE_FLAG_ITALIC: bit 0 of `style_flags`. */
  const StyleFlagItalic: bv64 := 0x1
  /** FT_FACE_FLAG_FIXED_WIDTH: bit 2 of `face_flags`. */
  const FaceFlagFixedWidth: bv64 := 0x4
  /** FT_FACE_FLAG_VERTICAL: bit 5 of `face_flags`. */
  const FaceFlagVertical: bv64 := 0x20

  /** The fields of the OS/2 table the loader reads. */
  datatype Os2 = Os2(usWidthClass: u16, usWeightClass: u16, sCapHeight: i16, sxHeight: i16)

  /** A loaded face as the queries see it. The three names are the bytes of
      the C strings FreeType returns, without their terminating NUL;
      `fullName` and `names` are what the Type 1 dictionary and the sfnt
      `name` table give the full-name lookup. */
  datatype NativeFace = NativeFace(
    postscriptName: seq<byte>,
    familyName: seq<byte>,
    styleName: seq<byte>,
    fullName: PsValue,
    names: seq<NameRecord>,
    styleFlags: bv64,
    faceFlags: bv64,
    unitsPerEm: u16,
    ascender: i16,
    descender: i16,
    height: i16,
    underlinePosition: i16,
    underlineThickness: i16,
    os2: Option<Os2>)

  /** Why a query panics (or, for a missing OS/2 table, dereferences null). */
  datatype FaceFault =
    | PostScriptNameNotUtf8
    | FamilyNameNotUtf8
    | StyleNameNotUtf8
    | OddLengthName(record: nat)
    | MissingOs2
    | WidthClassOutOfRange(widthClass: u16)

  // ---------------------------------------------------------------------
  // Metrics

  /** font-kit's `Metrics`, in font design units. */
  datatype Metrics = Metrics(
    unitsPerEm: int,
    ascent: int,
    descent: int,
    lineGap: int,
    underlinePosition: int,
    underlineThickness: int,
    capHeight: int,
    xHeight: int)

  /** `Font::metrics`. The line gap and the underline position are computed
      in `i16` arithmetic, which wraps on overflow. */
  function FaceMetrics(face: NativeFace): (r: Result<Metrics, FaceFault>)
    ensures r.Ok? <==> face.os2.Some?
    ensures r.Err? ==> r.error == MissingOs2
    ensures r.Ok? ==> (r.value.ascent - r.value.descent + r.value.lineGap - face.height as int) % 0x1_0000 == 0
    ensures r.Ok? ==> (r.value.underlinePosition - face.underlinePosition as int -
                       HalfTowardZero(face.underlineThickness as int)) % 0x1_0000 == 0
    ensures r.Ok? ==> -0x8000 <= r.value.lineGap < 0x8000 && -0x8000 <= r.value.underlinePosition < 0x8000
    ensures r.Ok? ==> r.value.unitsPerEm == face.unitsPerEm as int &&
                      r.value.ascent == face.ascender as int && r.value.descent == face.descender as int &&
                      r.value.underlineThickness == face.underlineThickness as int
    ensures r.Ok? ==> r.value.capHeight == face.os2.value.sCapHeight as int &&
                      r.value.xHeight == face.os2.value.sxHeight as int
  {
    match face.os2
    case None => Err(MissingOs2)
    case Some(os2) =>
      Ok(Metrics(
        face.unitsPerEm as int,
        face.ascender as int,
        face.descender as int,
        Wrap16(face.height as int + face.descender as int - face.ascender as int) as int,
        Wrap16(face.underlinePosition as int + HalfTowardZero(face.underlineThickness as int)) as int,
        face.underlineThickness as int,
        os2.sCapHeight as int,
        os2.sxHeight as int))
  }

  /** Ascent above the baseline, descent below it and the line gap add up
      to the face's line height, unless the `i16` line gap overflowed. */
  lemma LineSpacingIsHeight(face: NativeFace)
    requires face.os2.Some?
    requires -0x8000 <= face.height as int + face.descender as int - face.ascender as int < 0x8000
    ensures var m := FaceMetrics(face).value;
            m.ascent - m.descent + m.lineGap == face.height as int
  {
    var m := FaceMetrics(face).value;
    assert m.lineGap == face.height as int + face.descender as int - face.ascender as int;
  }

  /** The reported underline position lies half the thickness (truncated
      toward zero) past FreeType's, i.e. twice the shift is the thickness
      to within one unit, on the thickness's side. */
  lemma UnderlineShiftedByHalfThickness(face: NativeFace)
    requires face.os2.Some?
    requires -0x8000 <= face.underlinePosition as int + HalfTowardZero(face.underlineThickness as int) < 0x8000
    ensures var shift := FaceMetrics(face).value.underlinePosition - face.underlinePosition as int;
            var t := face.underlineThickness as int;
            (t >= 0 ==> 0 <= t - 2 * shift <= 1) && (t < 0 ==> -1 <= t - 2 * shift <= 0)
  {
    var t := face.underlineThickness as int;
    assert FaceMetrics(face).value.underlinePosition == face.underlinePosition as int + HalfTowardZero(t);
  }

  // ---------------------------------------------------------------------
  // Typographic bounds

  /** The FT_Glyph_Metrics fields the bounds use, in 26.6 units. */
  datatype GlyphMetrics = GlyphMetrics(horiBearingX: int, horiBearingY: int, width: int, height: int)

  /** A rectangle by its lower-left corner and its size. */
  datatype Rect = Rect(x: real, y: real, width: real, height: real)

  /** `Font::typographic_bounds`: the glyph's bounding box with y pointing
      up, so its origin is the bottom-left corner. */
  function TypographicBounds(m: GlyphMetrics): (r: Rect)
    ensures r.x * 64.0 == m.horiBearingX as real
    ensures (r.y + r.height) * 64.0 == m.horiBearingY as real
    ensures (r.x + r.width) * 64.0 == (m.horiBearingX + m.width) as real
    ensures r.height * 64.0 == m.height as real && r.width * 64.0 == m.width as real
  {
    Rect(ToReal(m.horiBearingX), ToReal(m.horiBearingY - m.height), ToReal(m.width), ToReal(m.height))
  }

  /** With the character size `setup_freetype_face` sets, a glyph whose
      design-unit box has left bearing `bx`, top bearing `top`, width `w` and
      height `h` gets exactly that box back, in design units. */
  lemma BoundsInDesignUnits(unitsPerEm: u16, bx: int, top: int, w: int, h: int)
    requires unitsPerEm > 0
    ensures var m := GlyphMetrics(Scaled(bx, unitsPerEm), Scaled(top, unitsPerEm),
                                  Scaled(w, unitsPerEm), Scaled(h, unitsPerEm));
            TypographicBounds(m) == Rect(bx as real, (top - h) as real, w as real, h as real)
  {
    ScaledIsDesignUnits(bx, unitsPerEm);
    ScaledIsDesignUnits(top, unitsPerEm);
    ScaledIsDesignUnits(w, unitsPerEm);
    ScaledIsDesignUnits(h, unitsPerEm);
    assert (top - h) * One == top * One - h * One;
  }

  // ---------------------------------------------------------------------
  // Descriptor

  /** font-kit's descriptor `Flags`. */
  datatype Flags = Flags(italic: bool, monospace: bool, vertical: bool)

  /** font-kit's `Descriptor`. */
  datatype Descriptor = Descriptor(
    postscriptName: string,
    displayName: string,
    familyName: string,
    styleName: string,
    stretch: real,
    weight: real,
    flags: Flags)

  /** `FONT_STRETCH_MAPPING`, the stretch factor of OS/2 width classes 1
      (ultra-condensed, 50%) to 9 (ultra-expanded, 200%). */
  const StretchMapping: seq<real> := [0.5, 0.625, 0.75, 0.875, 1.0, 1.125, 1.25, 1.5, 2.0]

  /** `FONT_STRETCH_MAPPING[usWidthClass as usize - 1]`: width class 0 makes
      the subtraction underflow and classes above 9 index past the table;
      either way the source panics. */
  function Stretch(widthClass: u16): (r: Result<real, FaceFault>)
    ensures r.Ok? <==> 1 <= widthClass <= 9
    ensures r.Err? ==> r.error == WidthClassOutOfRange(widthClass)
    ensures r.Ok? ==> 0.5 <= r.value <= 2.0
  {
    if widthClass == 0 || widthClass as int - 1 >= |StretchMapping| then Err(WidthClassOutOfRange(widthClass))
    else Ok(StretchMapping[widthClass as int - 1])
  }

  /** Wider classes stretch more, and the medium class 5 is the identity. */
  lemma StretchIncreasing(a: u16, b: u16)
    requires 1 <= a < b <= 9
    ensures Stretch(a).value < Stretch(b).value
    ensures Stretch(5) == Ok(1.0)
  {
  }

  /** The flags of a face, from its style and face flag words. */
  function FaceFlags(styleFlags: bv64, faceFlags: bv64): Flags {
    Flags(styleFlags & StyleFlagItalic != 0,
          faceFlags & FaceFlagFixedWidth != 0,
          faceFlags & FaceFlagVertical != 0)
  }

  /** The smallest flag words that carry `f`. */
  function FlagWords(f: Flags): (bv64, bv64) {
    ((if f.italic then StyleFlagItalic else 0),
     (if f.monospace then FaceFlagFixedWidth else 0) | (if f.vertical then FaceFlagVertical else 0))
  }

  /** Each descriptor flag reads exactly its own FreeType bit: encoding
      flags as flag words and reading them back gives the flags, and bits
      other than the three never change them. */
  lemma FlagsRoundTrip(f: Flags, style: bv64, face: bv64)
    ensures FaceFlags(FlagWords(f).0, FlagWords(f).1) == f
    ensures FaceFlags(style, face) ==
            FaceFlags(style & StyleFlagItalic, face & (FaceFlagFixedWidth | FaceFlagVertical))
  {
  }

  /** `unwrap_or_else(|| family_name.clone())` on the full-name lookup. */
  function DisplayName(lookup: Lookup, family: string): (r: Result<string, FaceFault>)
    ensures lookup.Returned? <==> r.Ok?
    ensures lookup.OddLengthRecord? ==> r == Err(OddLengthName(lookup.record))
    ensures lookup.Returned? && lookup.name.Some? ==> r.value == lookup.name.value
    ensures lookup == Returned(None) ==> r.value == family
  {
    match lookup
    case OddLengthRecord(k) => Err(OddLengthName(k))
    case Returned(None) => Ok(family)
    case Returned(Some(s)) => Ok(s)
  }

  /** `Font::descriptor`. Faults are raised in the order the source
      evaluates: the three C-string names, the full-name lookup, then the
      OS/2 table and its width class. */
  function FaceDescriptor(face: NativeFace): Result<Descriptor, FaceFault> {
    match Utf8Decode(face.postscriptName)
    case None => Err(PostScriptNameNotUtf8)
    case Some(postscript) =>
      match Utf8Decode(face.familyName)
      case None => Err(FamilyNameNotUtf8)
      case Some(family) =>
        match Utf8Decode(face.styleName)
        case None => Err(StyleNameNotUtf8)
        case Some(style) =>
          match DisplayName(LookupName(face.fullName, face.names, TtNameIdFullName), family)
          case Err(e) => Err(e)
          case Ok(display) =>
            match face.os2
            case None => Err(MissingOs2)
            case Some(os2) =>
              match Stretch(os2.usWidthClass)
              case Err(e) => Err(e)
              case Ok(stretch) =>
                Ok(Descriptor(postscript, display, family, style, stretch,
                              os2.usWeightClass as real, FaceFlags(face.styleFlags, face.faceFlags)))
  }

  /** A descriptor is built exactly when all three names are UTF-8, the
      full-name lookup does not panic, the face has an OS/2 table and its
      width class is 1 to 9; it then carries the decoded names, the
      looked-up (or family) display name, the mapped stretch, the weight
      class and the flags read from the face's flag words. */
  lemma DescriptorBuilt(face: NativeFace)
    ensures FaceDescriptor(face).Ok? <==>
            && Utf8Decode(face.postscriptName).Some?
            && Utf8Decode(face.familyName).Some?
            && Utf8Decode(face.styleName).Some?
            && LookupName(face.fullName, face.names, TtNameIdFullName).Returned?
            && face.os2.Some?
            && 1 <= face.os2.value.usWidthClass <= 9
    ensures FaceDescriptor(face).Ok? ==>
            var d := FaceDescriptor(face).value;
            var lookup := LookupName(face.fullName, face.names, TtNameIdFullName);
            && Utf8Encode(d.postscriptName) == face.postscriptName
            && Utf8Encode(d.familyName) == face.familyName
            && Utf8Encode(d.styleName) == face.styleName
            && d.displayName == (if lookup.name.Some? then lookup.name.value else d.familyName)
            && d.stretch == StretchMapping[face.os2.value.usWidthClass as int - 1]
            && d.weight == face.os2.value.usWeightClass as real
            && d.flags == FaceFlags(face.styleFlags, face.faceFlags)
  {
    if FaceDescriptor(face).Ok? {
      var d := FaceDescriptor(face).value;
      Utf8DecodeExact(face.postscriptName, d.postscriptName);
      Utf8DecodeExact(face.familyName, d.familyName);
      Utf8DecodeExact(face.styleName, d.styleName);
    }
  }

  /** A Type 1 full name that is present and fetched decides the display
      name: its UTF-8 decoding, or the family name when it is not UTF-8.
      The `name` table is not consulted: any other table gives the same
      descriptor. */
  lemma DisplayNameFromType1(face: NativeFace, otherNames: seq<NameRecord>)
    requires face.fullName.size > 0 && face.fullName.fetched.Some?
    requires FaceDescriptor(face).Ok?
    ensures var d := FaceDescriptor(face).value;
            var decoded := Utf8Decode(face.fullName.fetched.value);
            d.displayName == (if decoded.Some? then decoded.value else d.familyName)
    ensures FaceDescriptor(face.(names := otherNames)) == FaceDescriptor(face)
  {
  }

  /** A fetched Type 1 full name that is not UTF-8 hides a valid `name`
      table full name: the lookup gives no name at all. */
  lemma Type1NotUtf8HidesNameTable()
    ensures LookupName(PsValue(1, Some([0xFF])), [NameRecord(TtNameIdFullName, [0, 0x41])], TtNameIdFullName)
            == Returned(None)
    ensures SfntName([NameRecord(TtNameIdFullName, [0, 0x41])], TtNameIdFullName, 0) == Returned(Some("A"))
  {
    var bad: seq<byte> := [0xFF];
    assert Utf8Decode(bad) == None by {
      assert DecodeScalar(bad) == None;
    }
    var records := [NameRecord(TtNameIdFullName, [0, 0x41])];
    assert Utf16Decode(BigEndianUnits(records[0].bytes)) == Some("A") by {
      LetterAUnits(records[0].bytes);
    }
  }

  /** The UTF-16BE bytes 00 41 decode to "A". */
  lemma LetterAUnits(bytes: seq<byte>)
    requires bytes == [0, 0x41]
    ensures Utf16Decode(BigEndianUnits(bytes)) == Some("A")
  {
    var units := BigEndianUnits(bytes);
    assert units == [0x41] by {
      assert units[0] as int == 0x41;
    }
    var tail := units[1..];
    assert Utf16Decode(tail) == Some([]) by {
      assert tail == [];
    }
    assert units[0] as int as char == 'A';
    var a: string := ['A'];
    assert a + [] == a;
    assert Utf16Decode(units) == Some(a);
  }

  /** With no usable Type 1 full name, the display name is the first `name`
      table full name that decodes as UTF-16BE, provided every record
      before it has another Name ID or an even-length string that is not
      valid UTF-16. */
  lemma DisplayNameFromNameTable(face: NativeFace, k: nat, s: string)
    requires face.fullName.size <= 0 || face.fullName.fetched.None?
    requires k < |face.names| && Yields(face.names[k], TtNameIdFullName, s)
    requires forall j | 0 <= j < k :: Skipped(face.names[j], TtNameIdFullName)
    requires FaceDescriptor(face).Ok?
    ensures FaceDescriptor(face).value.displayName == s
  {
    SfntNameFound(face.names, TtNameIdFullName, 0, s);
  }

  /** With no Type 1 full name and no decodable full-name record, the
      display name falls back to the family name. */
  lemma DisplayNameFallsBackToFamily(face: NativeFace)
    requires face.fullName.size <= 0 || face.fullName.fetched.None?
    requires forall j | 0 <= j < |face.names| :: Skipped(face.names[j], TtNameIdFullName)
    requires FaceDescriptor(face).Ok?
    ensures FaceDescriptor(face).value.displayName == FaceDescriptor(face).value.familyName
  {
    SfntNameAbsent(face.names, TtNameIdFullName, 0);
  }

  // ---------------------------------------------------------------------
  // Font type probes

  /** font-kit's `Type`. */
  datatype FontType = Single | Collection(count: u32) | Unsupported

  /** What FT_New_Memory_Face reports when opening face 0: its error code
      and the face's `num_faces` (an FT_Long). */
  datatype Probe = Probe(error: int, numFaces: int)

  /** `num_faces as u32`: the low 32 bits. */
  function TruncateU32(n: int): (r: u32)
    ensures (r as int - n) % 0x1_0000_0000 == 0
    ensures 0 <= n < 0x1_0000_0000 ==> r as int == n
  {
    (n % 0x1_0000_0000) as u32
  }

  /** `Font::analyze_bytes`. */
  function AnalyzeBytes(probe: Probe): (r: FontType)
    ensures r == Unsupported <==> probe.error != 0
    ensures r == Single <==> probe.error == 0 && probe.numFaces == 1
    ensures r.Collection? && 0 <= probe.numFaces < 0x1_0000_0000 ==> r.count as int == probe.numFaces
  {
    if probe.error != 0 then Unsupported
    else if probe.numFaces == 1 then Single
    else Collection(TruncateU32(probe.numFaces))
  }

  /** `Font::analyze_file`: `None` when the file cannot be memory-mapped,
      otherwise the probe of the mapped bytes. */
  function AnalyzeFile(mapped: Option<Probe>): (r: FontType)
    ensures mapped.None? ==> r == Unsupported
  {
    match mapped
    case None => Unsupported
    case Some(probe) => AnalyzeBytes(probe)
  }

  /** A file that maps is classified as its bytes are. */
  lemma AnalyzeFileAgrees(probe: Probe)
    ensures AnalyzeFile(Some(probe)) == AnalyzeBytes(probe)
  {
  }

  /** A face count of 2^32 + 1 is reported as a collection of one font,
      which a caller cannot tell from a single-font file by count alone. */
  lemma CollectionCountWraps()
    ensures AnalyzeBytes(Probe(0, 0x1_0000_0001)) == Collection(1)
    ensures AnalyzeBytes(Probe(0, 0)) == Collection(0)
  {
  }
}
