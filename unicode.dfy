/** The text decodings the name lookup relies on: big-endian 16-bit code
    units (RFC 2781 section 2, UTF-16BE, as `read_u16::<BigEndian>` reads
    them), UTF-16 as Rust's `String::from_utf16` accepts it, and UTF-8 as
    `String::from_utf8` and `CStr::to_str` accept it (section 3.9 of the
    Unicode Standard, "well-formed UTF-8"). Each decoder has an encoder as
    its partner, and the two are proved inverse in both directions.

    A `char` is a Unicode scalar value: 0 to 0x10FFFF minus the surrogates
    0xD800 to 0xDFFF. */
module Unicode {
  import opened Base

  // ---------------------------------------------------------------------
  // Big-endian 16-bit units

  /** The big-endian 16-bit units of an even-length byte string. */
  function BigEndianUnits(bytes: seq<byte>): (units: seq<u16>)
    requires |bytes| % 2 == 0
    ensures |units| == |bytes| / 2
    ensures forall i | 0 <= i < |units| ::
              units[i] as int == bytes[2 * i] as int * 256 + bytes[2 * i + 1] as int
  {
    if bytes == [] then []
    else [(bytes[0] as int * 256 + bytes[1] as int) as u16] + BigEndianUnits(bytes[2..])
  }

  /** The bytes of 16-bit units, high byte first. */
  function UnitsToBytes(units: seq<u16>): (bytes: seq<byte>)
    ensures |bytes| == 2 * |units|
  {
    if units == [] then []
    else [(units[0] as int / 256) as byte, (units[0] as int % 256) as byte] + UnitsToBytes(units[1..])
  }

  lemma {:induction false} UnitsRoundTrip(units: seq<u16>)
    ensures BigEndianUnits(UnitsToBytes(units)) == units
  {
    if units != [] {
      var bytes := UnitsToBytes(units);
      assert bytes[2..] == UnitsToBytes(units[1..]);
      UnitsRoundTrip(units[1..]);
    }
  }

  lemma {:induction false} BytesRoundTrip(bytes: seq<byte>)
    requires |bytes| % 2 == 0
    ensures UnitsToBytes(BigEndianUnits(bytes)) == bytes
    decreases |bytes|
  {
    if bytes != [] {
      var units := BigEndianUnits(bytes);
      assert units[1..] == BigEndianUnits(bytes[2..]);
      BytesRoundTrip(bytes[2..]);
      assert bytes == [bytes[0], bytes[1]] + bytes[2..];
    }
  }

  // ---------------------------------------------------------------------
  // UTF-16

  predicate IsHighSurrogate(u: u16) {
    0xD800 <= u < 0xDC00
  }

  predicate IsLowSurrogate(u: u16) {
    0xDC00 <= u < 0xE000
  }

  /** The scalar value a surrogate pair stands for. */
  function FromSurrogates(hi: u16, lo: u16): (c: char)
    requires IsHighSurrogate(hi) && IsLowSurrogate(lo)
    ensures 0x10000 <= c as int < 0x110000
  {
    (0x10000 + (hi as int - 0xD800) * 0x400 + (lo as int - 0xDC00)) as char
  }

  /** `String::from_utf16`: `None` when a surrogate is unpaired. */
  function Utf16Decode(units: seq<u16>): Option<string>
    decreases |units|
  {
    if units == [] then Some("")
    else if IsHighSurrogate(units[0]) then
      if |units| >= 2 && IsLowSurrogate(units[1]) then
        match Utf16Decode(units[2..])
        case None => None
        case Some(s) => Some([FromSurrogates(units[0], units[1])] + s)
      else None
    else if IsLowSurrogate(units[0]) then None
    else
      match Utf16Decode(units[1..])
      case None => None
      case Some(s) => Some([units[0] as int as char] + s)
  }

  /** The UTF-16 units of one scalar value. */
  function Utf16Char(c: char): (units: seq<u16>)
    ensures |units| == if c as int < 0x10000 then 1 else 2
  {
    var v := c as int;
    if v < 0x10000 then [v as u16]
    else [(0xD800 + (v - 0x10000) / 0x400) as u16, (0xDC00 + (v - 0x10000) % 0x400) as u16]
  }

  function Utf16Encode(s: string): seq<u16> {
    if s == [] then [] else Utf16Char(s[0]) + Utf16Encode(s[1..])
  }

  /** Every string survives UTF-16 encoding and decoding. */
  lemma {:induction false} Utf16RoundTrip(s: string)
    ensures Utf16Decode(Utf16Encode(s)) == Some(s)
  {
    if s != [] {
      var units := Utf16Encode(s);
      var head := Utf16Char(s[0]);
      Utf16RoundTrip(s[1..]);
      assert units == head + Utf16Encode(s[1..]);
      if s[0] as int < 0x10000 {
        assert units[1..] == Utf16Encode(s[1..]);
      } else {
        assert units[2..] == Utf16Encode(s[1..]);
        assert FromSurrogates(units[0], units[1]) == s[0];
      }
      assert s == [s[0]] + s[1..];
    }
  }

  /** A UTF-16 string that decodes is exactly the encoding of what it
      decodes to. */
  lemma {:induction false} Utf16DecodeExact(units: seq<u16>, s: string)
    requires Utf16Decode(units) == Some(s)
    ensures Utf16Encode(s) == units
    decreases |units|
  {
    if units != [] {
      if IsHighSurrogate(units[0]) {
        var rest := Utf16Decode(units[2..]).value;
        Utf16DecodeExact(units[2..], rest);
        var c := FromSurrogates(units[0], units[1]);
        assert s == [c] + rest && s[1..] == rest;
        assert Utf16Char(c) == units[..2];
        assert units == units[..2] + units[2..];
      } else {
        var rest := Utf16Decode(units[1..]).value;
        Utf16DecodeExact(units[1..], rest);
        assert s == [units[0] as int as char] + rest && s[1..] == rest;
        assert units == [units[0]] + units[1..];
      }
    }
  }

  // ---------------------------------------------------------------------
  // UTF-8

  /** A continuation byte 10xxxxxx carries six bits. */
  predicate IsContinuation(b: byte) {
    0x80 <= b < 0xC0
  }

  /** The scalar value at the start of `bytes` and the number of bytes it
      takes, or `None` if the bytes there are not well-formed UTF-8: a bad
      lead or continuation byte, an overlong form, a surrogate, or a value
      above 0x10FFFF. */
  function DecodeScalar(bytes: seq<byte>): (r: Option<(char, nat)>)
    requires |bytes| > 0
    ensures r.Some? ==> 1 <= r.value.1 <= |bytes| && r.value.1 <= 4
  {
    var b0 := bytes[0] as int;
    if b0 < 0x80 then Some((b0 as char, 1))
    else if 0xC0 <= b0 < 0xE0 then
      if |bytes| < 2 || !IsContinuation(bytes[1]) then None
      else
        var v := (b0 - 0xC0) * 0x40 + (bytes[1] as int - 0x80);
        if v < 0x80 then None else Some((v as char, 2))
    else if 0xE0 <= b0 < 0xF0 then
      if |bytes| < 3 || !IsContinuation(bytes[1]) || !IsContinuation(bytes[2]) then None
      else
        var v := (b0 - 0xE0) * 0x1000 + (bytes[1] as int - 0x80) * 0x40 + (bytes[2] as int - 0x80);
        if v < 0x800 || 0xD800 <= v < 0xE000 then None else Some((v as char, 3))
    else if 0xF0 <= b0 < 0xF8 then
      if |bytes| < 4 || !IsContinuation(bytes[1]) || !IsContinuation(bytes[2]) || !IsContinuation(bytes[3]) then None
      else
        var v := (b0 - 0xF0) * 0x4_0000 + (bytes[1] as int - 0x80) * 0x1000
                 + (bytes[2] as int - 0x80) * 0x40 + (bytes[3] as int - 0x80);
        if v < 0x1_0000 || v >= 0x11_0000 then None else Some((v as char, 4))
    else None
  }

  /** `String::from_utf8` / `CStr::to_str`: `None` unless the whole byte
      string is well-formed UTF-8. */
  function Utf8Decode(bytes: seq<byte>): Option<string>
    decreases |bytes|
  {
    if bytes == [] then Some("")
    else
      match DecodeScalar(bytes)
      case None => None
      case Some((c, n)) =>
        match Utf8Decode(bytes[n..])
        case None => None
        case Some(s) => Some([c] + s)
  }

  /** The shortest UTF-8 form of one scalar value. */
  function Utf8Char(c: char): (bytes: seq<byte>)
    ensures 1 <= |bytes| <= 4
  {
    var v := c as int;
    if v < 0x80 then [v as byte]
    else if v < 0x800 then [(0xC0 + v / 0x40) as byte, (0x80 + v % 0x40) as byte]
    else if v < 0x1_0000 then
      [(0xE0 + v / 0x1000) as byte, (0x80 + (v / 0x40) % 0x40) as byte, (0x80 + v % 0x40) as byte]
    else
      [(0xF0 + v / 0x4_0000) as byte, (0x80 + (v / 0x1000) % 0x40) as byte,
       (0x80 + (v / 0x40) % 0x40) as byte, (0x80 + v % 0x40) as byte]
  }

  function Utf8Encode(s: string): seq<byte> {
    if s == [] then [] else Utf8Char(s[0]) + Utf8Encode(s[1..])
  }

  /** `v` split into a quotient and a remainder by 64. */
  lemma Split64(v: int, q: int, r: int)
    requires 0 <= r < 0x40 && v == q * 0x40 + r
    ensures v / 0x40 == q && v % 0x40 == r
  {
  }

  /** The encoding of one scalar value decodes back to it, whatever
      follows it. */
  lemma CharRoundTrip(c: char, rest: seq<byte>)
    ensures DecodeScalar(Utf8Char(c) + rest) == Some((c, |Utf8Char(c)|))
  {
    var v := c as int;
    var bytes := Utf8Char(c) + rest;
    if v < 0x80 {
    } else if v < 0x800 {
      assert bytes[0] as int == 0xC0 + v / 0x40 && bytes[1] as int == 0x80 + v % 0x40;
    } else if v < 0x1_0000 {
      var q := v / 0x40;
      assert q / 0x40 == v / 0x1000;
      assert bytes[0] as int == 0xE0 + v / 0x1000;
      assert bytes[1] as int == 0x80 + q % 0x40;
      assert bytes[2] as int == 0x80 + v % 0x40;
    } else {
      var q := v / 0x40;
      var q2 := q / 0x40;
      assert q2 == v / 0x1000;
      assert q2 / 0x40 == v / 0x4_0000;
      assert bytes[0] as int == 0xF0 + v / 0x4_0000;
      assert bytes[1] as int == 0x80 + q2 % 0x40;
      assert bytes[2] as int == 0x80 + q % 0x40;
      assert bytes[3] as int == 0x80 + v % 0x40;
    }
  }

  /** Every string survives UTF-8 encoding and decoding. */
  lemma {:induction false} Utf8RoundTrip(s: string)
    ensures Utf8Decode(Utf8Encode(s)) == Some(s)
  {
    if s != [] {
      var bytes := Utf8Encode(s);
      var head := Utf8Char(s[0]);
      CharRoundTrip(s[0], Utf8Encode(s[1..]));
      Utf8RoundTrip(s[1..]);
      assert bytes[|head|..] == Utf8Encode(s[1..]);
      assert s == [s[0]] + s[1..];
    }
  }

  /** A well-formed scalar at the start of `bytes` is the shortest encoding
      of the value it decodes to. */
  lemma ScalarExact(bytes: seq<byte>)
    requires |bytes| > 0 && DecodeScalar(bytes).Some?
    ensures var (c, n) := DecodeScalar(bytes).value; Utf8Char(c) == bytes[..n]
  {
    var (c, n) := DecodeScalar(bytes).value;
    var v := c as int;
    var b0 := bytes[0] as int;
    if n == 2 {
      Split64(v, b0 - 0xC0, bytes[1] as int - 0x80);
    } else if n == 3 {
      var q := (b0 - 0xE0) * 0x40 + (bytes[1] as int - 0x80);
      Split64(v, q, bytes[2] as int - 0x80);
      Split64(q, b0 - 0xE0, bytes[1] as int - 0x80);
      assert v / 0x1000 == q / 0x40;
    } else if n == 4 {
      var q2 := (b0 - 0xF0) * 0x40 + (bytes[1] as int - 0x80);
      var q := q2 * 0x40 + (bytes[2] as int - 0x80);
      Split64(v, q, bytes[3] as int - 0x80);
      Split64(q, q2, bytes[2] as int - 0x80);
      Split64(q2, b0 - 0xF0, bytes[1] as int - 0x80);
      assert v / 0x1000 == q2;
      assert v / 0x4_0000 == q2 / 0x40;
    }
  }

  /** A UTF-8 string that decodes is exactly the encoding of what it
      decodes to. */
  lemma {:induction false} Utf8DecodeExact(bytes: seq<byte>, s: string)
    requires Utf8Decode(bytes) == Some(s)
    ensures Utf8Encode(s) == bytes
    decreases |bytes|
  {
    if bytes != [] {
      var (c, n) := DecodeScalar(bytes).value;
      var rest := Utf8Decode(bytes[n..]).value;
      Utf8DecodeExact(bytes[n..], rest);
      ScalarExact(bytes);
      assert s == [c] + rest && s[1..] == rest;
      assert bytes == bytes[..n] + bytes[n..];
    }
  }
}
