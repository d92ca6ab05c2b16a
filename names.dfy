/** `Font::get_type_1_or_sfnt_name`: a face's name with a given key, taken
    first from the Type 1 (PostScript) font dictionary and otherwise from
    the first record of the sfnt `name` table with the given Name ID whose
    string decodes as UTF-16BE.

    The FreeType calls are inputs: the two FT_Get_PS_Font_Value results
    become a `PsValue`, and the records FT_Get_Sfnt_Name returns become a
    sequence of `NameRecord`s (every FT_Get_Sfnt_Name call is taken to
    succeed, as the source asserts it does). */
module Names {
  import opened Base
  import opened Unicode

  /** TT_NAME_ID_FULL_NAME: the OpenType `name` table Name ID 4, "Full font name". */
  const TtNameIdFullName: u16 := 4

  /** One `name` table record: its Name ID and its raw string bytes. */
  datatype NameRecord = NameRecord(nameId: u16, bytes: seq<byte>)

  /** The Type 1 dictionary lookup of a key (PS_DICT_FULL_NAME, 38, for the
      full name): `size` is what the sizing call returned;
      `fetched` is the filled buffer when the fetching call returned 0, and
      `None` when it returned anything else. */
  datatype PsValue = PsValue(size: int, fetched: Option<seq<byte>>)

  /** How a lookup ends: with a name or none, or with a panic because the
      matching record at index `record` has an odd number of bytes (the
      last `read_u16` fails and is unwrapped). */
  datatype Lookup = Returned(name: Option<string>) | OddLengthRecord(record: nat)

  /** A record the sfnt loop passes over: another Name ID, or a string that
      is not valid UTF-16BE. */
  predicate Skipped(r: NameRecord, id: u16) {
    r.nameId != id || (|r.bytes| % 2 == 0 && Utf16Decode(BigEndianUnits(r.bytes)).None?)
  }

  /** A record the sfnt loop returns `s` for. */
  predicate Yields(r: NameRecord, id: u16, s: string) {
    r.nameId == id && |r.bytes| % 2 == 0 && Utf16Decode(BigEndianUnits(r.bytes)) == Some(s)
  }

  /** The sfnt loop from record `k` on. */
  function SfntName(records: seq<NameRecord>, id: u16, k: nat): Lookup
    requires k <= |records|
    decreases |records| - k
  {
    if k == |records| then Returned(None)
    else if records[k].nameId != id then SfntName(records, id, k + 1)
    else if |records[k].bytes| % 2 != 0 then OddLengthRecord(k)
    else
      match Utf16Decode(BigEndianUnits(records[k].bytes))
      case Some(s) => Returned(Some(s))
      case None => SfntName(records, id, k + 1)
  }

  /** The whole lookup: a Type 1 value that is present and fetched wins
      (decoded as UTF-8, `None` if that fails); otherwise the sfnt loop. */
  function LookupName(ps: PsValue, records: seq<NameRecord>, id: u16): Lookup {
    if ps.size > 0 && ps.fetched.Some? then Returned(Utf8Decode(ps.fetched.value))
    else SfntName(records, id, 0)
  }

  /** The inner loop: `read_u16::<BigEndian>` until the byte slice is empty.
      Fails (the `unwrap` panics) exactly when the length is odd. */
  method ReadUnits(bytes: seq<byte>) returns (units: seq<u16>, ok: bool)
    ensures ok <==> |bytes| % 2 == 0
    ensures ok ==> units == BigEndianUnits(bytes)
  {
    var rest := bytes;
    units := [];
    while rest != []
      invariant |rest| <= |bytes| && (|bytes| - |rest|) % 2 == 0
      invariant rest == bytes[|bytes| - |rest|..]
      invariant |units| == (|bytes| - |rest|) / 2
      invariant forall i | 0 <= i < |units| ::
                  units[i] as int == bytes[2 * i] as int * 256 + bytes[2 * i + 1] as int
    {
      if |rest| < 2 {
        return units, false;
      }
      units := units + [(rest[0] as int * 256 + rest[1] as int) as u16];
      rest := rest[2..];
    }
    var expected := BigEndianUnits(bytes);
    assert |units| == |expected|;
    assert forall i | 0 <= i < |units| :: units[i] == expected[i];
    return units, true;
  }

  /** `get_type_1_or_sfnt_name(type_1_id, sfnt_id)`, with the Type 1 value
      already looked up for `type_1_id`. */
  method GetType1OrSfntName(ps: PsValue, records: seq<NameRecord>, sfntId: u16) returns (r: Lookup)
    ensures r == LookupName(ps, records, sfntId)
  {
    if ps.size > 0 {
      if ps.fetched.Some? {
        return Returned(Utf8Decode(ps.fetched.value));
      }
    }
    for k := 0 to |records|
      invariant SfntName(records, sfntId, k) == SfntName(records, sfntId, 0)
    {
      if records[k].nameId != sfntId {
        continue;
      }
      var units, ok := ReadUnits(records[k].bytes);
      if !ok {
        return OddLengthRecord(k);
      }
      var name := Utf16Decode(units);
      if name.Some? {
        return Returned(name);
      }
    }
    return Returned(None);
  }

  /** The sfnt loop returns `s` exactly when some matching record decodes
      to `s` and every record before it is passed over. */
  lemma {:induction false} SfntNameFound(records: seq<NameRecord>, id: u16, m: nat, s: string)
    requires m <= |records|
    ensures SfntName(records, id, m) == Returned(Some(s)) <==>
            exists k | m <= k < |records| ::
              Yields(records[k], id, s) && forall j | m <= j < k :: Skipped(records[j], id)
    decreases |records| - m
  {
    if m < |records| {
      SfntNameFound(records, id, m + 1, s);
      if Yields(records[m], id, s) {
        assert SfntName(records, id, m) == Returned(Some(s));
      } else if Skipped(records[m], id) {
        assert SfntName(records, id, m) == SfntName(records, id, m + 1);
        if exists k | m <= k < |records| ::
             Yields(records[k], id, s) && forall j | m <= j < k :: Skipped(records[j], id) {
          var k :| m <= k < |records| &&
                   Yields(records[k], id, s) && forall j | m <= j < k :: Skipped(records[j], id);
          assert k != m;
        }
      } else {
        assert SfntName(records, id, m) != Returned(Some(s));
      }
    }
  }

  /** The sfnt loop returns no name exactly when every record is passed
      over. */
  lemma {:induction false} SfntNameAbsent(records: seq<NameRecord>, id: u16, m: nat)
    requires m <= |records|
    ensures SfntName(records, id, m) == Returned(None) <==>
            forall j | m <= j < |records| :: Skipped(records[j], id)
    decreases |records| - m
  {
    if m < |records| {
      SfntNameAbsent(records, id, m + 1);
    }
  }

  /** The sfnt loop panics at record `k` exactly when record `k` matches
      with an odd byte count and every record before it is passed over. */
  lemma {:induction false} SfntNamePanics(records: seq<NameRecord>, id: u16, m: nat, k: nat)
    requires m <= |records|
    ensures SfntName(records, id, m) == OddLengthRecord(k) <==>
            (m <= k < |records| && records[k].nameId == id && |records[k].bytes| % 2 != 0 &&
             forall j | m <= j < k :: Skipped(records[j], id))
    decreases |records| - m
  {
    if m < |records| {
      SfntNamePanics(records, id, m + 1, k);
    }
  }

  /** Only records with the requested Name ID matter: a record with another
      ID in front of the table changes nothing but the index a panic names. */
  lemma {:induction false} OtherIdsIgnored(records: seq<NameRecord>, id: u16, other: NameRecord)
    requires other.nameId != id
    ensures SfntName([other] + records, id, 0).Returned? <==> SfntName(records, id, 0).Returned?
    ensures SfntName(records, id, 0).Returned? ==> SfntName([other] + records, id, 0) == SfntName(records, id, 0)
    ensures SfntName(records, id, 0).OddLengthRecord? ==>
              SfntName([other] + records, id, 0) == OddLengthRecord(SfntName(records, id, 0).record + 1)
  {
    SfntNameShift(records, other, id, 0);
  }

  lemma {:induction false} SfntNameShift(records: seq<NameRecord>, other: NameRecord, id: u16, m: nat)
    requires m <= |records|
    ensures var a := SfntName([other] + records, id, m + 1);
            var b := SfntName(records, id, m);
            && (a.Returned? <==> b.Returned?)
            && (b.Returned? ==> a == b)
            && (b.OddLengthRecord? ==> a == OddLengthRecord(b.record + 1))
    decreases |records| - m
  {
    var all := [other] + records;
    if m < |records| {
      assert all[m + 1] == records[m];
      SfntNameShift(records, other, id, m + 1);
    }
  }
}
