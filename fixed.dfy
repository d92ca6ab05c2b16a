/** FreeType's 26.6 fixed-point coordinates (6 fractional bits) and the
    character size the loader sets so that they come out in font design
    units. Values are exact reals: the f32 rounding of the source is not
    modelled. */
module Fixed {
  import opened Base

  /** The number of 26.6 units in one whole unit. */
  const One: int := 64

  /** `ft_fixed_26_6_to_f32`: a 26.6 value divided by 64. */
  function ToReal(fixed: int): (r: real)
    ensures r * 64.0 == fixed as real
    ensures fixed % One == 0 ==> r == (fixed / One) as real
  {
    fixed as real / 64.0
  }

  /** The nearest 26.6 value to `r` (ties go up). */
  function FromReal(r: real): (fixed: int)
    ensures ToReal(fixed) - 1.0 / 128.0 <= r < ToReal(fixed) + 1.0 / 128.0
  {
    (r * 64.0 + 0.5).Floor
  }

  /** Converting a 26.6 value to a real and rounding it back recovers it. */
  lemma RoundTrip(v: int)
    ensures FromReal(ToReal(v)) == v
  {
    assert ToReal(v) * 64.0 + 0.5 == v as real + 0.5;
  }

  /** `setup_freetype_face`: the character size `units_per_EM << 6` handed to
      FT_Set_Char_Size, in 26.6 points. */
  function CharSize(unitsPerEm: u16): (size: int)
    ensures 0 <= size < 0x8000_0000_0000_0000
    ensures size / One == unitsPerEm as int && size % One == 0
  {
    // a left shift by 6 of a non-negative i64 that cannot overflow
    unitsPerEm as int * One
  }

  /** A design-unit coordinate `d` as FreeType scales it: at the default
      72 dpi the pixels-per-em equals the character size in points, and a
      coordinate is scaled by pixels-per-em / units-per-em. */
  function Scaled(d: int, unitsPerEm: u16): int
    requires unitsPerEm > 0
  {
    d * CharSize(unitsPerEm) / unitsPerEm as int
  }

  /** Because the character size is units-per-em times 64, scaled 26.6
      coordinates divided by 64 are exactly the design units. */
  lemma ScaledIsDesignUnits(d: int, unitsPerEm: u16)
    requires unitsPerEm > 0
    ensures Scaled(d, unitsPerEm) == d * One
    ensures ToReal(Scaled(d, unitsPerEm)) == d as real
  {
    var u := unitsPerEm as int;
    assert d * CharSize(unitsPerEm) == (d * One) * u;
    MulDivCancel(d * One, u);
  }

  lemma MulDivCancel(a: int, u: int)
    requires u > 0
    ensures a * u / u == a
  {
    var q, r := a * u / u, a * u % u;
    assert (a - q) * u == r;
    if a > q {
      MulAtLeast(a - q, u);
    } else if a < q {
      MulAtLeast(q - a, u);
    }
  }

  lemma MulAtLeast(k: int, u: int)
    requires k >= 1 && u > 0
    ensures k * u >= u
  {
  }
}
