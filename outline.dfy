/** The FreeType loader's glyph outline decoder (`Font::outline` and its
    nested `get_point`).

    FreeType hands over, for one glyph, three parallel arrays: the index of
    the last point of every contour, the 26.6 position of every point, and
    every point's tag byte. One running index walks the points; every
    contour becomes `move_to`, a run of line and curve segments, `close`.

    The source returns `Ok(())` whenever it returns at all: a point read
    past the contour's last index fails an `assert!`, and a read past the
    point arrays fails Rust's slice bounds check. Both panics are modelled
    as a `Fault` that stops decoding, with the commands already handed to
    the path builder kept. */
module Outline {
  import opened Base

  /** Tag bit 0: the point lies on the curve. */
  const OnCurve: bv8 := 0x01
  /** Tag bit 1: an off-curve point is a cubic (not quadratic) control point. */
  const CubicControl: bv8 := 0x02

  /** Values of Rust's `usize` are below this bound (a 64-bit target). */
  const UsizeModulus: int := 0x1_0000_0000_0000_0000

  /** A point as FreeType stores it: 26.6 fixed-point coordinates. */
  datatype Vector = Vector(x: int, y: int)

  /** The decoded glyph outline as FreeType exposes it. */
  datatype Glyph = Glyph(contours: seq<i16>, points: seq<Vector>, tags: seq<bv8>)
  {
    /** Both point arrays are sliced with the same length, `n_points`. */
    predicate Valid() {
      |points| == |tags|
    }
  }

  /** The path-builder protocol the decoder drives. */
  datatype Command =
    | MoveTo(to: Vector)
    | LineTo(to: Vector)
    | QuadraticTo(ctrl: Vector, to: Vector)
    | CubicTo(ctrl1: Vector, ctrl2: Vector, to: Vector)
    | Close
  {
    /** A command drawn inside a contour, between its `MoveTo` and `Close`. */
    predicate IsSegment() {
      LineTo? || QuadraticTo? || CubicTo?
    }
  }

  /** Why decoding panicked. */
  datatype Fault =
    | PastContourEnd(index: nat, last: nat)   // `assert!(index <= last)` failed
    | PointOutOfRange(index: nat, count: nat) // slice index out of bounds

  /** The points a command hands to the path builder, in order. */
  function Anchors(c: Command): seq<Vector> {
    match c
    case MoveTo(p) => [p]
    case LineTo(p) => [p]
    case QuadraticTo(p0, p1) => [p0, p1]
    case CubicTo(p0, p1, p2) => [p0, p1, p2]
    case Close => []
  }

  /** `last_point_index_in_contour as usize`: FreeType stores contour ends
      as C shorts, and a negative one wraps to a huge index. */
  function ContourEnd(c: i16): (last: nat)
    ensures last < UsizeModulus
    ensures (last - c as int) % UsizeModulus == 0
    ensures c >= 0 ==> last == c as int
  {
    if c < 0 then c as int + UsizeModulus else c as int
  }

  /** How many points a segment whose first point has tag `tag` uses. */
  function Span(tag: bv8): (n: nat)
    ensures 1 <= n <= 3
  {
    if tag & OnCurve != 0 then 1
    else if tag & CubicControl != 0 then 3
    else 2
  }

  /** What a `get_point` call at `index` yields: the point's position and
      tag, or the panic it raises. */
  function FetchPoint(g: Glyph, index: nat, last: nat): Result<(Vector, bv8), Fault>
    requires g.Valid()
  {
    if index > last then Err(PastContourEnd(index, last))
    else if index >= |g.points| then Err(PointOutOfRange(index, |g.points|))
    else Ok((g.points[index], g.tags[index]))
  }

  /** `get_point`: checks the running index against the contour's last
      index, reads that point and its tag, and advances the index by one.
      The index is passed in and handed back, as Rust's `&mut usize`. */
  method GetPoint(g: Glyph, index: nat, last: nat) returns (r: Result<(Vector, bv8), Fault>, next: nat)
    requires g.Valid()
    ensures r == FetchPoint(g, index, last)
    ensures r.Ok? <==> index <= last && index < |g.points|
    ensures r.Ok? ==> r.value == (g.points[index], g.tags[index]) && next == index + 1
    ensures r.Err? ==> next == index
  {
    if index > last {
      return Err(PastContourEnd(index, last)), index;
    }
    if index >= |g.points| {
      return Err(PointOutOfRange(index, |g.points|)), index;
    }
    r := Ok((g.points[index], g.tags[index]));
    next := index + 1;
  }

  /** One pass of the inner loop at index `i`: the segment it emits and the
      index after it, or the panic it raises. */
  function Segment(g: Glyph, i: nat, last: nat): (r: Result<(Command, nat), Fault>)
    requires g.Valid()
    ensures r.Ok? <==> (i <= last && i < |g.points| &&
                        i + Span(g.tags[i]) <= last + 1 && i + Span(g.tags[i]) <= |g.points|)
    ensures r.Ok? ==> r.value.1 == i + Span(g.tags[i])
    ensures r.Ok? ==> Anchors(r.value.0) == g.points[i..r.value.1]
    ensures r.Ok? ==> r.value.0.IsSegment()
    ensures r.Ok? ==> (r.value.0.LineTo? <==> g.tags[i] & OnCurve != 0)
    ensures r.Ok? ==> (r.value.0.CubicTo? <==> g.tags[i] & OnCurve == 0 && g.tags[i] & CubicControl != 0)
  {
    match FetchPoint(g, i, last)
    case Err(f) => Err(f)
    case Ok((p0, tag)) =>
      if tag & OnCurve != 0 then Ok((LineTo(p0), i + 1))
      else
        match FetchPoint(g, i + 1, last)
        case Err(f) => Err(f)
        case Ok((p1, _)) =>
          if tag & CubicControl != 0 then
            match FetchPoint(g, i + 2, last)
            case Err(f) => Err(f)
            case Ok((p2, _)) => Ok((CubicTo(p0, p1, p2), i + 3))
          else Ok((QuadraticTo(p0, p1), i + 2))
  }

  /** The result of decoding from some point on: the commands emitted, the
      panic that stopped decoding (if any), and the running index at the
      end (on a panic: the index the failing segment started at). */
  datatype Trace = Trace(commands: seq<Command>, fault: Option<Fault>, cursor: nat)

  /** `t` with `cs` emitted before it. */
  function Prepend(cs: seq<Command>, t: Trace): Trace {
    t.(commands := cs + t.commands)
  }

  /** The inner `while` loop of one contour, started at index `i`. */
  function Body(g: Glyph, i: nat, last: nat): (t: Trace)
    requires g.Valid() && i <= |g.points| && i <= last + 1
    decreases |g.points| - i
    ensures i <= t.cursor <= |g.points| && t.cursor <= last + 1
    ensures t.fault.None? ==> t.cursor == last + 1
    ensures forall c | c in t.commands :: c.IsSegment()
  {
    if i > last then Trace([], None, i)
    else
      match Segment(g, i, last)
      case Err(f) => Trace([], Some(f), i)
      case Ok((c, j)) => Prepend([c], Body(g, j, last))
  }

  /** Decoding of contours `k..` with the running index at `i`. */
  function Contours(g: Glyph, k: nat, i: nat): Trace
    requires g.Valid() && k <= |g.contours| && i <= |g.points|
    decreases |g.contours| - k, 1
  {
    if k == |g.contours| then Trace([], None, i)
    else
      var last := ContourEnd(g.contours[k]);
      match FetchPoint(g, i, last)
      case Err(f) => Trace([], Some(f), i)
      case Ok((p, _)) => Prepend([MoveTo(p)], Rest(g, k, Body(g, i + 1, last)))
  }

  /** What follows the body `b` of contour `k`: its `close` and the later
      contours, unless the body panicked. */
  function Rest(g: Glyph, k: nat, b: Trace): Trace
    requires g.Valid() && k < |g.contours| && b.cursor <= |g.points|
    decreases |g.contours| - k, 0
  {
    if b.fault.Some? then b
    else Prepend(b.commands + [Close], Contours(g, k + 1, b.cursor))
  }

  /** The whole outline: all contours, starting at point 0. */
  function Decode(g: Glyph): Trace
    requires g.Valid()
  {
    Contours(g, 0, 0)
  }

  lemma PrependPrepend(a: seq<Command>, b: seq<Command>, t: Trace)
    ensures Prepend(a, Prepend(b, t)) == Prepend(a + b, t)
  {
    assert a + (b + t.commands) == (a + b) + t.commands;
  }

  lemma RestPrepend(g: Glyph, k: nat, c: Command, b: Trace)
    requires g.Valid() && k < |g.contours| && b.cursor <= |g.points|
    ensures Rest(g, k, Prepend([c], b)) == Prepend([c], Rest(g, k, b))
  {
    if b.fault.None? {
      var rest := Contours(g, k + 1, b.cursor);
      assert ([c] + b.commands) + [Close] == [c] + (b.commands + [Close]);
      PrependPrepend([c], b.commands + [Close], rest);
    }
  }

  /** The body of the inner loop of `Font::outline`: reads the point at
      `index` and, for an off-curve point, the one or two points after it
      through `get_point`, and builds the segment they describe. */
  method ReadSegment(g: Glyph, index: nat, last: nat) returns (r: Result<(Command, nat), Fault>)
    requires g.Valid()
    ensures r == Segment(g, index, last)
  {
    var r0, n0 := GetPoint(g, index, last);
    if r0.Err? {
      return Err(r0.error);
    }
    var (p0, tag) := r0.value;
    if tag & OnCurve != 0 {
      return Ok((LineTo(p0), n0));
    }
    var r1, n1 := GetPoint(g, n0, last);
    if r1.Err? {
      return Err(r1.error);
    }
    if tag & CubicControl != 0 {
      var r2, n2 := GetPoint(g, n1, last);
      if r2.Err? {
        return Err(r2.error);
      }
      r := Ok((CubicTo(p0, r1.value.0, r2.value.0), n2));
    } else {
      r := Ok((QuadraticTo(p0, r1.value.0), n1));
    }
  }

  /** `Font::outline`: decodes every contour of `g`, appending to the path
      builder's command list. Returns the commands emitted and, if decoding
      panicked, why. */
  method Outline(g: Glyph) returns (commands: seq<Command>, fault: Option<Fault>)
    requires g.Valid()
    ensures commands == Decode(g).commands && fault == Decode(g).fault
  {
    commands := [];
    var index: nat := 0;
    assert Prepend([], Decode(g)) == Decode(g);
    for k := 0 to |g.contours|
      invariant index <= |g.points|
      invariant Prepend(commands, Contours(g, k, index)) == Decode(g)
    {
      var last := ContourEnd(g.contours[k]);
      var first, next := GetPoint(g, index, last);
      if first.Err? {
        return commands, Some(first.error);
      }
      PrependPrepend(commands, [MoveTo(first.value.0)], Rest(g, k, Body(g, next, last)));
      commands, index := commands + [MoveTo(first.value.0)], next;
      while index <= last
        invariant index <= |g.points| && index <= last + 1
        invariant Prepend(commands, Rest(g, k, Body(g, index, last))) == Decode(g)
        decreases |g.points| - index
      {
        var step := ReadSegment(g, index, last);
        if step.Err? {
          return commands, Some(step.error);
        }
        var (c, after) := step.value;
        RestPrepend(g, k, c, Body(g, after, last));
        PrependPrepend(commands, [c], Rest(g, k, Body(g, after, last)));
        commands, index := commands + [c], after;
      }
      assert Body(g, index, last) == Trace([], None, index);
      assert [] + [Close] == [Close];
      assert Rest(g, k, Body(g, index, last)) == Prepend([Close], Contours(g, k + 1, index));
      PrependPrepend(commands, [Close], Contours(g, k + 1, index));
      commands := commands + [Close];
    }
    fault := None;
  }
}
