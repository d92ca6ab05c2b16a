/** What the outline decoder guarantees: the per-contour shape of the
    command stream, the in-order use of the points, where the running index
    ends, and the worked examples. */
module OutlineFacts {
  import opened Base
  import opened Outline

  /** The number of `Close` commands in `cs`. */
  function Closes(cs: seq<Command>): nat {
    if cs == [] then 0 else (if cs[0].Close? then 1 else 0) + Closes(cs[1..])
  }

  /** The number of `MoveTo` commands in `cs`. */
  function MoveTos(cs: seq<Command>): nat {
    if cs == [] then 0 else (if cs[0].MoveTo? then 1 else 0) + MoveTos(cs[1..])
  }

  /** All points handed to the path builder by `cs`, in order. */
  function AnchorsOf(cs: seq<Command>): seq<Vector> {
    if cs == [] then [] else Anchors(cs[0]) + AnchorsOf(cs[1..])
  }

  /** `cs` is a run of contours, each a `MoveTo`, segments, and a `Close`:
      a command is a `MoveTo` exactly when it opens the stream or follows a
      `Close`, and a non-empty stream ends with a `Close`. */
  predicate Grouped(cs: seq<Command>) {
    && (|cs| > 0 ==> cs[0].MoveTo? && cs[|cs| - 1].Close?)
    && (forall j {:trigger cs[j]} | 0 < j < |cs| :: cs[j].MoveTo? <==> cs[j - 1].Close?)
  }

  lemma {:induction false} CountsAppend(a: seq<Command>, b: seq<Command>)
    ensures Closes(a + b) == Closes(a) + Closes(b)
    ensures MoveTos(a + b) == MoveTos(a) + MoveTos(b)
    ensures AnchorsOf(a + b) == AnchorsOf(a) + AnchorsOf(b)
  {
    if a != [] {
      assert (a + b)[1..] == a[1..] + b;
      CountsAppend(a[1..], b);
    } else {
      assert a + b == b;
    }
  }

  lemma SliceSplit<T>(s: seq<T>, a: nat, b: nat, c: nat)
    requires a <= b <= c <= |s|
    ensures s[a..c] == s[a..b] + s[b..c]
  {
  }

  lemma AnchorsOfSingle(c: Command)
    ensures AnchorsOf([c]) == Anchors(c)
  {
    assert [c][1..] == [];
  }

  lemma {:induction false} SegmentsCount(cs: seq<Command>)
    requires forall c | c in cs :: c.IsSegment()
    ensures Closes(cs) == 0 && MoveTos(cs) == 0
  {
    if cs != [] {
      assert cs[0] in cs;
      assert forall c | c in cs[1..] :: c in cs;
      SegmentsCount(cs[1..]);
    }
  }

  /** One contour's commands: a `MoveTo`, segments, and a `Close`. */
  lemma GroupedContour(p: Vector, segs: seq<Command>)
    requires forall c | c in segs :: c.IsSegment()
    ensures Grouped([MoveTo(p)] + segs + [Close])
  {
    var head := [MoveTo(p)] + segs + [Close];
    forall j | 0 < j < |head|
      ensures head[j].MoveTo? <==> head[j - 1].Close?
    {
      if j <= |segs| {
        assert head[j] == segs[j - 1] && segs[j - 1] in segs;
      }
      if j > 1 {
        assert head[j - 1] == segs[j - 2] && segs[j - 2] in segs;
      }
    }
  }

  /** Two runs of contours, one after the other, are a run of contours. */
  lemma GroupedAppend(x: seq<Command>, y: seq<Command>)
    requires Grouped(x) && Grouped(y) && |x| > 0
    ensures Grouped(x + y)
  {
    var cs := x + y;
    forall j | 0 < j < |cs|
      ensures cs[j].MoveTo? <==> cs[j - 1].Close?
    {
      if j < |x| {
        assert cs[j] == x[j] && cs[j - 1] == x[j - 1];
      } else if j == |x| {
        assert cs[j] == y[0] && cs[j - 1] == x[|x| - 1];
      } else {
        assert cs[j] == y[j - |x|] && cs[j - 1] == y[j - |x| - 1];
      }
    }
    assert cs[0] == x[0];
    assert cs[|cs| - 1] == if |y| > 0 then y[|y| - 1] else x[|x| - 1];
  }

  /** A contour body that finishes hands over exactly the points from its
      start up to and including the contour's last index, in order. */
  lemma {:induction false} BodyAnchors(g: Glyph, i: nat, last: nat)
    requires g.Valid() && i <= |g.points| && i <= last + 1
    requires Body(g, i, last).fault.None?
    ensures AnchorsOf(Body(g, i, last).commands) == g.points[i..last + 1]
    decreases |g.points| - i
  {
    if i <= last {
      var r := Segment(g, i, last);
      var (c, j) := r.value;
      var rest := Body(g, j, last);
      BodyAnchors(g, j, last);
      CountsAppend([c], rest.commands);
      AnchorsOfSingle(c);
      SliceSplit(g.points, i, j, last + 1);
    }
  }

  /** A contour whose first point is readable is opened by a `MoveTo` to
      that point, whatever the point's tag. */
  lemma FirstPointMoves(g: Glyph, k: nat, i: nat)
    requires g.Valid() && k < |g.contours| && i < |g.points|
    requires i <= ContourEnd(g.contours[k])
    ensures |Contours(g, k, i).commands| > 0
    ensures Contours(g, k, i).commands[0] == MoveTo(g.points[i])
  {
  }

  /** A contour that decodes without panicking: its first point is read,
      its body runs to one past its last index, and the later contours
      start there. */
  lemma ContoursStep(g: Glyph, k: nat, i: nat)
    requires g.Valid() && k < |g.contours| && i <= |g.points|
    requires Contours(g, k, i).fault.None?
    ensures i <= ContourEnd(g.contours[k]) && i < |g.points|
    ensures var last := ContourEnd(g.contours[k]);
      var b := Body(g, i + 1, last);
      && b.fault.None? && b.cursor == last + 1 && last + 1 <= |g.points|
      && Contours(g, k + 1, last + 1).fault.None?
      && Contours(g, k, i) ==
         Prepend([MoveTo(g.points[i])] + b.commands + [Close], Contours(g, k + 1, last + 1))
  {
    var last := ContourEnd(g.contours[k]);
    var b := Body(g, i + 1, last);
    var c := Contours(g, k + 1, b.cursor);
    PrependPrepend([MoveTo(g.points[i])], b.commands + [Close], c);
    assert [MoveTo(g.points[i])] + (b.commands + [Close]) == [MoveTo(g.points[i])] + b.commands + [Close];
  }

  /** Decoding contours `k..` from index `i` without a panic emits one
      `MoveTo` and one `Close` per contour, grouped contour by contour. */
  lemma {:induction false} ContoursGrouped(g: Glyph, k: nat, i: nat)
    requires g.Valid() && k <= |g.contours| && i <= |g.points|
    requires Contours(g, k, i).fault.None?
    ensures var t := Contours(g, k, i);
      && Closes(t.commands) == |g.contours| - k
      && MoveTos(t.commands) == |g.contours| - k
      && Grouped(t.commands)
    decreases |g.contours| - k
  {
    if k < |g.contours| {
      ContoursStep(g, k, i);
      var last := ContourEnd(g.contours[k]);
      var p := g.points[i];
      var b := Body(g, i + 1, last);
      var c := Contours(g, k + 1, last + 1);
      ContoursGrouped(g, k + 1, last + 1);
      SegmentsCount(b.commands);
      GroupedContour(p, b.commands);
      GroupedAppend([MoveTo(p)] + b.commands + [Close], c.commands);
      CountsAppend([MoveTo(p)] + b.commands + [Close], c.commands);
      CountsAppend([MoveTo(p)] + b.commands, [Close]);
      CountsAppend([MoveTo(p)], b.commands);
      assert Closes([Close]) == 1 && MoveTos([Close]) == 0;
      assert Closes([MoveTo(p)]) == 0 && MoveTos([MoveTo(p)]) == 1;
    }
  }

  /** Decoding contours `k..` from index `i` without a panic ends one past
      the last contour's last index, and every contour ends after the one
      before it. */
  lemma {:induction false} ContoursEnds(g: Glyph, k: nat, i: nat)
    requires g.Valid() && k <= |g.contours| && i <= |g.points|
    requires Contours(g, k, i).fault.None?
    ensures var t := Contours(g, k, i);
      && i <= t.cursor <= |g.points|
      && t.cursor == (if k == |g.contours| then i else ContourEnd(g.contours[|g.contours| - 1]) + 1)
    ensures k < |g.contours| ==> i <= ContourEnd(g.contours[k])
    ensures forall j | k <= j < |g.contours| - 1 :: ContourEnd(g.contours[j]) < ContourEnd(g.contours[j + 1])
    decreases |g.contours| - k
  {
    if k < |g.contours| {
      ContoursStep(g, k, i);
      ContoursEnds(g, k + 1, ContourEnd(g.contours[k]) + 1);
    }
  }

  /** Decoding contours `k..` from index `i` without a panic hands over the
      points from `i` to the final index, in order, each once. */
  lemma {:induction false} ContoursAnchors(g: Glyph, k: nat, i: nat)
    requires g.Valid() && k <= |g.contours| && i <= |g.points|
    requires Contours(g, k, i).fault.None?
    ensures i <= Contours(g, k, i).cursor <= |g.points|
    ensures AnchorsOf(Contours(g, k, i).commands) == g.points[i..Contours(g, k, i).cursor]
    decreases |g.contours| - k
  {
    ContoursEnds(g, k, i);
    if k < |g.contours| {
      ContoursStep(g, k, i);
      var last := ContourEnd(g.contours[k]);
      var b := Body(g, i + 1, last);
      var c := Contours(g, k + 1, last + 1);
      ContoursEnds(g, k + 1, last + 1);
      ContoursAnchors(g, k + 1, last + 1);
      BodyAnchors(g, i + 1, last);
      AnchorsJoin(g.points, i, last + 1, c.cursor, b.commands, c.commands);
    }
  }

  /** The points of one contour's commands followed by later contours'. */
  lemma AnchorsJoin(pts: seq<Vector>, i: nat, end: nat, cursor: nat, body: seq<Command>, rest: seq<Command>)
    requires i < end <= cursor <= |pts|
    requires AnchorsOf(body) == pts[i + 1..end]
    requires AnchorsOf(rest) == pts[end..cursor]
    ensures AnchorsOf([MoveTo(pts[i])] + body + [Close] + rest) == pts[i..cursor]
  {
    var p := pts[i];
    CountsAppend([MoveTo(p)] + body + [Close], rest);
    CountsAppend([MoveTo(p)] + body, [Close]);
    CountsAppend([MoveTo(p)], body);
    AnchorsOfSingle(MoveTo(p));
    AnchorsOfSingle(Close);
    SliceSplit(pts, i, i + 1, end);
    SliceSplit(pts, i, end, cursor);
    assert pts[i..i + 1] == [p];
  }

  /** The decoded outline of a glyph that does not panic: exactly one
      `MoveTo` and one `Close` per contour, grouped contour by contour; the
      points are used in order, each exactly once, up to one past the last
      contour's last index; contour ends strictly increase, so no contour
      uses a point of another. */
  lemma DecodeShape(g: Glyph)
    requires g.Valid() && Decode(g).fault.None?
    ensures var t := Decode(g);
      && Closes(t.commands) == |g.contours|
      && MoveTos(t.commands) == |g.contours|
      && Grouped(t.commands)
      && t.cursor <= |g.points|
      && AnchorsOf(t.commands) == g.points[..t.cursor]
      && t.cursor == (if |g.contours| == 0 then 0 else ContourEnd(g.contours[|g.contours| - 1]) + 1)
      && (forall j | 0 <= j < |g.contours| - 1 :: ContourEnd(g.contours[j]) < ContourEnd(g.contours[j + 1]))
  {
    ContoursGrouped(g, 0, 0);
    ContoursEnds(g, 0, 0);
    ContoursAnchors(g, 0, 0);
  }

  /** Inside a contour, a segment never takes a point past the contour's
      last index: an off-curve point at the last index panics even when
      the next contour's first point is there to be read. */
  lemma OffCurveAtContourEndPanics(g: Glyph, i: nat, last: nat)
    requires g.Valid() && i == last && i + 1 < |g.points|
    requires g.tags[i] & OnCurve == 0
    ensures Segment(g, i, last) == Err(PastContourEnd(last + 1, last))
  {
  }

  // Worked examples. Tags: 1 = on-curve, 0 = quadratic control, 2 = cubic control.

  /** [on, off, on] in one contour: move, quadratic curve, close. */
  lemma QuadraticContour(a: Vector, b: Vector, c: Vector)
    ensures Decode(Glyph([2], [a, b, c], [1, 0, 1])) ==
            Trace([MoveTo(a), QuadraticTo(b, c), Close], None, 3)
  {
    var g := Glyph([2], [a, b, c], [1, 0, 1]);
    assert Segment(g, 1, 2) == Ok((QuadraticTo(b, c), 3));
    assert Body(g, 1, 2) == Trace([QuadraticTo(b, c)], None, 3);
    assert Contours(g, 1, 3) == Trace([], None, 3);
    assert ContourEnd(g.contours[0]) == 2;
    assert Contours(g, 0, 0) == Prepend([MoveTo(a)], Rest(g, 0, Body(g, 1, 2)));
  }

  /** [on, off(cubic), off(cubic), on] in one contour: move, cubic curve, close. */
  lemma CubicContour(a: Vector, b: Vector, c: Vector, d: Vector)
    ensures Decode(Glyph([3], [a, b, c, d], [1, 2, 2, 1])) ==
            Trace([MoveTo(a), CubicTo(b, c, d), Close], None, 4)
  {
    var g := Glyph([3], [a, b, c, d], [1, 2, 2, 1]);
    assert Segment(g, 1, 3) == Ok((CubicTo(b, c, d), 4));
    assert Body(g, 1, 3) == Trace([CubicTo(b, c, d)], None, 4);
    assert Contours(g, 1, 4) == Trace([], None, 4);
    assert ContourEnd(g.contours[0]) == 3;
    assert Contours(g, 0, 0) == Prepend([MoveTo(a)], Rest(g, 0, Body(g, 1, 3)));
  }

  /** A rectangle of four on-curve points: move, three lines, close. */
  lemma RectangleContour(a: Vector, b: Vector, c: Vector, d: Vector)
    ensures Decode(Glyph([3], [a, b, c, d], [1, 1, 1, 1])) ==
            Trace([MoveTo(a), LineTo(b), LineTo(c), LineTo(d), Close], None, 4)
  {
    var g := Glyph([3], [a, b, c, d], [1, 1, 1, 1]);
    assert Body(g, 4, 3) == Trace([], None, 4);
    assert Segment(g, 3, 3) == Ok((LineTo(d), 4));
    assert Body(g, 3, 3) == Trace([LineTo(d)], None, 4);
    assert Segment(g, 2, 3) == Ok((LineTo(c), 3));
    assert Body(g, 2, 3) == Trace([LineTo(c), LineTo(d)], None, 4);
    assert Segment(g, 1, 3) == Ok((LineTo(b), 2));
    assert Body(g, 1, 3) == Trace([LineTo(b), LineTo(c), LineTo(d)], None, 4);
    assert Contours(g, 1, 4) == Trace([], None, 4);
    assert ContourEnd(g.contours[0]) == 3;
    assert Contours(g, 0, 0) == Prepend([MoveTo(a)], Rest(g, 0, Body(g, 1, 3)));
  }

  /** Two contours [on, off] and [on]: the first contour's off-curve point
      needs a point past its end, so decoding panics after the `MoveTo`
      rather than borrowing the second contour's point. */
  lemma NoBorrowingAcrossContours(a: Vector, b: Vector, c: Vector)
    ensures Decode(Glyph([1, 2], [a, b, c], [1, 0, 1])) ==
            Trace([MoveTo(a)], Some(PastContourEnd(2, 1)), 1)
  {
    var g := Glyph([1, 2], [a, b, c], [1, 0, 1]);
    assert Segment(g, 1, 1) == Err(PastContourEnd(2, 1));
    assert Body(g, 1, 1) == Trace([], Some(PastContourEnd(2, 1)), 1);
    assert ContourEnd(g.contours[0]) == 1;
    assert Contours(g, 0, 0) == Prepend([MoveTo(a)], Rest(g, 0, Body(g, 1, 1)));
  }

  /** A contour whose last index lies past the points: the read past the
      point arrays panics. */
  lemma ContourEndBeyondPoints(a: Vector, b: Vector)
    ensures Decode(Glyph([2], [a, b], [1, 1])) ==
            Trace([MoveTo(a), LineTo(b)], Some(PointOutOfRange(2, 2)), 2)
  {
    var g := Glyph([2], [a, b], [1, 1]);
    assert Segment(g, 2, 2) == Err(PointOutOfRange(2, 2));
    assert Body(g, 2, 2) == Trace([], Some(PointOutOfRange(2, 2)), 2);
    assert Segment(g, 1, 2) == Ok((LineTo(b), 2));
    assert Body(g, 1, 2) == Trace([LineTo(b)], Some(PointOutOfRange(2, 2)), 2);
    assert ContourEnd(g.contours[0]) == 2;
    assert Contours(g, 0, 0) == Prepend([MoveTo(a)], Rest(g, 0, Body(g, 1, 2)));
  }

  /** A negative contour end becomes an index near 2^64 once cast to
      `usize`, so the contour runs on until the point arrays end, and the
      read past them panics. */
  lemma NegativeContourEnd(a: Vector, b: Vector)
    ensures Decode(Glyph([-1], [a, b], [1, 1])) ==
            Trace([MoveTo(a), LineTo(b)], Some(PointOutOfRange(2, 2)), 2)
  {
    var g := Glyph([-1], [a, b], [1, 1]);
    var last := UsizeModulus - 1;
    assert ContourEnd(g.contours[0]) == last;
    assert Segment(g, 2, last) == Err(PointOutOfRange(2, 2));
    assert Body(g, 2, last) == Trace([], Some(PointOutOfRange(2, 2)), 2);
    assert Segment(g, 1, last) == Ok((LineTo(b), 2));
    assert Body(g, 1, last) == Trace([LineTo(b)], Some(PointOutOfRange(2, 2)), 2);
    assert Contours(g, 0, 0) == Prepend([MoveTo(a)], Rest(g, 0, Body(g, 1, last)));
  }
}
