/** The rectangle rule of the interactive region selector in
    `tracker/capture/screen.py`. The overlay window and its event loop are
    left out; what the user does is an input: a press-drag-release with its
    two screen points, or the Escape key. */
module Screen {
  import opened Wrappers

  /** Width and height must both exceed this many pixels. */
  const MinSide: int := 10

  datatype Point = Point(x: int, y: int)

  /** `{"x", "y", "width", "height"}` in absolute screen coordinates. */
  datatype Region = Region(x: int, y: int, width: int, height: int)

  datatype Gesture = Drag(press: Point, release: Point) | Escape

  function Min(a: int, b: int): int
  {
    if a <= b then a else b
  }

  function Max(a: int, b: int): int
  {
    if a <= b then b else a
  }

  function Abs(a: int): int
  {
    if a < 0 then -a else a
  }

  /** The rectangle spanned by two corners, however they were dragged. */
  function Span(p: Point, q: Point): (r: Region)
    ensures r.width >= 0 && r.height >= 0
    ensures r.x == Min(p.x, q.x) && r.y == Min(p.y, q.y)
    ensures r.x + r.width == Max(p.x, q.x) && r.y + r.height == Max(p.y, q.y)
  {
    Region(Min(p.x, q.x), Min(p.y, q.y), Abs(q.x - p.x), Abs(q.y - p.y))
  }

  /** `select_region_interactive`: a drag yields the spanned rectangle when
      it is more than `MinSide` pixels in both directions, and nothing
      otherwise; Escape yields nothing. */
  function SelectRegion(g: Gesture): (r: Option<Region>)
    ensures g.Escape? ==> r.None?
    ensures g.Drag? ==> (r.Some? <==> Abs(g.release.x - g.press.x) > MinSide && Abs(g.release.y - g.press.y) > MinSide)
    ensures r.Some? ==> r.value.width > MinSide && r.value.height > MinSide
    ensures r.Some? ==> r.value == Span(g.press, g.release)
  {
    match g
    case Escape => None
    case Drag(p, q) =>
      var s := Span(p, q);
      if s.width > MinSide && s.height > MinSide then Some(s) else None
  }

  /** Dragging from either corner to the other selects the same region. */
  lemma {:induction false} DirectionDoesNotMatter(p: Point, q: Point)
    ensures SelectRegion(Drag(p, q)) == SelectRegion(Drag(q, p))
  {
  }

  /** The selected region contains both corners: its left and top edges are
      at the smaller coordinates and its right and bottom edges at the larger. */
  lemma {:induction false} RegionContainsBothCorners(p: Point, q: Point)
    requires SelectRegion(Drag(p, q)).Some?
    ensures var r := SelectRegion(Drag(p, q)).value;
      && r.x <= p.x <= r.x + r.width && r.x <= q.x <= r.x + r.width
      && r.y <= p.y <= r.y + r.height && r.y <= q.y <= r.y + r.height
  {
  }
}
