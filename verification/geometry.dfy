/** Integer window geometry: the drag translation, the eight-way resize with
    its minimum-size clamp, and the edge-snap preview of the desktop. */
module Geometry {
  import opened Wrappers
  import Text

  const MinWidth := 400
  const MinHeight := 300
  /** Pixels from a desktop edge within which a drag proposes a snap. */
  const SnapEdgeThreshold := 5

  datatype Point = Point(x: int, y: int)
  datatype Size = Size(width: int, height: int)
  datatype Rect = Rect(x: int, y: int, width: int, height: int)

  /** The desktop area (`main.getBoundingClientRect()`). */
  datatype Bounds = Bounds(left: int, top: int, width: nat, height: nat) {
    function Right(): int { left + width }
  }

  datatype SnapType = Maximized | Side
  datatype SnapPreview = SnapPreview(rect: Rect, snapType: SnapType)

  function Max(a: int, b: int): int {
    if a < b then b else a
  }

  // ---------------------------------------------------------------------
  // Drag
  // ---------------------------------------------------------------------

  /** The window position for the pointer at `pointer` when the drag began
      with the pointer at `startPos` and the window at `start`. */
  function DragTo(start: Rect, startPos: Point, pointer: Point): (p: Point)
    ensures p.x - start.x == pointer.x - startPos.x
    ensures p.y - start.y == pointer.y - startPos.y
  {
    Point(start.x + (pointer.x - startPos.x), start.y + (pointer.y - startPos.y))
  }

  // ---------------------------------------------------------------------
  // Resize
  // ---------------------------------------------------------------------

  /** Which edges a resize direction moves: `direction.includes(edge)`. */
  predicate Moves(direction: string, edge: string) {
    Text.Includes(direction, edge)
  }

  /** The rectangle for a resize that began on `start` in `direction`, with
      the pointer now `(dx, dy)` away from where it was pressed. */
  function Resize(start: Rect, direction: string, dx: int, dy: int): (r: Rect)
    ensures r.width >= MinWidth && r.height >= MinHeight
    ensures !Moves(direction, "left") ==> r.x == start.x
    ensures !Moves(direction, "top") ==> r.y == start.y
    ensures Moves(direction, "left") ==> r.x + r.width == start.x + start.width
    ensures Moves(direction, "top") ==> r.y + r.height == start.y + start.height
    ensures Moves(direction, "left") ==> r.width == Max(start.width - dx, MinWidth)
    ensures !Moves(direction, "left") && Moves(direction, "right") ==> r.width == Max(start.width + dx, MinWidth)
    ensures !Moves(direction, "left") && !Moves(direction, "right") ==> r.width == Max(start.width, MinWidth)
    ensures Moves(direction, "top") ==> r.height == Max(start.height - dy, MinHeight)
    ensures !Moves(direction, "top") && Moves(direction, "bottom") ==> r.height == Max(start.height + dy, MinHeight)
    ensures !Moves(direction, "top") && !Moves(direction, "bottom") ==> r.height == Max(start.height, MinHeight)
  {
    var left, top := Moves(direction, "left"), Moves(direction, "top");
    var w0 := if left then start.width - dx
              else if Moves(direction, "right") then start.width + dx
              else start.width;
    var h0 := if top then start.height - dy
              else if Moves(direction, "bottom") then start.height + dy
              else start.height;
    var x0 := if left then start.x + dx else start.x;
    var y0 := if top then start.y + dy else start.y;
    var x := if w0 < MinWidth && left then x0 + w0 - MinWidth else x0;
    var y := if h0 < MinHeight && top then y0 + h0 - MinHeight else y0;
    Rect(x, y, if w0 < MinWidth then MinWidth else w0, if h0 < MinHeight then MinHeight else h0)
  }

  // ---------------------------------------------------------------------
  // Snap preview
  // ---------------------------------------------------------------------

  predicate AtTopEdge(pointer: Point, b: Bounds) {
    pointer.y <= b.top + SnapEdgeThreshold
  }

  predicate AtLeftEdge(pointer: Point, b: Bounds) {
    pointer.x <= b.left + SnapEdgeThreshold
  }

  predicate AtRightEdge(pointer: Point, b: Bounds) {
    pointer.x >= b.Right() - SnapEdgeThreshold
  }

  /** `Math.ceil(n / 2)` and `Math.floor(n / 2)` for a non-negative width. */
  function CeilHalf(n: nat): nat { (n + 1) / 2 }
  function FloorHalf(n: nat): nat { n / 2 }

  /** The snap preview for a drag whose pointer is at `pointer`; the top edge
      is checked first, then the left edge, then the right edge. */
  function SnapFor(pointer: Point, b: Bounds): (r: Option<SnapPreview>)
    ensures r.None? <==> !AtTopEdge(pointer, b) && !AtLeftEdge(pointer, b) && !AtRightEdge(pointer, b)
    ensures r.Some? ==> (r.value.snapType == Maximized <==> AtTopEdge(pointer, b))
    ensures r.Some? ==> r.value.rect.y == 0 && r.value.rect.height == b.height
    ensures r.Some? && r.value.snapType == Maximized ==> r.value.rect == Rect(0, 0, b.width, b.height)
    ensures r.Some? && r.value.snapType == Side && AtLeftEdge(pointer, b) ==>
              r.value.rect.x == 0 && 2 * r.value.rect.width - 1 <= b.width <= 2 * r.value.rect.width
    ensures r.Some? && r.value.snapType == Side && !AtLeftEdge(pointer, b) ==>
              r.value.rect.x == r.value.rect.width && 2 * r.value.rect.width <= b.width <= 2 * r.value.rect.width + 1
  {
    if AtTopEdge(pointer, b) then
      Some(SnapPreview(Rect(0, 0, b.width, b.height), Maximized))
    else if AtLeftEdge(pointer, b) then
      Some(SnapPreview(Rect(0, 0, CeilHalf(b.width), b.height), Side))
    else if AtRightEdge(pointer, b) then
      Some(SnapPreview(Rect(FloorHalf(b.width), 0, FloorHalf(b.width), b.height), Side))
    else
      None
  }

  /** The two side previews: for an even desktop width they split it exactly;
      for an odd width the left half takes the extra pixel and the right half
      starts one pixel inside it and stops one pixel short of the right edge. */
  lemma SideHalves(b: Bounds, l: Point, r: Point)
    requires !AtTopEdge(l, b) && AtLeftEdge(l, b)
    requires !AtTopEdge(r, b) && !AtLeftEdge(r, b) && AtRightEdge(r, b)
    ensures var lh, rh := SnapFor(l, b).value.rect, SnapFor(r, b).value.rect;
            && lh.x == 0
            && (b.width % 2 == 0 ==> lh.width == rh.x && rh.x + rh.width == b.width)
            && (b.width % 2 == 1 ==> lh.width == rh.x + 1 && rh.x + rh.width == b.width - 1)
  {
  }
}
