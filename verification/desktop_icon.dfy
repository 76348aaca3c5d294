/** The press-drag-release gesture of one desktop icon: a drag only starts
    once the pointer has travelled five pixels, and an icon that was dragged
    does not open on the double click that ends the gesture. */
module DesktopIcon {
  import opened Wrappers
  import opened Geometry

  /** `dragStateRef.current`. */
  datatype DragState = DragState(
    isDragging: bool,
    hasMoved: bool,
    startX: int,
    startY: int,
    iconStartX: int,
    iconStartY: int)

  const Idle := DragState(false, false, 0, 0, 0, 0)

  /** Pixels the pointer must travel before an icon starts to follow it. */
  const DragThreshold := 5

  /** `Math.sqrt(dx*dx + dy*dy) < 5`, stated without the square root. */
  predicate WithinThreshold(dx: int, dy: int) {
    dx * dx + dy * dy < DragThreshold * DragThreshold
  }

  /** `handleMouseDown`: a new gesture from the pointer and the icon's
      current position. */
  function MouseDown(pointer: Point, icon: Point): (s: DragState)
    ensures s.isDragging && !s.hasMoved
    ensures s.startX == pointer.x && s.startY == pointer.y
    ensures s.iconStartX == icon.x && s.iconStartY == icon.y
  {
    DragState(true, false, pointer.x, pointer.y, icon.x, icon.y)
  }

  /** `handleMouseMove`: the new state and the position reported to the
      desktop, if any. */
  function MouseMove(s: DragState, pointer: Point): (r: (DragState, Option<Point>))
    ensures !s.isDragging ==> r == (s, None)
    ensures s.isDragging && !s.hasMoved && WithinThreshold(pointer.x - s.startX, pointer.y - s.startY) ==> r == (s, None)
    ensures s.isDragging && (s.hasMoved || !WithinThreshold(pointer.x - s.startX, pointer.y - s.startY)) ==>
              && r.0 == s.(hasMoved := true)
              && r.1 == Some(Point(s.iconStartX + (pointer.x - s.startX), s.iconStartY + (pointer.y - s.startY)))
    ensures s.hasMoved ==> r.0.hasMoved
    ensures r.1.Some? <==> r.0.hasMoved && s.isDragging
  {
    if !s.isDragging then (s, None)
    else
      var dx, dy := pointer.x - s.startX, pointer.y - s.startY;
      if !s.hasMoved && WithinThreshold(dx, dy) then (s, None)
      else (s.(hasMoved := true), Some(Point(s.iconStartX + dx, s.iconStartY + dy)))
  }

  /** `handleMouseUp`: the gesture ends but remembers whether it moved. */
  function MouseUp(s: DragState): (r: DragState)
    ensures !r.isDragging && r.hasMoved == s.hasMoved
    ensures s.isDragging ==> r == s.(isDragging := false)
    ensures !s.isDragging ==> r == s
  {
    if s.isDragging then s.(isDragging := false) else s
  }

  /** `handleDoubleClick`: whether the project is opened. */
  function DoubleClick(s: DragState): (opens: bool)
    ensures opens <==> !s.hasMoved
  {
    !s.hasMoved
  }

  // ---------------------------------------------------------------------
  // Whole gestures
  // ---------------------------------------------------------------------

  /** The state after a run of pointer moves. */
  function Moves(s: DragState, ps: seq<Point>): DragState
    decreases |ps|
  {
    if |ps| == 0 then s else Moves(MouseMove(s, ps[0]).0, ps[1..])
  }

  /** Some move of the run travelled at least the threshold from the press. */
  predicate SomeFarMove(s: DragState, ps: seq<Point>) {
    exists i :: 0 <= i < |ps| && !WithinThreshold(ps[i].x - s.startX, ps[i].y - s.startY)
  }

  /** During a gesture the icon counts as moved exactly when some pointer
      position so far was five or more pixels from the press; the press
      point and the icon origin never change. */
  lemma {:induction false} MovedIffFarMove(s: DragState, ps: seq<Point>)
    requires s.isDragging
    ensures var t := Moves(s, ps);
            && t.isDragging
            && t.startX == s.startX && t.startY == s.startY
            && t.iconStartX == s.iconStartX && t.iconStartY == s.iconStartY
            && (t.hasMoved <==> s.hasMoved || SomeFarMove(s, ps))
    decreases |ps|
  {
    if |ps| > 0 {
      var s' := MouseMove(s, ps[0]).0;
      MovedIffFarMove(s', ps[1..]);
      if SomeFarMove(s, ps[1..]) {
        var i :| 0 <= i < |ps[1..]| && !WithinThreshold(ps[1..][i].x - s.startX, ps[1..][i].y - s.startY);
        assert ps[i + 1] == ps[1..][i];
      }
      if SomeFarMove(s, ps) && !SomeFarMove(s, ps[1..]) {
        var i :| 0 <= i < |ps| && !WithinThreshold(ps[i].x - s.startX, ps[i].y - s.startY);
        if i > 0 {
          assert ps[1..][i - 1] == ps[i];
        }
      }
    }
  }

  /** A press, moves that all stay within the threshold, a release and a
      double click open the project; a single far move prevents it. */
  lemma ClickOpensUnlessDragged(pointer: Point, icon: Point, ps: seq<Point>)
    ensures var s := MouseDown(pointer, icon);
            DoubleClick(MouseUp(Moves(s, ps))) <==> !SomeFarMove(s, ps)
  {
    MovedIffFarMove(MouseDown(pointer, icon), ps);
  }
}
