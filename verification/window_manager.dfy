/** The window manager of the application shell: the list of open windows
    with their z-order, the focused window, the one live pointer gesture
    (drag or resize) and the snap preview, as a reducer over immutable state.
    The desktop rectangle, the viewport and the pointer are parameters. */
module WindowManager {
  import opened Wrappers
  import opened Types
  import opened Geometry

  /** The geometry saved when a window is maximized. */
  datatype Saved = Saved(position: Point, size: Size)

  datatype Window = Window(
    id: string,
    title: string,
    icon: string,
    position: Point,
    size: Size,
    zIndex: int,
    isMaximized: bool,
    preMaximizedState: Option<Saved>)

  datatype Action = Drag | ResizeAction

  /** The live pointer gesture (`activeActionRef.current`). */
  datatype Session = Session(id: string, action: Action, direction: string, startPos: Point, startRect: Rect)

  datatype Desk = Desk(
    windows: seq<Window>,
    nextZIndex: int,
    activeWindow: Option<string>,
    session: Option<Session>,
    snapPreview: Option<SnapPreview>)

  const Initial := Desk([], 1, None, None, None)

  /** What `openWindow` reads from its surroundings: the project list, the
      sign-in state, the viewport size and the random placement offset. */
  datatype Env = Env(projects: seq<Project>, isLoggedIn: bool, viewport: Size, offset: Point)

  // ---------------------------------------------------------------------
  // Queries and invariants
  // ---------------------------------------------------------------------

  predicate HasWindow(ws: seq<Window>, id: string) {
    exists i :: 0 <= i < |ws| && ws[i].id == id
  }

  /** `windows.find(w => w.id === id)`. */
  function FindWindow(ws: seq<Window>, id: string): (r: Option<Window>)
    ensures r.Some? ==> r.value in ws && r.value.id == id
    ensures r.None? <==> !HasWindow(ws, id)
  {
    if |ws| == 0 then None
    else if ws[0].id == id then Some(ws[0])
    else
      var r := FindWindow(ws[1..], id);
      assert HasWindow(ws[1..], id) ==> HasWindow(ws, id) by {
        if HasWindow(ws[1..], id) {
          var i :| 0 <= i < |ws[1..]| && ws[1..][i].id == id;
          assert ws[i + 1].id == id;
        }
      }
      r
  }

  predicate UniqueIds(ws: seq<Window>) {
    forall i, j :: 0 <= i < j < |ws| ==> ws[i].id != ws[j].id
  }

  /** Every z-index was handed out before `nextZIndex`. */
  predicate BelowNext(d: Desk) {
    forall i :: 0 <= i < |d.windows| ==> d.windows[i].zIndex < d.nextZIndex
  }

  /** Two different windows never share a z-index. */
  predicate DistinctZ(ws: seq<Window>) {
    forall i, j :: 0 <= i < |ws| && 0 <= j < |ws| && ws[i].id != ws[j].id ==> ws[i].zIndex != ws[j].zIndex
  }

  /** The focused window, when open, is drawn above every other window. */
  predicate ActiveOnTop(d: Desk) {
    forall i, j :: 0 <= i < |d.windows| && 0 <= j < |d.windows|
      && d.activeWindow == Some(d.windows[i].id) && d.windows[j].id != d.windows[i].id
      ==> d.windows[j].zIndex < d.windows[i].zIndex
  }

  /** A maximized window always knows the geometry to restore to. */
  predicate MaximizedRestorable(ws: seq<Window>) {
    forall i :: 0 <= i < |ws| && ws[i].isMaximized ==> ws[i].preMaximizedState.Some?
  }

  predicate Valid(d: Desk) {
    UniqueIds(d.windows) && BelowNext(d) && DistinctZ(d.windows) && ActiveOnTop(d)
    && MaximizedRestorable(d.windows)
  }

  /** Ids and z-indices are position-for-position the same. */
  predicate SameIdsAndZ(a: seq<Window>, b: seq<Window>) {
    |a| == |b| && forall i :: 0 <= i < |a| ==> a[i].id == b[i].id && a[i].zIndex == b[i].zIndex
  }

  // ---------------------------------------------------------------------
  // Per-window update
  // ---------------------------------------------------------------------

  /** `windows.map(w => w.id === id ? f(w) : w)`. */
  function MapId(ws: seq<Window>, id: string, f: Window -> Window): (r: seq<Window>)
    ensures |r| == |ws|
    ensures forall i :: 0 <= i < |ws| ==> r[i] == (if ws[i].id == id then f(ws[i]) else ws[i])
  {
    seq(|ws|, i requires 0 <= i < |ws| => if ws[i].id == id then f(ws[i]) else ws[i])
  }

  // ---------------------------------------------------------------------
  // Focus, open and close
  // ---------------------------------------------------------------------

  /** `focusWindow(id)`. */
  function Focus(d: Desk, id: string): (r: Desk)
    ensures d.activeWindow == Some(id) ==> r == d
    ensures d.activeWindow != Some(id) ==>
              && r.activeWindow == Some(id)
              && r.nextZIndex == d.nextZIndex + 1
              && r.session == d.session && r.snapPreview == d.snapPreview
              && |r.windows| == |d.windows|
              && forall i :: 0 <= i < |d.windows| ==>
                   if d.windows[i].id == id then r.windows[i] == d.windows[i].(zIndex := d.nextZIndex)
                   else r.windows[i] == d.windows[i]
  {
    if d.activeWindow == Some(id) then d
    else
      var z := d.nextZIndex;
      d.(windows := MapId(d.windows, id, (w: Window) => w.(zIndex := z)),
         nextZIndex := z + 1,
         activeWindow := Some(id))
  }

  /** The default width a window of this id is capped at. */
  function DefaultWidth(id: string): nat {
    if id == "terminal" then 700
    else if id == "login" then 500
    else if id == "admin-panel" then 1024
    else 960
  }

  /** Height as tenths of the viewport height. */
  function HeightTenths(id: string): nat {
    if id == "terminal" then 5 else if id == "login" then 6 else 7
  }

  /** The window `openWindow` creates for a project: on top, not maximized. */
  function NewWindow(p: Project, z: int, env: Env): (w: Window)
    ensures w.id == p.id && w.title == p.name && w.icon == p.icon
    ensures w.zIndex == z && !w.isMaximized && w.preMaximizedState.None?
    ensures w.size.width <= DefaultWidth(p.id)
    ensures w.position == env.offset
    ensures 10 * w.size.width <= 8 * env.viewport.width
    ensures w.size.width == DefaultWidth(p.id) || 8 * env.viewport.width < 10 * w.size.width + 10
    ensures 10 * w.size.height <= HeightTenths(p.id) * env.viewport.height < 10 * w.size.height + 10
  {
    var fromViewport := env.viewport.width * 8 / 10;
    Window(p.id, p.name, p.icon, env.offset,
           Size(if fromViewport < DefaultWidth(p.id) then fromViewport else DefaultWidth(p.id),
                env.viewport.height * HeightTenths(p.id) / 10),
           z, false, None)
  }

  /** `openWindow(id)` once the sign-in redirect has been applied. */
  function OpenAllowed(d: Desk, env: Env, id: string): Desk {
    if HasWindow(d.windows, id) then Focus(d, id)
    else
      match FindProject(env.projects, id)
      case None => d
      case Some(p) =>
        d.(windows := d.windows + [NewWindow(p, d.nextZIndex, env)],
           nextZIndex := d.nextZIndex + 1,
           activeWindow := Some(id))
  }

  /** The id `openWindow(id)` really opens: the administrative editor is
      replaced by the login window while nobody is signed in. */
  function Target(env: Env, id: string): string {
    if id == "admin-panel" && !env.isLoggedIn then "login" else id
  }

  /** `openWindow(id)`. */
  function Open(d: Desk, env: Env, id: string): (r: Desk)
    ensures HasWindow(d.windows, Target(env, id)) ==> r == Focus(d, Target(env, id))
    ensures !HasWindow(d.windows, Target(env, id)) && FindProject(env.projects, Target(env, id)).None? ==> r == d
    ensures !HasWindow(d.windows, Target(env, id)) && FindProject(env.projects, Target(env, id)).Some? ==>
              && |r.windows| == |d.windows| + 1
              && r.windows[..|d.windows|] == d.windows
              && r.windows[|d.windows|].id == Target(env, id)
              && r.windows[|d.windows|].zIndex == d.nextZIndex
              && !r.windows[|d.windows|].isMaximized
              && r.windows[|d.windows|].preMaximizedState.None?
              && r.activeWindow == Some(Target(env, id))
              && r.nextZIndex == d.nextZIndex + 1
  {
    OpenAllowed(d, env, Target(env, id))
  }

  /** `windows.filter(w => w.id !== id)`. */
  function Without(ws: seq<Window>, id: string): (r: seq<Window>)
    ensures forall w :: w in r <==> w in ws && w.id != id
    ensures !HasWindow(r, id)
  {
    if |ws| == 0 then []
    else if ws[0].id == id then Without(ws[1..], id)
    else [ws[0]] + Without(ws[1..], id)
  }

  /** `closeWindow(id)`. */
  function Close(d: Desk, id: string): (r: Desk)
    ensures forall w :: w in r.windows <==> w in d.windows && w.id != id
    ensures r.activeWindow == (if d.activeWindow == Some(id) then None else d.activeWindow)
    ensures r.nextZIndex == d.nextZIndex && r.session == d.session && r.snapPreview == d.snapPreview
  {
    d.(windows := Without(d.windows, id),
       activeWindow := if d.activeWindow == Some(id) then None else d.activeWindow)
  }

  /** With unique ids, closing an open window removes exactly its entry and
      keeps the others in their order. */
  lemma {:induction false} CloseRemovesOne(ws: seq<Window>, k: nat)
    requires UniqueIds(ws) && k < |ws|
    ensures Without(ws, ws[k].id) == ws[..k] + ws[k + 1..]
    decreases |ws|
  {
    var id := ws[k].id;
    if k == 0 {
      WithoutAbsent(ws[1..], id);
      assert ws[..0] + ws[1..] == ws[1..];
    } else {
      var tail := ws[1..];
      assert UniqueIds(tail) by {
        forall i, j | 0 <= i < j < |tail|
          ensures tail[i].id != tail[j].id
        {
          assert tail[i] == ws[i + 1] && tail[j] == ws[j + 1];
        }
      }
      assert tail[k - 1] == ws[k];
      CloseRemovesOne(tail, k - 1);
      assert ws[0].id != id;
      assert Without(ws, id) == [ws[0]] + Without(tail, id);
      DropAround(ws, k);
    }
  }

  /** Removing element `k > 0` is keeping the head and removing element
      `k - 1` of the tail. */
  lemma DropAround<T>(xs: seq<T>, k: nat)
    requires 0 < k < |xs|
    ensures xs[..k] + xs[k + 1..] == [xs[0]] + (xs[1..][..k - 1] + xs[1..][k..])
  {
    var lhs, rhs := xs[..k] + xs[k + 1..], [xs[0]] + (xs[1..][..k - 1] + xs[1..][k..]);
    assert |lhs| == |rhs|;
    forall m | 0 <= m < |lhs|
      ensures lhs[m] == rhs[m]
    {
      if 0 < m < k {
        assert rhs[m] == xs[1..][m - 1];
      } else if m >= k {
        assert rhs[m] == xs[1..][k..][m - k];
      }
    }
  }

  /** Removing an id nobody has changes nothing. */
  lemma {:induction false} WithoutAbsent(ws: seq<Window>, id: string)
    requires forall i :: 0 <= i < |ws| ==> ws[i].id != id
    ensures Without(ws, id) == ws
    decreases |ws|
  {
    if |ws| > 0 {
      WithoutAbsent(ws[1..], id);
      assert [ws[0]] + ws[1..] == ws;
    }
  }

  lemma {:induction false} WithoutUnique(ws: seq<Window>, id: string)
    requires UniqueIds(ws)
    ensures UniqueIds(Without(ws, id))
    decreases |ws|
  {
    if |ws| > 0 {
      WithoutUnique(ws[1..], id);
      var rest := Without(ws[1..], id);
      if ws[0].id != id {
        forall j | 0 <= j < |rest|
          ensures rest[j].id != ws[0].id
        {
          assert rest[j] in ws[1..];
        }
      }
    }
  }

  // ---------------------------------------------------------------------
  // Maximize and restore
  // ---------------------------------------------------------------------

  /** One window's `toggleMaximize`; `main` is the desktop element, if any. */
  function ToggleOne(w: Window, main: Option<Bounds>): (r: Window)
    ensures r.id == w.id && r.zIndex == w.zIndex && r.title == w.title && r.icon == w.icon
  {
    if w.isMaximized then
      match w.preMaximizedState
      case Some(s) => w.(position := s.position, size := s.size, isMaximized := false, preMaximizedState := None)
      case None => w.(isMaximized := false, preMaximizedState := None)
    else
      match main
      case None => w
      case Some(b) =>
        w.(preMaximizedState := Some(Saved(w.position, w.size)),
           position := Point(0, 0),
           size := Size(b.width, b.height),
           isMaximized := true)
  }

  /** `toggleMaximize(id)`. */
  function ToggleMaximize(d: Desk, id: string, main: Option<Bounds>): (r: Desk)
    ensures SameIdsAndZ(d.windows, r.windows)
    ensures forall i :: 0 <= i < |d.windows| && d.windows[i].id != id ==> r.windows[i] == d.windows[i]
    ensures forall i :: 0 <= i < |d.windows| && d.windows[i].id == id && !d.windows[i].isMaximized && main.Some? ==>
              && r.windows[i].isMaximized
              && r.windows[i].position == Point(0, 0)
              && r.windows[i].size == Size(main.value.width, main.value.height)
              && r.windows[i].preMaximizedState == Some(Saved(d.windows[i].position, d.windows[i].size))
    ensures forall i :: (0 <= i < |d.windows| && d.windows[i].id == id && d.windows[i].isMaximized
                         && d.windows[i].preMaximizedState.Some?) ==>
              && !r.windows[i].isMaximized
              && r.windows[i].position == d.windows[i].preMaximizedState.value.position
              && r.windows[i].size == d.windows[i].preMaximizedState.value.size
              && r.windows[i].preMaximizedState.None?
    ensures r.nextZIndex == d.nextZIndex && r.activeWindow == d.activeWindow
    ensures r.session == d.session && r.snapPreview == d.snapPreview
  {
    d.(windows := MapId(d.windows, id, (w: Window) => ToggleOne(w, main)))
  }

  /** Maximizing and then restoring brings every window back to the
      geometry it had, and leaves it not maximized. */
  lemma ToggleTwiceRestores(d: Desk, id: string, b: Bounds)
    requires forall i :: 0 <= i < |d.windows| && d.windows[i].id == id ==> !d.windows[i].isMaximized
    ensures var r := ToggleMaximize(ToggleMaximize(d, id, Some(b)), id, Some(b));
            && |r.windows| == |d.windows|
            && forall i :: 0 <= i < |d.windows| ==>
                 && r.windows[i].position == d.windows[i].position
                 && r.windows[i].size == d.windows[i].size
                 && (d.windows[i].id == id ==> !r.windows[i].isMaximized && r.windows[i].preMaximizedState.None?)
                 && (d.windows[i].id != id ==> r.windows[i] == d.windows[i])
  {
    var m := ToggleMaximize(d, id, Some(b));
    var r := ToggleMaximize(m, id, Some(b));
    forall i | 0 <= i < |d.windows|
      ensures r.windows[i].position == d.windows[i].position && r.windows[i].size == d.windows[i].size
    {
      if d.windows[i].id == id {
        assert m.windows[i].isMaximized && m.windows[i].preMaximizedState == Some(Saved(d.windows[i].position, d.windows[i].size));
      }
    }
  }

  // ---------------------------------------------------------------------
  // Pointer gestures
  // ---------------------------------------------------------------------

  function StartRect(w: Window): Rect {
    Rect(w.position.x, w.position.y, w.size.width, w.size.height)
  }

  /** `handleActionStart(id, action, pointer, direction)`: focus the window,
      then begin a session unless the window is gone or is a maximized
      window being dragged. */
  function ActionStart(d: Desk, id: string, action: Action, direction: string, pointer: Point): (r: Desk)
    ensures r.windows == Focus(d, id).windows && r.nextZIndex == Focus(d, id).nextZIndex
    ensures r.activeWindow == Focus(d, id).activeWindow
    ensures !HasWindow(d.windows, id) ==> r.session == d.session
    ensures action == Drag && (forall i :: 0 <= i < |d.windows| && d.windows[i].id == id ==> d.windows[i].isMaximized) ==>
              r.session == d.session
    ensures r.session != d.session ==>
              exists i :: 0 <= i < |d.windows| && d.windows[i].id == id
                && r.session == Some(Session(id, action, direction, pointer, StartRect(d.windows[i])))
    ensures FindWindow(d.windows, id).Some? && !(action == Drag && FindWindow(d.windows, id).value.isMaximized) ==>
              r.session == Some(Session(id, action, direction, pointer, StartRect(FindWindow(d.windows, id).value)))
  {
    var focused := Focus(d, id);
    match FindWindow(d.windows, id)
    case None => focused
    case Some(w) =>
      if action == Drag && w.isMaximized then focused
      else focused.(session := Some(Session(id, action, direction, pointer, StartRect(w))))
  }

  /** The window a drag move leaves behind: moved, never maximized. */
  function Dragged(w: Window, p: Point): Window {
    w.(position := p, isMaximized := false)
  }

  /** The window a resize move leaves behind. */
  function Resized(w: Window, r: Rect): Window {
    w.(position := Point(r.x, r.y), size := Size(r.width, r.height), isMaximized := false)
  }

  /** The rectangle a resize session gives for the pointer: the start
      rectangle resized by the pointer's travel. */
  function SessionResize(s: Session, pointer: Point): Rect {
    Resize(s.startRect, s.direction, pointer.x - s.startPos.x, pointer.y - s.startPos.y)
  }

  /** `handleMouseMove(pointer)`; `main` is the desktop element, if any. */
  function MouseMove(d: Desk, pointer: Point, main: Option<Bounds>): (r: Desk)
    ensures SameIdsAndZ(d.windows, r.windows)
    ensures r.nextZIndex == d.nextZIndex && r.activeWindow == d.activeWindow && r.session == d.session
    ensures d.session.None? ==> r == d
    ensures d.session.Some? ==>
              forall i :: 0 <= i < |d.windows| && d.windows[i].id != d.session.value.id ==> r.windows[i] == d.windows[i]
    ensures d.session.Some? && d.session.value.action == Drag ==>
              && r.snapPreview == (if main.Some? then SnapFor(pointer, main.value) else d.snapPreview)
              && forall i :: 0 <= i < |d.windows| && d.windows[i].id == d.session.value.id ==>
                   && r.windows[i].position.x - d.session.value.startRect.x == pointer.x - d.session.value.startPos.x
                   && r.windows[i].position.y - d.session.value.startRect.y == pointer.y - d.session.value.startPos.y
                   && r.windows[i].size == d.windows[i].size
                   && !r.windows[i].isMaximized
    ensures d.session.Some? && d.session.value.action == ResizeAction ==>
              && r.snapPreview == d.snapPreview
              && forall i :: 0 <= i < |d.windows| && d.windows[i].id == d.session.value.id ==>
                   && r.windows[i].size.width >= MinWidth
                   && r.windows[i].size.height >= MinHeight
                   && !r.windows[i].isMaximized
    ensures d.session.Some? && d.session.value.action == ResizeAction ==>
              forall i :: 0 <= i < |d.windows| && d.windows[i].id == d.session.value.id ==>
                && r.windows[i].position == Point(SessionResize(d.session.value, pointer).x, SessionResize(d.session.value, pointer).y)
                && r.windows[i].size == Size(SessionResize(d.session.value, pointer).width, SessionResize(d.session.value, pointer).height)
    ensures d.session.Some? ==>
              forall i :: 0 <= i < |d.windows| ==> r.windows[i].preMaximizedState == d.windows[i].preMaximizedState
  {
    match d.session
    case None => d
    case Some(s) =>
      match s.action
      case Drag =>
        var p := DragTo(s.startRect, s.startPos, pointer);
        d.(snapPreview := if main.Some? then SnapFor(pointer, main.value) else d.snapPreview,
           windows := MapId(d.windows, s.id, (w: Window) => Dragged(w, p)))
      case ResizeAction =>
        var rect := SessionResize(s, pointer);
        d.(windows := MapId(d.windows, s.id, (w: Window) => Resized(w, rect)))
  }

  /** The window a snap commit leaves behind. A maximize snap saves the
      geometry the window has at release. */
  function Committed(w: Window, p: SnapPreview): Window {
    var maximizing := p.snapType == Maximized;
    w.(preMaximizedState := if maximizing then Some(Saved(w.position, w.size)) else w.preMaximizedState,
       position := Point(p.rect.x, p.rect.y),
       size := Size(p.rect.width, p.rect.height),
       isMaximized := maximizing)
  }

  /** `handleMouseUp()`. */
  function MouseUp(d: Desk): (r: Desk)
    ensures r.session.None? && r.snapPreview.None?
    ensures SameIdsAndZ(d.windows, r.windows)
    ensures r.nextZIndex == d.nextZIndex && r.activeWindow == d.activeWindow
    ensures d.session.None? || d.snapPreview.None? ==> r.windows == d.windows
    ensures d.session.Some? && d.snapPreview.Some? ==>
              forall i :: 0 <= i < |d.windows| ==>
                if d.windows[i].id != d.session.value.id then r.windows[i] == d.windows[i]
                else
                  var p := d.snapPreview.value;
                  && r.windows[i].position == Point(p.rect.x, p.rect.y)
                  && r.windows[i].size == Size(p.rect.width, p.rect.height)
                  && (r.windows[i].isMaximized <==> p.snapType == Maximized)
                  && r.windows[i].preMaximizedState ==
                       (if p.snapType == Maximized then Some(Saved(d.windows[i].position, d.windows[i].size))
                        else d.windows[i].preMaximizedState)
  {
    var ws :=
      if d.snapPreview.Some? && d.session.Some? then
        var p := d.snapPreview.value;
        MapId(d.windows, d.session.value.id, (w: Window) => Committed(w, p))
      else d.windows;
    d.(windows := ws, session := None, snapPreview := None)
  }

  // ---------------------------------------------------------------------
  // Events and the invariant
  // ---------------------------------------------------------------------

  datatype Event =
    | OpenWindow(id: string)
    | CloseWindow(id: string)
    | FocusWindow(id: string)
    | ToggleMaximizeWindow(id: string)
    | Press(id: string, action: Action, direction: string, pointer: Point)
    | PointerMove(pointer: Point)
    | Release

  /** One event, with the environment and desktop rectangle of that moment. */
  function Step(d: Desk, env: Env, main: Option<Bounds>, e: Event): Desk {
    match e
    case OpenWindow(id) => Open(d, env, id)
    case CloseWindow(id) => Close(d, id)
    case FocusWindow(id) => Focus(d, id)
    case ToggleMaximizeWindow(id) => ToggleMaximize(d, id, main)
    case Press(id, a, dir, p) => ActionStart(d, id, a, dir, p)
    case PointerMove(p) => MouseMove(d, p, main)
    case Release => MouseUp(d)
  }

  lemma InitialValid()
    ensures Valid(Initial)
  {
  }

  /** Changing neither ids nor z-indices nor the counter nor the focus keeps
      the z-order invariants. */
  lemma SameIdsAndZKeepsOrder(d: Desk, r: Desk)
    requires Valid(d) && SameIdsAndZ(d.windows, r.windows)
    requires r.nextZIndex == d.nextZIndex && r.activeWindow == d.activeWindow
    requires MaximizedRestorable(r.windows)
    ensures Valid(r)
  {
  }

  lemma FocusValid(d: Desk, id: string)
    requires Valid(d)
    ensures Valid(Focus(d, id))
  {
  }

  lemma OpenValid(d: Desk, env: Env, id: string)
    requires Valid(d)
    ensures Valid(Open(d, env, id))
  {
    var t := Target(env, id);
    if HasWindow(d.windows, t) {
      FocusValid(d, t);
    } else if FindProject(env.projects, t).Some? {
      var r := Open(d, env, id);
      assert forall i :: 0 <= i < |d.windows| ==> r.windows[i] == d.windows[i];
      assert forall i :: 0 <= i < |d.windows| ==> d.windows[i].id != t;
    }
  }

  lemma CloseValid(d: Desk, id: string)
    requires Valid(d)
    ensures Valid(Close(d, id))
  {
    var r := Close(d, id);
    WithoutUnique(d.windows, id);
    forall i | 0 <= i < |r.windows|
      ensures exists k :: 0 <= k < |d.windows| && d.windows[k] == r.windows[i]
    {
      assert r.windows[i] in d.windows;
    }
  }

  lemma ToggleValid(d: Desk, id: string, main: Option<Bounds>)
    requires Valid(d)
    ensures Valid(ToggleMaximize(d, id, main))
  {
    SameIdsAndZKeepsOrder(d, ToggleMaximize(d, id, main));
  }

  lemma ActionStartValid(d: Desk, id: string, a: Action, dir: string, p: Point)
    requires Valid(d)
    ensures Valid(ActionStart(d, id, a, dir, p))
  {
    FocusValid(d, id);
  }

  lemma MouseMoveValid(d: Desk, p: Point, main: Option<Bounds>)
    requires Valid(d)
    ensures Valid(MouseMove(d, p, main))
  {
    SameIdsAndZKeepsOrder(d, MouseMove(d, p, main));
  }

  lemma MouseUpValid(d: Desk)
    requires Valid(d)
    ensures Valid(MouseUp(d))
  {
    SameIdsAndZKeepsOrder(d, MouseUp(d));
  }

  /** Every event keeps ids unique, z-indices distinct and below the counter,
      the focused window on top, and every maximized window restorable. */
  lemma StepValid(d: Desk, env: Env, main: Option<Bounds>, e: Event)
    requires Valid(d)
    ensures Valid(Step(d, env, main, e))
  {
    match e
    case OpenWindow(id) => OpenValid(d, env, id);
    case CloseWindow(id) => CloseValid(d, id);
    case FocusWindow(id) => FocusValid(d, id);
    case ToggleMaximizeWindow(id) => ToggleValid(d, id, main);
    case Press(id, a, dir, p) => ActionStartValid(d, id, a, dir, p);
    case PointerMove(p) => MouseMoveValid(d, p, main);
    case Release => MouseUpValid(d);
  }

  /** A run of events from the empty desktop. */
  function Run(d: Desk, env: Env, main: Option<Bounds>, es: seq<Event>): Desk
    decreases |es|
  {
    if |es| == 0 then d else Run(Step(d, env, main, es[0]), env, main, es[1..])
  }

  lemma {:induction false} RunValid(d: Desk, env: Env, main: Option<Bounds>, es: seq<Event>)
    requires Valid(d)
    ensures Valid(Run(d, env, main, es))
    decreases |es|
  {
    if |es| > 0 {
      StepValid(d, env, main, es[0]);
      RunValid(Step(d, env, main, es[0]), env, main, es[1..]);
    }
  }

  // ---------------------------------------------------------------------
  // Gesture scenarios
  // ---------------------------------------------------------------------

  /** A window closed in the middle of a gesture stays closed when the
      pointer is released or moved: neither adds a window. */
  lemma ClosedWindowNotResurrected(d: Desk, id: string, p: Point, main: Option<Bounds>)
    ensures !HasWindow(MouseUp(Close(d, id)).windows, id)
    ensures !HasWindow(MouseMove(Close(d, id), p, main).windows, id)
  {
    var c := Close(d, id);
    var u := MouseUp(c);
    var m := MouseMove(c, p, main);
    assert forall i :: 0 <= i < |u.windows| ==> u.windows[i].id == c.windows[i].id;
    assert forall i :: 0 <= i < |m.windows| ==> m.windows[i].id == c.windows[i].id;
    assert !HasWindow(c.windows, id);
  }

  /** Releasing onto the maximize preview and then toggling restores the
      geometry the window had at release, not at the start of the drag. */
  lemma MaximizeSnapThenRestore(d: Desk, i: nat, main: Option<Bounds>)
    requires d.session.Some? && d.snapPreview.Some? && d.snapPreview.value.snapType == Maximized
    requires i < |d.windows| && d.windows[i].id == d.session.value.id
    ensures var r := ToggleMaximize(MouseUp(d), d.session.value.id, main);
            && r.windows[i].position == d.windows[i].position
            && r.windows[i].size == d.windows[i].size
            && !r.windows[i].isMaximized
  {
  }
}
