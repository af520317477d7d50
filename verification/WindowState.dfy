/** The desktop window manager's store as a value, and every action as a function from
    one store to the next. The class in `WindowManagerStore` performs the same actions in place
    and is proved equal to these functions. Geometry is over `real`; the size of the
    viewport and the generated window id are arguments. */
module WindowState {
  import opened Numbers
  import opened Wrappers

  const Z_INDEX_BASE := 100
  const Z_INDEX_COMPACT_THRESHOLD := 10000
  const MENUBAR_HEIGHT := 36.0
  const DEFAULT_WINDOW_WIDTH := 680.0
  const DEFAULT_WINDOW_HEIGHT := 520.0

  datatype Mode = Normal | Minimized | Maximized

  datatype ViewMode = DesktopView | WebsiteView

  datatype Rect = Rect(x: real, y: real, width: real, height: real)

  datatype Viewport = Viewport(width: real, height: real)

  datatype Window = Window(id: string, appId: string, rect: Rect, mode: Mode, zIndex: int)

  /** The optional fields a caller of `openApp` may give. */
  datatype Defaults = Defaults(
    x: Option<real>, y: Option<real>, width: Option<real>, height: Option<real>, mode: Option<Mode>)

  datatype State = State(
    windows: map<string, seq<Window>>,
    active: map<string, Option<string>>,
    nextZIndex: int,
    saved: map<string, Rect>,
    activeDesktop: Option<string>,
    view: ViewMode)

  const INITIAL := State(map[], map[], Z_INDEX_BASE, map[], None, DesktopView)

  /** A window together with the desktop it is on. */
  datatype Placed = Placed(desktop: string, window: Window)

  datatype Action =
    | Open(desktop: string, app: string, defaults: Defaults, freshId: string, viewport: Viewport)
    | Close(desktop: string, id: string)
    | Focus(desktop: string, id: string)
    | Move(desktop: string, id: string, rect: Rect)
    | Minimize(desktop: string, id: string)
    | Maximize(desktop: string, id: string, viewport: Viewport)
    | Restore(desktop: string, id: string)
    | SetActiveDesktop(desktop: string)
    | SetViewMode(mode: ViewMode)
    | Reset

  function WindowsOn(windows: map<string, seq<Window>>, desktop: string): seq<Window> {
    if desktop in windows then windows[desktop] else []
  }

  // ---------- Searching one desktop ----------

  /** The first window satisfying `p`, as `Array.find` returns it. */
  function IndexWhere(ws: seq<Window>, p: Window -> bool): (r: Option<nat>)
    ensures r.Some? ==> r.value < |ws| && p(ws[r.value]) && forall j :: 0 <= j < r.value ==> !p(ws[j])
    ensures r.None? ==> forall j :: 0 <= j < |ws| ==> !p(ws[j])
  {
    if ws == [] then None
    else if p(ws[0]) then Some(0)
    else
      match IndexWhere(ws[1..], p)
      case None => None
      case Some(i) => Some(i + 1)
  }

  function IndexOfId(ws: seq<Window>, id: string): (r: Option<nat>)
    ensures r.Some? ==> r.value < |ws| && ws[r.value].id == id
    ensures r.None? <==> forall w :: w in ws ==> w.id != id
  {
    IndexWhere(ws, (w: Window) => w.id == id)
  }

  function IndexOfApp(ws: seq<Window>, app: string): (r: Option<nat>)
    ensures r.Some? ==> r.value < |ws| && ws[r.value].appId == app
    ensures r.None? <==> forall w :: w in ws ==> w.appId != app
  {
    IndexWhere(ws, (w: Window) => w.appId == app)
  }

  function Without(ws: seq<Window>, id: string): (r: seq<Window>)
    ensures forall w :: w in r <==> w in ws && w.id != id
  {
    if ws == [] then []
    else if ws[0].id == id then Without(ws[1..], id)
    else [ws[0]] + Without(ws[1..], id)
  }

  /** The head of the list sorted by descending zIndex. */
  function TopIndex(ws: seq<Window>): (t: nat)
    requires ws != []
    ensures t < |ws|
    ensures forall j :: 0 <= j < |ws| ==> ws[j].zIndex <= ws[t].zIndex
    ensures forall j :: 0 <= j < t ==> ws[j].zIndex < ws[t].zIndex
  {
    if |ws| == 1 then 0
    else
      var t := TopIndex(ws[..|ws| - 1]);
      if ws[t].zIndex < ws[|ws| - 1].zIndex then |ws| - 1 else t
  }

  // ---------- All windows of all desktops ----------

  function PlacedIn(windows: map<string, seq<Window>>): (r: set<Placed>)
    ensures forall p :: p in r <==> p.desktop in windows && p.window in windows[p.desktop]
  {
    set d, w | d in windows && w in windows[d] :: Placed(d, w)
  }

  /** How many windows lie strictly below `z`. */
  function Rank(all: set<Placed>, z: int): nat {
    |set p | p in all && p.window.zIndex < z|
  }

  function Renumber(all: set<Placed>, w: Window): Window {
    w.(zIndex := Z_INDEX_BASE + Rank(all, w.zIndex))
  }

  function RenumberRow(all: set<Placed>, ws: seq<Window>): seq<Window> {
    seq(|ws|, i requires 0 <= i < |ws| => Renumber(all, ws[i]))
  }

  function Compact(s: State): State {
    var all := PlacedIn(s.windows);
    s.(windows := map d | d in s.windows :: RenumberRow(all, s.windows[d]),
       nextZIndex := Z_INDEX_BASE + |all| + 1)
  }

  function MaybeCompact(s: State): State {
    if s.nextZIndex > Z_INDEX_COMPACT_THRESHOLD then Compact(s) else s
  }

  // ---------- The actions ----------

  function SetWindow(s: State, d: string, i: nat, w: Window): State
    requires d in s.windows && i < |s.windows[d]|
  {
    s.(windows := s.windows[d := s.windows[d][i := w]])
  }

  function Raise(s: State, d: string, i: nat): State
    requires d in s.windows && i < |s.windows[d]|
  {
    SetWindow(s, d, i, s.windows[d][i].(zIndex := s.nextZIndex)).(nextZIndex := s.nextZIndex + 1)
  }

  function NewWindow(app: string, defaults: Defaults, id: string, vp: Viewport, z: int): Window {
    var width := GetOr(defaults.width, DEFAULT_WINDOW_WIDTH);
    var height := GetOr(defaults.height, DEFAULT_WINDOW_HEIGHT);
    var x := GetOr(defaults.x, MaxReal(16.0, (vp.width - width) / 2.0));
    var y := GetOr(defaults.y, MaxReal(MENUBAR_HEIGHT * 2.0, (vp.height - height) / 2.0 - MENUBAR_HEIGHT));
    Window(id, app, Rect(x, y, width, height), GetOr(defaults.mode, Normal), z)
  }

  /** `openApp` up to compaction. */
  function OpenRaw(s: State, d: string, app: string, defaults: Defaults, id: string, vp: Viewport): State {
    var ws := WindowsOn(s.windows, d);
    match IndexOfApp(ws, app)
    case Some(i) =>
      Raise(SetWindow(s, d, i, ws[i].(mode := Normal)), d, i).(active := s.active[d := Some(ws[i].id)])
    case None =>
      s.(windows := s.windows[d := ws + [NewWindow(app, defaults, id, vp, s.nextZIndex)]],
         active := s.active[d := Some(id)],
         nextZIndex := s.nextZIndex + 1)
  }

  function IsActive(s: State, d: string, id: string): bool {
    d in s.active && s.active[d] == Some(id)
  }

  /** `closeWindow` before a successor is made active. */
  function RemoveWindow(s: State, d: string, id: string): State {
    s.(windows := s.windows[d := Without(WindowsOn(s.windows, d), id)], saved := s.saved - {id})
  }

  /** `closeWindow` up to compaction. */
  function CloseRaw(s: State, d: string, id: string): State {
    var s1 := RemoveWindow(s, d, id);
    var remaining := s1.windows[d];
    if !IsActive(s, d, id) then s1
    else if remaining == [] then s1.(active := s.active[d := None])
    else
      var t := TopIndex(remaining);
      Raise(s1, d, t).(active := s.active[d := Some(remaining[t].id)])
  }

  function FocusRaw(s: State, d: string, id: string): State {
    match IndexOfId(WindowsOn(s.windows, d), id)
    case Some(i) => Raise(s, d, i)
    case None => s
  }

  /** `focusWindow` compacts only when it found the window. */
  function FocusStep(s: State, d: string, id: string): State {
    var s1 := FocusRaw(s, d, id);
    var s2 := if IndexOfId(WindowsOn(s.windows, d), id).Some? then MaybeCompact(s1) else s1;
    s2.(active := s.active[d := Some(id)])
  }

  function MoveStep(s: State, d: string, id: string, rect: Rect): State {
    var ws := WindowsOn(s.windows, d);
    match IndexOfId(ws, id)
    case Some(i) => if ws[i].mode == Maximized then s else SetWindow(s, d, i, ws[i].(rect := rect))
    case None => s
  }

  function MinimizeStep(s: State, d: string, id: string): State {
    var ws := WindowsOn(s.windows, d);
    match IndexOfId(ws, id)
    case Some(i) => SetWindow(s, d, i, ws[i].(mode := Minimized))
    case None => s
  }

  function FullRect(vp: Viewport): Rect {
    Rect(0.0, MENUBAR_HEIGHT, vp.width, vp.height - MENUBAR_HEIGHT)
  }

  function MaximizeStep(s: State, d: string, id: string, vp: Viewport): State {
    var ws := WindowsOn(s.windows, d);
    match IndexOfId(ws, id)
    case Some(i) =>
      var s1 := if ws[i].mode != Maximized then s.(saved := s.saved[id := ws[i].rect]) else s;
      SetWindow(s1, d, i, ws[i].(mode := Maximized, rect := FullRect(vp)))
    case None => s
  }

  function RestoreStep(s: State, d: string, id: string): State {
    var ws := WindowsOn(s.windows, d);
    match IndexOfId(ws, id)
    case Some(i) =>
      if id in s.saved then
        SetWindow(s, d, i, ws[i].(mode := Normal, rect := s.saved[id])).(saved := s.saved - {id})
      else
        SetWindow(s, d, i, ws[i].(mode := Normal))
    case None => s
  }

  function Step(s: State, a: Action): State {
    match a
    case Open(d, app, defaults, id, vp) => MaybeCompact(OpenRaw(s, d, app, defaults, id, vp))
    case Close(d, id) => MaybeCompact(CloseRaw(s, d, id))
    case Focus(d, id) => FocusStep(s, d, id)
    case Move(d, id, rect) => MoveStep(s, d, id, rect)
    case Minimize(d, id) => MinimizeStep(s, d, id)
    case Maximize(d, id, vp) => MaximizeStep(s, d, id, vp)
    case Restore(d, id) => RestoreStep(s, d, id)
    case SetActiveDesktop(d) => s.(activeDesktop := Some(d))
    case SetViewMode(mode) => s.(view := mode)
    case Reset => INITIAL
  }

  // ---------- Runs ----------

  /** The one thing a run assumes: a generated id is not the id of a window that is open. */
  ghost predicate Legal(s: State, a: Action) {
    a.Open? ==> forall p :: p in PlacedIn(s.windows) ==> p.window.id != a.freshId
  }

  function Run(s: State, actions: seq<Action>): State {
    if actions == [] then s else Step(Run(s, actions[..|actions| - 1]), actions[|actions| - 1])
  }

  ghost predicate LegalRun(s: State, actions: seq<Action>) {
    actions == [] ||
    (LegalRun(s, actions[..|actions| - 1])
     && Legal(Run(s, actions[..|actions| - 1]), actions[|actions| - 1]))
  }
}
