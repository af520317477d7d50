/** What a maximized window regains when it is restored, and exactly which steps in between
    lose the geometry it had. */
module MaximizeRestore {
  import opened Wrappers
  import opened WindowState
  import opened WindowInvariants

  function WindowAt(s: State, d: string, id: string): Option<Window> {
    match IndexOfId(WindowsOn(s.windows, d), id)
    case Some(i) => Some(s.windows[d][i])
    case None => None
  }

  /** The window is open on `d`, and `g` is the geometry restoring it would bring back. */
  ghost predicate Remembers(s: State, d: string, id: string, g: Rect) {
    WindowAt(s, d, id).Some? && id in s.saved && s.saved[id] == g
  }

  /** The steps that lose the remembered geometry. Note that closing the id on any desktop
      does, and that maximizing a window that is no longer maximized overwrites it. */
  ghost predicate Disturbs(s: State, a: Action, d: string, id: string, g: Rect) {
    match a
    case Reset => true
    case Close(_, x) => x == id
    case Restore(e, x) => e == d && x == id
    case Maximize(e, x, _) =>
      e == d && x == id
      && var w := WindowAt(s, d, id); w.Some? && w.value.mode != Maximized && w.value.rect != g
    case _ => false
  }

  // ---------- Following one window through a step ----------

  /** The window itself, whatever its zIndex is. */
  ghost predicate HasWindow(windows: map<string, seq<Window>>, d: string, w: Window) {
    exists z :: Placed(d, w.(zIndex := z)) in PlacedIn(windows)
  }

  lemma HasIsAt(s: State, d: string, w: Window)
    requires Core(s) && HasWindow(s.windows, d, w)
    ensures WindowAt(s, d, w.id).Some?
    ensures WindowAt(s, d, w.id).value == w.(zIndex := WindowAt(s, d, w.id).value.zIndex)
  {
    var z :| Placed(d, w.(zIndex := z)) in PlacedIn(s.windows);
    var v := WindowAt(s, d, w.id).value;
    assert Placed(d, v) in PlacedIn(s.windows);
  }

  lemma AtHas(s: State, d: string, id: string)
    requires WindowAt(s, d, id).Some?
    ensures HasWindow(s.windows, d, WindowAt(s, d, id).value) && WindowAt(s, d, id).value.id == id
  {
    var w := WindowAt(s, d, id).value;
    assert w in s.windows[d] && w.(zIndex := w.zIndex) == w;
    assert Placed(d, w.(zIndex := w.zIndex)) in PlacedIn(s.windows);
  }

  lemma CompactHas(s: State, d: string, w: Window)
    requires HasWindow(s.windows, d, w)
    ensures HasWindow(MaybeCompact(s).windows, d, w)
  {
    CompactEffect(s);
    var z :| Placed(d, w.(zIndex := z)) in PlacedIn(s.windows);
    var all := PlacedIn(s.windows);
    var p := RenumberPlaced(all, Placed(d, w.(zIndex := z)));
    assert p.window == w.(zIndex := p.window.zIndex);
    if s.nextZIndex > Z_INDEX_COMPACT_THRESHOLD {
      assert p in PlacedIn(Compact(s).windows);
      assert Placed(d, w.(zIndex := p.window.zIndex)) in PlacedIn(MaybeCompact(s).windows);
    }
  }

  /** Rewriting window `i` of desktop `e` leaves every other window as it was. */
  lemma SetHas(s: State, e: string, i: nat, v: Window, d: string, w: Window)
    requires Core(s) && e in s.windows && i < |s.windows[e]|
    requires v.id == s.windows[e][i].id && v.appId == s.windows[e][i].appId
    requires HasWindow(s.windows, d, w)
    ensures w.id != v.id ==> HasWindow(SetWindow(s, e, i, v).windows, d, w)
    ensures w.id == v.id ==> e == d && HasWindow(SetWindow(s, e, i, v).windows, d, v)
  {
    SetWindowEffect(s, e, i, v);
    var z :| Placed(d, w.(zIndex := z)) in PlacedIn(s.windows);
    var windows' := SetWindow(s, e, i, v).windows;
    if w.id != v.id {
      assert Placed(d, w.(zIndex := z)) in PlacedIn(windows');
    } else {
      assert Placed(e, s.windows[e][i]) == Placed(d, w.(zIndex := z));
      assert v.(zIndex := v.zIndex) == v && Placed(d, v.(zIndex := v.zIndex)) in PlacedIn(windows');
    }
  }

  /** What a step makes of an open window, zIndex aside; none when it is gone. */
  ghost function Effect(s: State, a: Action, d: string, w: Window): Option<Window> {
    match a
    case Reset => None
    case Close(e, id) => if e == d && id == w.id then None else Some(w)
    case Open(e, app, _, _, _) => Some(if e == d && app == w.appId then w.(mode := Normal) else w)
    case Move(e, id, rect) =>
      Some(if e == d && id == w.id && w.mode != Maximized then w.(rect := rect) else w)
    case Minimize(e, id) => Some(if e == d && id == w.id then w.(mode := Minimized) else w)
    case Maximize(e, id, vp) =>
      Some(if e == d && id == w.id then w.(mode := Maximized, rect := FullRect(vp)) else w)
    case Restore(e, id) =>
      Some(if e == d && id == w.id
           then w.(mode := Normal, rect := if id in s.saved then s.saved[id] else w.rect) else w)
    case _ => Some(w)
  }

  lemma RaiseHas(s: State, e: string, i: nat, d: string, w: Window)
    requires Core(s) && e in s.windows && i < |s.windows[e]| && HasWindow(s.windows, d, w)
    ensures Core(Raise(s, e, i)) && HasWindow(Raise(s, e, i).windows, d, w)
  {
    RaiseKeepsCore(s, e, i);
    var v := s.windows[e][i].(zIndex := s.nextZIndex);
    SetHas(s, e, i, v, d, w);
    if w.id == v.id {
      var z :| Placed(d, w.(zIndex := z)) in PlacedIn(s.windows);
      assert Placed(e, s.windows[e][i]) in PlacedIn(s.windows);
      assert v == w.(zIndex := v.zIndex);
      assert Placed(d, w.(zIndex := v.zIndex)) in PlacedIn(Raise(s, e, i).windows);
    }
  }

  lemma ReopenEffect(s: State, a: Action, i: nat, d: string, w: Window)
    requires Core(s) && a.Open? && HasWindow(s.windows, d, w)
    requires IndexOfApp(WindowsOn(s.windows, a.desktop), a.app) == Some(i)
    ensures var raw := OpenRaw(s, a.desktop, a.app, a.defaults, a.freshId, a.viewport);
            HasWindow(raw.windows, d, Effect(s, a, d, w).value)
  {
    hide Core, HasWindow, Raise;
    var ws := WindowsOn(s.windows, a.desktop);
    var v := ws[i].(mode := Normal);
    SetWindowKeepsCore(s, a.desktop, i, v);
    SetHas(s, a.desktop, i, v, d, w);
    var w' := if w.id == v.id then v else w;
    var s1 := SetWindow(s, a.desktop, i, v);
    RaiseHas(s1, a.desktop, i, d, w');
    AppIsAt(s, a.desktop, i, d, w);
    assert w'.(zIndex := w.zIndex) == Effect(s, a, d, w).value;
    SameButZ(Raise(s1, a.desktop, i).windows, d, w', Effect(s, a, d, w).value);
  }

  /** A window with the i-th window's id or, on its desktop, its app is that window. */
  lemma AppIsAt(s: State, e: string, i: nat, d: string, w: Window)
    requires Core(s) && HasWindow(s.windows, d, w) && e in s.windows && i < |s.windows[e]|
    ensures var v := s.windows[e][i];
            w.id == v.id || (e == d && w.appId == v.appId) ==> e == d && w == v.(zIndex := w.zIndex)
  {
    var z :| Placed(d, w.(zIndex := z)) in PlacedIn(s.windows);
    assert Placed(e, s.windows[e][i]) in PlacedIn(s.windows);
    if e == d && w.appId == s.windows[e][i].appId { SameWindow(s.windows[e], i, w.(zIndex := z)); }
  }

  lemma OpenNewEffect(s: State, a: Action, d: string, w: Window)
    requires a.Open? && HasWindow(s.windows, d, w)
    requires IndexOfApp(WindowsOn(s.windows, a.desktop), a.app) == None
    ensures Effect(s, a, d, w) == Some(w)
    ensures HasWindow(OpenRaw(s, a.desktop, a.app, a.defaults, a.freshId, a.viewport).windows, d, w)
  {
    var z :| Placed(d, w.(zIndex := z)) in PlacedIn(s.windows);
    AppendEffect(s, a.desktop, NewWindow(a.app, a.defaults, a.freshId, a.viewport, s.nextZIndex));
    assert w.(zIndex := z) in WindowsOn(s.windows, d);
    var raw := OpenRaw(s, a.desktop, a.app, a.defaults, a.freshId, a.viewport);
    assert Placed(d, w.(zIndex := z)) in PlacedIn(raw.windows);
  }

  lemma OpenEffect(s: State, a: Action, d: string, w: Window)
    requires Core(s) && a.Open? && HasWindow(s.windows, d, w)
    ensures HasWindow(Step(s, a).windows, d, Effect(s, a, d, w).value)
  {
    hide SetOk, DistinctRows, MaybeCompact, OpenRaw;
    match IndexOfApp(WindowsOn(s.windows, a.desktop), a.app) {
      case Some(i) => ReopenEffect(s, a, i, d, w);
      case None => OpenNewEffect(s, a, d, w);
    }
    CompactHas(OpenRaw(s, a.desktop, a.app, a.defaults, a.freshId, a.viewport), d, Effect(s, a, d, w).value);
  }

  lemma SameButZ(windows: map<string, seq<Window>>, d: string, v: Window, w: Window)
    requires HasWindow(windows, d, v) && v.(zIndex := w.zIndex) == w
    ensures HasWindow(windows, d, w)
  {
    var z :| Placed(d, v.(zIndex := z)) in PlacedIn(windows);
    assert v.(zIndex := z) == w.(zIndex := z);
  }

  lemma CloseEffect(s: State, a: Action, d: string, w: Window)
    requires Core(s) && a.Close? && HasWindow(s.windows, d, w) && Effect(s, a, d, w).Some?
    ensures HasWindow(Step(s, a).windows, d, w)
  {
    RemoveEffect(s, a.desktop, a.id);
    var s1 := RemoveWindow(s, a.desktop, a.id);
    var z :| Placed(d, w.(zIndex := z)) in PlacedIn(s.windows);
    assert Placed(d, w.(zIndex := z)) in PlacedIn(s1.windows);
    if IsActive(s, a.desktop, a.id) && s1.windows[a.desktop] != [] {
      RaiseHas(s1, a.desktop, TopIndex(s1.windows[a.desktop]), d, w);
    }
    CompactHas(CloseRaw(s, a.desktop, a.id), d, w);
  }

  /** Steps that rewrite one window found by id. */
  lemma QuietEffect(s: State, a: Action, d: string, w: Window)
    requires Core(s) && HasWindow(s.windows, d, w)
    requires a.Move? || a.Minimize? || a.Maximize? || a.Restore? || a.Focus?
    ensures HasWindow(Step(s, a).windows, d, Effect(s, a, d, w).value)
  {
    hide Core, HasWindow, MaybeCompact, Raise;
    HasIsAt(s, d, w);
    var ws := WindowsOn(s.windows, a.desktop);
    var v := WindowAt(s, d, w.id).value;
    match IndexOfId(ws, a.id) {
      case None =>
      case Some(i) =>
        if a.Focus? {
          RaiseHas(s, a.desktop, i, d, w);
          CompactHas(Raise(s, a.desktop, i), d, w);
        } else if !(a.Move? && ws[i].mode == Maximized) {
          var u := Effect(s, a, a.desktop, ws[i]).value;
          SetHas(s, a.desktop, i, u, d, w);
          if w.id == a.id {
            assert u.(zIndex := w.zIndex) == Effect(s, a, d, w).value;
            SameButZ(Step(s, a).windows, d, u, Effect(s, a, d, w).value);
          }
        }
    }
  }

  ghost predicate Gone(windows: map<string, seq<Window>>, d: string, id: string) {
    forall i :: 0 <= i < |WindowsOn(windows, d)| ==> WindowsOn(windows, d)[i].id != id
  }

  lemma RaiseKeepsGone(s: State, e: string, i: nat, d: string, id: string)
    requires e in s.windows && i < |s.windows[e]| && Gone(s.windows, d, id)
    ensures Gone(Raise(s, e, i).windows, d, id)
  {
    var row, row' := WindowsOn(s.windows, d), WindowsOn(Raise(s, e, i).windows, d);
    forall j | 0 <= j < |row'| ensures row'[j].id != id {
      assert row[j].id != id && row'[j].id == row[j].id;
    }
  }

  lemma CompactKeepsGone(s: State, d: string, id: string)
    requires Gone(s.windows, d, id)
    ensures Gone(MaybeCompact(s).windows, d, id)
  {
    hide Rank;
    var row, row' := WindowsOn(s.windows, d), WindowsOn(MaybeCompact(s).windows, d);
    forall j | 0 <= j < |row'| ensures row'[j].id != id {
      assert row[j].id != id && row'[j].id == row[j].id;
    }
  }

  lemma RemovedIsGone(s: State, d: string, id: string)
    ensures Gone(RemoveWindow(s, d, id).windows, d, id)
  {
    var row := Without(WindowsOn(s.windows, d), id);
    forall i | 0 <= i < |row| ensures row[i].id != id {
      assert row[i] in row;
    }
  }

  lemma GoneIsNone(s: State, d: string, id: string)
    requires Gone(s.windows, d, id)
    ensures WindowAt(s, d, id).None?
  {
  }

  lemma CloseRawIsGone(s: State, d: string, id: string)
    ensures Gone(CloseRaw(s, d, id).windows, d, id)
  {
    var s1 := RemoveWindow(s, d, id);
    RemovedIsGone(s, d, id);
    if s1.windows[d] != [] { RaiseKeepsGone(s1, d, TopIndex(s1.windows[d]), d, id); }
  }

  lemma ClosedIsGone(s: State, d: string, id: string)
    ensures WindowAt(Step(s, Close(d, id)), d, id).None?
  {
    hide Gone, CloseRaw, MaybeCompact, WindowAt;
    CloseRawIsGone(s, d, id);
    CompactKeepsGone(CloseRaw(s, d, id), d, id);
    GoneIsNone(Step(s, Close(d, id)), d, id);
  }

  /** Every action's effect on every open window, zIndex aside. */
  lemma StepEffect(s: State, a: Action, d: string, id: string)
    requires Inv(s) && Legal(s, a) && WindowAt(s, d, id).Some?
    ensures match Effect(s, a, d, WindowAt(s, d, id).value)
            case None => WindowAt(Step(s, a), d, id).None?
            case Some(w) => var v := WindowAt(Step(s, a), d, id);
                            v.Some? && v.value == w.(zIndex := v.value.zIndex)
  {
    hide SetOk, DistinctRows, Step, WindowAt;
    var w := WindowAt(s, d, id).value;
    AtHas(s, d, id);
    StepKeepsInv(s, a);
    EffectKeepsId(s, a, d, w);
    match Effect(s, a, d, w)
    case None => if a.Close? { ClosedIsGone(s, d, id); } else { ResetIsGone(s, d, id); }
    case Some(w') => StepHas(s, a, d, w); HasIsAt(Step(s, a), d, w');
  }

  lemma EffectKeepsId(s: State, a: Action, d: string, w: Window)
    ensures match Effect(s, a, d, w)
            case None => a.Reset? || (a.Close? && a.desktop == d && a.id == w.id)
            case Some(w') => w'.id == w.id
  {
  }

  lemma StepHas(s: State, a: Action, d: string, w: Window)
    requires Core(s) && HasWindow(s.windows, d, w) && Effect(s, a, d, w).Some?
    ensures HasWindow(Step(s, a).windows, d, Effect(s, a, d, w).value)
  {
    hide Core, HasWindow;
    match a {
      case Open(_, _, _, _, _) => OpenEffect(s, a, d, w);
      case Close(_, _) => CloseEffect(s, a, d, w);
      case Focus(_, _) => QuietEffect(s, a, d, w);
      case Move(_, _, _) => QuietEffect(s, a, d, w);
      case Minimize(_, _) => QuietEffect(s, a, d, w);
      case Maximize(_, _, _) => QuietEffect(s, a, d, w);
      case Restore(_, _) => QuietEffect(s, a, d, w);
      case _ =>
    }
  }

  lemma ResetIsGone(s: State, d: string, id: string)
    ensures WindowAt(Step(s, Reset), d, id).None?
  {
  }

  // ---------- The theorems ----------

  /** What a step makes of the saved geometries. */
  ghost function SavedEffect(s: State, a: Action): map<string, Rect> {
    match a
    case Reset => map[]
    case Close(_, id) => s.saved - {id}
    case Restore(e, id) => if WindowAt(s, e, id).Some? then s.saved - {id} else s.saved
    case Maximize(e, id, _) =>
      var w := WindowAt(s, e, id);
      if w.Some? && w.value.mode != Maximized then s.saved[id := w.value.rect] else s.saved
    case _ => s.saved
  }

  lemma CompactKeepsSaved(s: State)
    ensures MaybeCompact(s).saved == s.saved
  {
  }

  lemma QuietSaved(s: State, a: Action)
    requires !a.Open? && !a.Close? && !a.Focus?
    ensures Step(s, a).saved == SavedEffect(s, a)
  {
  }

  lemma SavedAfter(s: State, a: Action)
    ensures Step(s, a).saved == SavedEffect(s, a)
  {
    hide MaybeCompact, NewWindow, WindowAt, MaximizeStep, RestoreStep, MoveStep, MinimizeStep;
    match a
    case Open(d, app, defaults, id, vp) => CompactKeepsSaved(OpenRaw(s, d, app, defaults, id, vp));
    case Close(d, id) => CompactKeepsSaved(CloseRaw(s, d, id));
    case Focus(d, id) => CompactKeepsSaved(FocusRaw(s, d, id));
    case _ => QuietSaved(s, a);
  }

  /** The two effects, of a step leading from `s` to `s'`. */
  ghost predicate Follows(s: State, a: Action, s': State, d: string, id: string)
    requires WindowAt(s, d, id).Some?
  {
    && s'.saved == SavedEffect(s, a)
    && match Effect(s, a, d, WindowAt(s, d, id).value)
       case None => WindowAt(s', d, id).None?
       case Some(w) => var v := WindowAt(s', d, id); v.Some? && v.value == w.(zIndex := v.value.zIndex)
  }

  lemma StepFollows(s: State, a: Action, d: string, id: string)
    requires Inv(s) && Legal(s, a) && WindowAt(s, d, id).Some?
    ensures Follows(s, a, Step(s, a), d, id)
  {
    hide SetOk, DistinctRows;
    SavedAfter(s, a);
    StepEffect(s, a, d, id);
  }

  /** An id is open on one desktop only. */
  ghost predicate OneHome(s: State, d: string, id: string) {
    forall e :: e != d ==> WindowAt(s, e, id).None?
  }

  lemma FollowsExact(s: State, a: Action, s': State, d: string, id: string, g: Rect)
    requires Remembers(s, d, id, g) && Follows(s, a, s', d, id) && OneHome(s, d, id)
    ensures Remembers(s', d, id, g) <==> !Disturbs(s, a, d, id, g)
  {
  }

  /** A remembered geometry survives a step if and only if the step does not disturb it. */
  lemma RemembersExact(s: State, a: Action, d: string, id: string, g: Rect)
    requires Inv(s) && Legal(s, a) && Remembers(s, d, id, g)
    ensures Remembers(Step(s, a), d, id, g) <==> !Disturbs(s, a, d, id, g)
  {
    hide SetOk, DistinctRows;
    StepFollows(s, a, d, id);
    HasOneHome(s, d, id);
    FollowsExact(s, a, Step(s, a), d, id, g);
  }

  /** No step of a run disturbs the remembered geometry in the store where it is taken. */
  ghost predicate Undisturbed(s: State, actions: seq<Action>, d: string, id: string, g: Rect) {
    actions == [] ||
    (Undisturbed(s, actions[..|actions| - 1], d, id, g)
     && !Disturbs(Run(s, actions[..|actions| - 1]), actions[|actions| - 1], d, id, g))
  }

  ghost predicate RememberedThroughout(s: State, actions: seq<Action>, d: string, id: string, g: Rect) {
    Remembers(Run(s, actions), d, id, g)
    && (actions == [] || RememberedThroughout(s, actions[..|actions| - 1], d, id, g))
  }

  /** Over a whole run the geometry stays remembered if and only if no step disturbs it. */
  lemma {:induction false} RemembersThroughout(s: State, actions: seq<Action>, d: string, id: string, g: Rect)
    requires Inv(s) && LegalRun(s, actions) && Remembers(s, d, id, g)
    ensures Inv(Run(s, actions))
    ensures RememberedThroughout(s, actions, d, id, g) <==> Undisturbed(s, actions, d, id, g)
  {
    hide Step, Inv, Disturbs, Remembers;
    if actions != [] {
      var before, a := actions[..|actions| - 1], actions[|actions| - 1];
      RemembersThroughout(s, before, d, id, g);
      StepKeepsInv(Run(s, before), a);
      if Remembers(Run(s, before), d, id, g) { RemembersExact(Run(s, before), a, d, id, g); }
    }
  }

  lemma HasOneHome(s: State, d: string, id: string)
    requires Core(s) && WindowAt(s, d, id).Some?
    ensures OneHome(s, d, id)
  {
    var all := PlacedIn(s.windows);
    assert Placed(d, WindowAt(s, d, id).value) in all;
    forall e, w | e in s.windows && w in s.windows[e] && w.id == id ensures e == d {
      assert Placed(e, w) in all;
    }
  }

  /** The steps that may happen to a maximized window and to everything else meanwhile:
      it may be focused, moved and maximized again, and other windows may do anything. */
  ghost predicate LeavesMaximized(a: Action, d: string, w: Window) {
    match a
    case Reset => false
    case Close(_, id) => id != w.id
    case Restore(e, id) => !(e == d && id == w.id)
    case Minimize(e, id) => !(e == d && id == w.id)
    case Open(e, app, _, _, _) => !(e == d && app == w.appId)
    case _ => true
  }

  ghost predicate KeptMaximized(s: State, d: string, w: Window, g: Rect) {
    && Remembers(s, d, w.id, g)
    && WindowAt(s, d, w.id).value.mode == Maximized
    && WindowAt(s, d, w.id).value.appId == w.appId
  }

  lemma FollowsKeepsMaximized(s: State, a: Action, s': State, d: string, w: Window, g: Rect)
    requires KeptMaximized(s, d, w, g) && LeavesMaximized(a, d, w)
    requires Follows(s, a, s', d, w.id) && OneHome(s, d, w.id)
    ensures KeptMaximized(s', d, w, g)
  {
  }

  lemma StepKeepsMaximized(s: State, a: Action, d: string, w: Window, g: Rect)
    requires Inv(s) && Legal(s, a) && KeptMaximized(s, d, w, g) && LeavesMaximized(a, d, w)
    ensures KeptMaximized(Step(s, a), d, w, g)
  {
    hide SetOk, DistinctRows;
    StepFollows(s, a, d, w.id);
    HasOneHome(s, d, w.id);
    FollowsKeepsMaximized(s, a, Step(s, a), d, w, g);
  }

  lemma {:induction false} StaysMaximized(s: State, actions: seq<Action>, d: string, w: Window, g: Rect)
    requires Inv(s) && LegalRun(s, actions) && KeptMaximized(s, d, w, g)
    requires forall a :: a in actions ==> LeavesMaximized(a, d, w)
    ensures Inv(Run(s, actions)) && KeptMaximized(Run(s, actions), d, w, g)
  {
    hide SetOk, DistinctRows;
    if actions != [] {
      var before, a := actions[..|actions| - 1], actions[|actions| - 1];
      StaysMaximized(s, before, d, w, g);
      StepKeepsInv(Run(s, before), a);
      StepKeepsMaximized(Run(s, before), a, d, w, g);
    }
  }

  lemma FollowsMaximize(s: State, s': State, d: string, id: string, vp: Viewport)
    requires WindowAt(s, d, id).Some? && Follows(s, Maximize(d, id, vp), s', d, id)
    ensures var w := WindowAt(s, d, id).value;
            w.mode != Maximized ==> KeptMaximized(s', d, w, w.rect) && WindowAt(s', d, id).value.rect == FullRect(vp)
  {
  }

  /** A maximized window covers the viewport below the menu bar. */
  lemma MaximizedFills(s: State, d: string, id: string, vp: Viewport)
    requires Inv(s) && WindowAt(s, d, id).Some?
    ensures var v := WindowAt(Step(s, Maximize(d, id, vp)), d, id);
            && v.Some? && v.value.mode == Maximized
            && v.value.rect.x == 0.0 && v.value.rect.y == 36.0
            && v.value.rect.x + v.value.rect.width == vp.width
            && v.value.rect.y + v.value.rect.height == vp.height
  {
    hide Step, Inv;
    StepFollows(s, Maximize(d, id, vp), d, id);
  }

  lemma FollowsRestore(s: State, s': State, d: string, id: string)
    requires WindowAt(s, d, id).Some? && Follows(s, Restore(d, id), s', d, id) && id in s.saved
    ensures WindowAt(s', d, id).Some? && WindowAt(s', d, id).value.rect == s.saved[id]
    ensures WindowAt(s', d, id).value.mode == Normal && id !in s'.saved
  {
  }

  /** Maximize, then any run without a step that disturbs the remembered geometry in the store
      where it is taken, then restore: the window has exactly the geometry it had at first. */
  lemma RestoreRegains(s: State, d: string, id: string, vp: Viewport, actions: seq<Action>)
    requires Inv(s) && WindowAt(s, d, id).Some? && WindowAt(s, d, id).value.mode != Maximized
    requires LegalRun(Step(s, Maximize(d, id, vp)), actions)
    requires Undisturbed(Step(s, Maximize(d, id, vp)), actions, d, id, WindowAt(s, d, id).value.rect)
    ensures var end := Step(Run(Step(s, Maximize(d, id, vp)), actions), Restore(d, id));
            && WindowAt(end, d, id).Some?
            && WindowAt(end, d, id).value.rect == WindowAt(s, d, id).value.rect
            && WindowAt(end, d, id).value.mode == Normal
            && id !in end.saved
  {
    hide Step, Inv, Effect, SavedEffect, Disturbs;
    var w, m := WindowAt(s, d, id).value, Maximize(d, id, vp);
    var s1 := Step(s, m);
    StepKeepsInv(s, m);
    MaximizeRemembers(s, d, id, vp);
    RemembersThroughout(s1, actions, d, id, w.rect);
    var s2 := Run(s1, actions);
    StepFollows(s2, Restore(d, id), d, id);
    FollowsRestore(s2, Step(s2, Restore(d, id)), d, id);
  }

  lemma MaximizeRemembers(s: State, d: string, id: string, vp: Viewport)
    requires Inv(s) && WindowAt(s, d, id).Some? && WindowAt(s, d, id).value.mode != Maximized
    ensures KeptMaximized(Step(s, Maximize(d, id, vp)), d, WindowAt(s, d, id).value, WindowAt(s, d, id).value.rect)
  {
    hide Step, Inv;
    StepFollows(s, Maximize(d, id, vp), d, id);
    FollowsMaximize(s, Step(s, Maximize(d, id, vp)), d, id, vp);
  }

  /** A sufficient condition on the actions alone: while the window is only focused, moved or
      maximized again, whatever else happens to other windows. */
  lemma {:induction false} QuietIsUndisturbed(s: State, actions: seq<Action>, d: string, w: Window, g: Rect)
    requires Inv(s) && LegalRun(s, actions) && KeptMaximized(s, d, w, g)
    requires forall a :: a in actions ==> LeavesMaximized(a, d, w)
    ensures Undisturbed(s, actions, d, w.id, g)
  {
    hide Step, Inv;
    if actions != [] {
      var before, a := actions[..|actions| - 1], actions[|actions| - 1];
      QuietIsUndisturbed(s, before, d, w, g);
      StaysMaximized(s, before, d, w, g);
      assert a in actions && !Disturbs(Run(s, before), a, d, w.id, g);
    }
  }

  lemma FollowsReopen(s: State, a: Action, s': State, d: string, id: string)
    requires WindowAt(s, d, id).Some? && a.Open? && a.desktop == d && a.app == WindowAt(s, d, id).value.appId
    requires Follows(s, a, s', d, id)
    ensures WindowAt(s', d, id).Some? && WindowAt(s', d, id).value.mode == Normal
    ensures WindowAt(s', d, id).value.rect == WindowAt(s, d, id).value.rect
  {
  }

  /** Where the property stops: reopening the app of a maximized window and maximizing it
      once more makes the first geometry unrecoverable. */
  lemma ReopenLoses(s: State, w: Window, d: string, vp: Viewport, defaults: Defaults, freshId: string)
    requires Inv(s) && KeptMaximized(s, d, w, w.rect)
    requires WindowAt(s, d, w.id).value.rect == FullRect(vp)
    requires Legal(s, Open(d, w.appId, defaults, freshId, vp))
    ensures var reopened := Step(s, Open(d, w.appId, defaults, freshId, vp));
            var end := Step(Step(reopened, Maximize(d, w.id, vp)), Restore(d, w.id));
            WindowAt(end, d, w.id).Some? && WindowAt(end, d, w.id).value.rect == FullRect(vp)
  {
    hide SetOk, DistinctRows;
    var m, o, r := Maximize(d, w.id, vp), Open(d, w.appId, defaults, freshId, vp), Restore(d, w.id);
    var s1 := Step(s, o);
    StepKeepsInv(s, o);
    StepFollows(s, o, d, w.id);
    FollowsReopen(s, o, s1, d, w.id);
    var s2 := Step(s1, m);
    StepKeepsInv(s1, m);
    StepFollows(s1, m, d, w.id);
    FollowsMaximize(s1, s2, d, w.id, vp);
    StepFollows(s2, r, d, w.id);
    FollowsRestore(s2, Step(s2, r), d, w.id);
  }
}
