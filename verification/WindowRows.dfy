/** What every action makes of every desktop's list of windows, position by position, and of
    the store's other fields. */
module WindowRows {
  import opened Wrappers
  import opened WindowState
  import opened WindowInvariants
  import opened MaximizeRestore
  import opened Sequences

  /** The same window, whatever its zIndex. */
  predicate ButZ(v: Window, w: Window) {
    v == w.(zIndex := v.zIndex)
  }

  /** The same windows in the same order. */
  ghost predicate SameRow(now: seq<Window>, was: seq<Window>) {
    |now| == |was| && forall i :: 0 <= i < |was| ==> ButZ(now[i], was[i])
  }

  lemma SameRowTwice(a: seq<Window>, b: seq<Window>, c: seq<Window>)
    requires SameRow(a, b) && SameRow(b, c)
    ensures SameRow(a, c)
  {
    forall i | 0 <= i < |c| ensures ButZ(a[i], c[i]) {
      assert ButZ(a[i], b[i]) && ButZ(b[i], c[i]);
    }
  }

  lemma CompactRow(s: State, d: string)
    ensures SameRow(WindowsOn(MaybeCompact(s).windows, d), WindowsOn(s.windows, d))
  {
    hide Rank;
  }

  lemma RaiseRow(s: State, e: string, i: nat, d: string)
    requires e in s.windows && i < |s.windows[e]|
    ensures SameRow(WindowsOn(Raise(s, e, i).windows, d), WindowsOn(s.windows, d))
  {
  }

  // ---------- Opening ----------

  /** Opening an app that is not on the desktop appends one window. Given fields are taken as
      they are; a missing width or height is 680 or 520, and a missing position centres the window
      in the viewport if that leaves at least 16 on the left and 72 at the top. */
  lemma OpenedWindow(s: State, d: string, app: string, defaults: Defaults, id: string, vp: Viewport)
    requires forall w :: w in WindowsOn(s.windows, d) ==> w.appId != app
    ensures var row := WindowsOn(s.windows, d);
            var row' := WindowsOn(Step(s, Open(d, app, defaults, id, vp)).windows, d);
            && |row'| == |row| + 1
            && SameRow(row'[..|row|], row)
            && var w := row'[|row|];
               var r := w.rect;
               && w.id == id && w.appId == app
               && w.mode == (if defaults.mode.Some? then defaults.mode.value else Normal)
               && r.width == (if defaults.width.Some? then defaults.width.value else 680.0)
               && r.height == (if defaults.height.Some? then defaults.height.value else 520.0)
               && (defaults.x.Some? ==> r.x == defaults.x.value)
               && (defaults.y.Some? ==> r.y == defaults.y.value)
               && (defaults.x.None? ==>
                     if vp.width - r.width >= 32.0 then r.x == vp.width - (r.x + r.width) else r.x == 16.0)
               && (defaults.y.None? ==>
                     if vp.height - r.height >= 216.0 then r.y + 72.0 == vp.height - (r.y + r.height) else r.y == 72.0)
  {
    hide MaybeCompact, NewWindow, GetOr;
    var row, raw := WindowsOn(s.windows, d), OpenRaw(s, d, app, defaults, id, vp);
    NewWindowPlacement(app, defaults, id, vp, s.nextZIndex);
    CompactRow(raw, d);
    assert WindowsOn(raw.windows, d) == row + [NewWindow(app, defaults, id, vp, s.nextZIndex)];
    var row' := WindowsOn(MaybeCompact(raw).windows, d);
    assert ButZ(row'[|row|], WindowsOn(raw.windows, d)[|row|]);
    forall i | 0 <= i < |row| ensures ButZ(row'[..|row|][i], row[i]) {
      assert ButZ(row'[i], WindowsOn(raw.windows, d)[i]);
    }
  }

  // ---------- Closing ----------

  lemma {:induction false} WithoutCuts(ws: seq<Window>, id: string, k: nat)
    requires DistinctRow(ws) && k < |ws| && ws[k].id == id
    ensures Without(ws, id) == ws[..k] + ws[k + 1..]
  {
    hide DistinctRow;
    DistinctTail(ws);
    if k == 0 {
      WithoutNone(ws[1..], id);
    } else {
      WithoutCuts(ws[1..], id, k - 1);
      CutTail(ws, k);
      assert ws[1..][k - 1].id != ws[0].id;
    }
  }

  lemma DistinctTail(ws: seq<Window>)
    requires DistinctRow(ws) && ws != []
    ensures DistinctRow(ws[1..]) && forall i :: 0 <= i < |ws[1..]| ==> ws[1..][i].id != ws[0].id
  {
  }

  lemma {:induction false} WithoutNone(ws: seq<Window>, id: string)
    requires forall i :: 0 <= i < |ws| ==> ws[i].id != id
    ensures Without(ws, id) == ws
  {
    if ws != [] { WithoutNone(ws[1..], id); }
  }

  lemma CloseRow(s: State, e: string, id: string, d: string)
    ensures SameRow(WindowsOn(Step(s, Close(e, id)).windows, d),
                    if d == e then Without(WindowsOn(s.windows, d), id) else WindowsOn(s.windows, d))
  {
    hide MaybeCompact, Raise;
    var s1, raw := RemoveWindow(s, e, id), CloseRaw(s, e, id);
    if s1.windows[e] != [] { RaiseRow(s1, e, TopIndex(s1.windows[e]), d); }
    CompactRow(raw, d);
    SameRowTwice(WindowsOn(MaybeCompact(raw).windows, d), WindowsOn(raw.windows, d), WindowsOn(s1.windows, d));
  }

  /** Closing cuts the window out of its desktop's list and keeps the order of the others; an id
      that is not there, or another desktop, is left alone. */
  lemma ClosedRow(s: State, e: string, id: string, d: string)
    requires Core(s)
    ensures var row, row' := WindowsOn(s.windows, d), WindowsOn(Step(s, Close(e, id)).windows, d);
            && (forall k :: 0 <= k < |row| && d == e && row[k].id == id ==> SameRow(row', row[..k] + row[k + 1..]))
            && (d != e || (forall w :: w in row ==> w.id != id) ==> SameRow(row', row))
  {
    hide Step, SetOk;
    var row := WindowsOn(s.windows, d);
    CloseRow(s, e, id, d);
    if d == e && exists k :: 0 <= k < |row| && row[k].id == id {
      forall k | 0 <= k < |row| && row[k].id == id ensures Without(row, id) == row[..k] + row[k + 1..] {
        WithoutCuts(row, id, k);
      }
    } else if d == e {
      WithoutNone(row, id);
    }
  }

  // ---------- The other actions ----------

  lemma FocusRow(s: State, e: string, id: string, d: string)
    ensures SameRow(WindowsOn(Step(s, Focus(e, id)).windows, d), WindowsOn(s.windows, d))
  {
    hide MaybeCompact, Raise;
    match IndexOfId(WindowsOn(s.windows, e), id)
    case None =>
    case Some(i) =>
      RaiseRow(s, e, i, d);
      CompactRow(Raise(s, e, i), d);
      SameRowTwice(WindowsOn(MaybeCompact(Raise(s, e, i)).windows, d), WindowsOn(Raise(s, e, i).windows, d),
                   WindowsOn(s.windows, d));
  }

  lemma ReopenRow(s: State, a: Action, i: nat, d: string)
    requires a.Open? && IndexOfApp(WindowsOn(s.windows, a.desktop), a.app) == Some(i)
    ensures var row := WindowsOn(s.windows, d);
            SameRow(WindowsOn(Step(s, a).windows, d),
                    if d == a.desktop then row[i := row[i].(mode := Normal)] else row)
  {
    hide MaybeCompact, Raise;
    var s1 := SetWindow(s, a.desktop, i, s.windows[a.desktop][i].(mode := Normal));
    var s2 := Raise(s1, a.desktop, i);
    RaiseRow(s1, a.desktop, i, d);
    CompactRow(OpenRaw(s, a.desktop, a.app, a.defaults, a.freshId, a.viewport), d);
    SameRowTwice(WindowsOn(Step(s, a).windows, d), WindowsOn(s2.windows, d), WindowsOn(s1.windows, d));
  }

  lemma OpenElsewhere(s: State, a: Action, d: string)
    requires a.Open? && a.desktop != d
    ensures SameRow(WindowsOn(Step(s, a).windows, d), WindowsOn(s.windows, d))
  {
    hide MaybeCompact, NewWindow;
    CompactRow(OpenRaw(s, a.desktop, a.app, a.defaults, a.freshId, a.viewport), d);
  }

  /** The windows an action finds keep their places, and each becomes what the action makes of it. */
  ghost predicate RowBecomes(s: State, a: Action, row': seq<Window>, d: string) {
    var row := WindowsOn(s.windows, d);
    && |row'| == |row|
    && forall i :: 0 <= i < |row| ==>
         Effect(s, a, d, row[i]).Some? && ButZ(row'[i], Effect(s, a, d, row[i]).value)
  }

  ghost predicate RowFollows(s: State, a: Action, d: string) {
    RowBecomes(s, a, WindowsOn(Step(s, a).windows, d), d)
  }

  lemma SetFollows(s: State, s': State, a: Action, k: nat, d: string)
    requires a.Move? || a.Minimize? || a.Maximize? || a.Restore?
    requires IndexOfId(WindowsOn(s.windows, a.desktop), a.id) == Some(k) && DistinctRow(s.windows[a.desktop])
    requires var w := Effect(s, a, a.desktop, s.windows[a.desktop][k]).value;
             s'.windows == s.windows[a.desktop := s.windows[a.desktop][k := w]]
    ensures RowBecomes(s, a, WindowsOn(s'.windows, d), d)
  {
    var ws := s.windows[a.desktop];
    forall i | 0 <= i < |ws| && ws[i].id == a.id ensures i == k {
      assert !(i < k) && !(k < i);
    }
  }

  lemma QuietStep(s: State, a: Action, k: nat)
    requires a.Move? || a.Minimize? || a.Maximize? || a.Restore?
    requires IndexOfId(WindowsOn(s.windows, a.desktop), a.id) == Some(k)
    ensures var w := Effect(s, a, a.desktop, s.windows[a.desktop][k]).value;
            Step(s, a).windows == s.windows[a.desktop := s.windows[a.desktop][k := w]]
  {
    var ws := s.windows[a.desktop];
    if a.Move? && ws[k].mode == Maximized {
      assert ws[k := ws[k]] == ws && s.windows[a.desktop := ws] == s.windows;
    }
  }

  lemma QuietRow(s: State, a: Action, d: string)
    requires Core(s) && (a.Move? || a.Minimize? || a.Maximize? || a.Restore?)
    ensures RowFollows(s, a, d)
  {
    hide SetOk, Effect, RowBecomes;
    match IndexOfId(WindowsOn(s.windows, a.desktop), a.id)
    case None => NothingFound(s, a, d);
    case Some(k) =>
      QuietStep(s, a, k);
      SetFollows(s, Step(s, a), a, k, d);
  }

  lemma NothingFound(s: State, a: Action, d: string)
    requires a.Move? || a.Minimize? || a.Maximize? || a.Restore?
    requires IndexOfId(WindowsOn(s.windows, a.desktop), a.id).None?
    ensures RowFollows(s, a, d)
  {
    var ws := WindowsOn(s.windows, a.desktop);
    assert forall i :: 0 <= i < |ws| ==> ws[i] in ws;
  }

  lemma ReopenFollows(s: State, a: Action, d: string)
    requires Core(s) && a.Open? && exists w :: w in WindowsOn(s.windows, a.desktop) && w.appId == a.app
    ensures RowFollows(s, a, d)
  {
    hide SetOk, Step;
    var ws := WindowsOn(s.windows, a.desktop);
    var k := IndexOfApp(ws, a.app).value;
    ReopenRow(s, a, k, d);
    forall i | 0 <= i < |ws| && ws[i].appId == a.app ensures i == k {
      assert !(i < k) && !(k < i);
    }
  }

  /** Every action but a reset, the close of a window of this desktop and the opening of a new one
      on it leaves the list's windows in their places. */
  lemma OtherRows(s: State, a: Action, d: string)
    requires Core(s) && !a.Reset?
    requires a.Close? ==> a.desktop != d || forall w :: w in WindowsOn(s.windows, d) ==> w.id != a.id
    requires a.Open? ==> a.desktop != d || exists w :: w in WindowsOn(s.windows, d) && w.appId == a.app
    ensures RowFollows(s, a, d)
  {
    hide Core, MaybeCompact, SetWindow, Raise;
    match a
    case Open(e, app, _, _, _) =>
      if e == d { ReopenFollows(s, a, d); } else { OpenElsewhere(s, a, d); }
    case Close(e, id) =>
      ClosedRow(s, e, id, d);
      assert forall i :: 0 <= i < |WindowsOn(s.windows, d)| ==> WindowsOn(s.windows, d)[i] in WindowsOn(s.windows, d);
    case Focus(e, id) => FocusRow(s, e, id, d);
    case Move(_, _, _) => QuietRow(s, a, d);
    case Minimize(_, _) => QuietRow(s, a, d);
    case Maximize(_, _, _) => QuietRow(s, a, d);
    case Restore(_, _) => QuietRow(s, a, d);
    case _ =>
  }

  // ---------- The other fields ----------

  /** The actions that hand out the next zIndex: an open, a focus of a window that is there, and the
      close of the active window when another one is left. */
  ghost predicate Lifts(s: State, a: Action) {
    match a
    case Open(_, _, _, _, _) => true
    case Close(d, id) =>
      && d in s.active && s.active[d] == Some(id)
      && exists w :: w in WindowsOn(s.windows, d) && w.id != id
    case Focus(d, id) => exists w :: w in WindowsOn(s.windows, d) && w.id == id
    case _ => false
  }

  /** The next zIndex after an action: one more if the action lifts, and all windows renumbered
      exactly when an open, a close or a successful focus would leave it above 10000. */
  lemma NextIndexExact(s: State, a: Action)
    requires Inv(s) && Legal(s, a)
    ensures var next := if Lifts(s, a) then s.nextZIndex + 1 else s.nextZIndex;
            Step(s, a).nextZIndex
            == if a.Reset? then 100
               else if (a.Open? || a.Close? || (a.Focus? && Lifts(s, a))) && next > 10000
               then 101 + |PlacedIn(Step(s, a).windows)|
               else next
  {
    hide Core, Legal, Compact, PlacedIn, NewWindow;
    match a
    case Open(d, app, defaults, id, vp) =>
      OpenIsCore(s, d, app, defaults, id, vp);
      CompactedNext(OpenRaw(s, d, app, defaults, id, vp));
    case Close(d, id) =>
      InvIsCore(s);
      CloseRawKeepsCore(s, d, id);
      CompactedNext(CloseRaw(s, d, id));
      LeftOver(WindowsOn(s.windows, d), id);
    case Focus(d, id) =>
      InvIsCore(s);
      match IndexOfId(WindowsOn(s.windows, d), id) {
        case None =>
        case Some(i) =>
          assert WindowsOn(s.windows, d)[i] in WindowsOn(s.windows, d);
          RaiseKeepsCore(s, d, i);
          CompactedNext(Raise(s, d, i));
      }
    case _ => QuietNext(s, a);
  }

  lemma InvIsCore(s: State)
    requires Inv(s)
    ensures Core(s)
  {
  }

  lemma OpenIsCore(s: State, d: string, app: string, defaults: Defaults, id: string, vp: Viewport)
    requires Inv(s) && Legal(s, Open(d, app, defaults, id, vp))
    ensures Core(OpenRaw(s, d, app, defaults, id, vp))
  {
    OpenRawKeepsCore(s, d, app, defaults, id, vp);
  }

  lemma LeftOver(ws: seq<Window>, id: string)
    ensures Without(ws, id) != [] <==> exists w :: w in ws && w.id != id
  {
    if Without(ws, id) != [] { assert Without(ws, id)[0] in Without(ws, id); }
  }

  lemma CompactedNext(s: State)
    requires Core(s)
    ensures MaybeCompact(s).nextZIndex
         == if s.nextZIndex > 10000 then 101 + |PlacedIn(MaybeCompact(s).windows)| else s.nextZIndex
  {
    hide Core, Compact;
    CompactKeepsCore(s);
  }

  lemma QuietNext(s: State, a: Action)
    requires !a.Open? && !a.Close? && !a.Focus?
    ensures Step(s, a).nextZIndex == if a.Reset? then 100 else s.nextZIndex
  {
  }

  lemma CompactKeepsView(s: State)
    ensures MaybeCompact(s).activeDesktop == s.activeDesktop && MaybeCompact(s).view == s.view
  {
  }

  /** The shown desktop and the view mode change only by their own actions and a reset. */
  lemma ViewExact(s: State, a: Action)
    ensures var s' := Step(s, a);
            && s'.activeDesktop == (if a.SetActiveDesktop? then Some(a.desktop)
                                    else if a.Reset? then None else s.activeDesktop)
            && s'.view == (if a.SetViewMode? then a.mode else if a.Reset? then DesktopView else s.view)
  {
    hide MaybeCompact, NewWindow, FullRect;
    match a
    case Open(d, app, defaults, id, vp) => CompactKeepsView(OpenRaw(s, d, app, defaults, id, vp));
    case Close(d, id) => CompactKeepsView(CloseRaw(s, d, id));
    case Focus(d, id) => CompactKeepsView(FocusRaw(s, d, id));
    case _ =>
  }
}
