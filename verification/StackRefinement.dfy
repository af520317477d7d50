/** The main theorems about the window manager: the refinement of the recency stack, and
    the exact condition under which the active window is the topmost one. */
module StackRefinement {
  import opened Wrappers
  import opened WindowState
  import opened WindowInvariants
  import opened RecencyStack

  // ---------- Searching the store and searching the stack agree ----------

  lemma {:induction false} KeysOf(line: seq<Placed>, k: Key)
    ensures k in Keys(line) <==> exists p :: p in line && KeyOf(p) == k
  {
    if line != [] {
      KeysOf(line[..|line| - 1], k);
      assert forall p :: p in line <==> p in line[..|line| - 1] || p == line[|line| - 1];
    }
  }

  lemma KeyIsOpen(s: State, k: Key)
    requires Core(s)
    ensures k in Abstract(s).stack
            <==> exists w :: w in WindowsOn(s.windows, k.desktop) && k == KeyOf(Placed(k.desktop, w))
  {
    var all := PlacedIn(s.windows);
    KeysOf(SortedByZ(all), k);
    if w :| w in WindowsOn(s.windows, k.desktop) && k == KeyOf(Placed(k.desktop, w)) {
      assert Placed(k.desktop, w) in all;
    }
    if p :| p in all && KeyOf(p) == k {
      assert p.window in WindowsOn(s.windows, k.desktop);
    }
  }

  /** A predicate on keys that only the i-th window of a desktop meets finds that window. */
  lemma FindAgrees(s: State, d: string, i: nat, p: Key -> bool)
    requires Core(s) && i < |WindowsOn(s.windows, d)|
    requires p(KeyOf(Placed(d, WindowsOn(s.windows, d)[i])))
    requires forall k :: p(k) ==> k.desktop == d
    requires forall w :: w in WindowsOn(s.windows, d) && p(KeyOf(Placed(d, w))) ==> w == WindowsOn(s.windows, d)[i]
    ensures FindLast(Abstract(s).stack, p) == Some(KeyOf(Placed(d, WindowsOn(s.windows, d)[i])))
  {
    var key := KeyOf(Placed(d, WindowsOn(s.windows, d)[i]));
    KeyIsOpen(s, key);
    forall k | k in Abstract(s).stack && p(k) ensures k == key {
      KeyIsOpen(s, k);
    }
  }

  lemma FindAppAgrees(s: State, d: string, app: string)
    requires Core(s)
    ensures var ws := WindowsOn(s.windows, d);
            match IndexOfApp(ws, app)
            case Some(i) => FindApp(Abstract(s).stack, d, app) == Some(KeyOf(Placed(d, ws[i])))
            case None => FindApp(Abstract(s).stack, d, app) == None
  {
    var ws := WindowsOn(s.windows, d);
    match IndexOfApp(ws, app)
    case Some(i) =>
      forall w | w in ws && w.appId == app ensures w == ws[i] { SameWindow(ws, i, w); }
      FindAgrees(s, d, i, (k: Key) => k.desktop == d && k.appId == app);
    case None =>
      forall k | k in Abstract(s).stack && k.desktop == d ensures k.appId != app { KeyIsOpen(s, k); }
  }

  lemma FindIdAgrees(s: State, d: string, id: string)
    requires Core(s)
    ensures var ws := WindowsOn(s.windows, d);
            match IndexOfId(ws, id)
            case Some(i) => FindId(Abstract(s).stack, d, id) == Some(KeyOf(Placed(d, ws[i])))
            case None => FindId(Abstract(s).stack, d, id) == None
  {
    var ws := WindowsOn(s.windows, d);
    match IndexOfId(ws, id)
    case Some(i) =>
      forall w | w in ws && w.id == id ensures w == ws[i] { SameWindow(ws, i, w); }
      FindAgrees(s, d, i, (k: Key) => k.desktop == d && k.id == id);
    case None =>
      forall k | k in Abstract(s).stack && k.desktop == d ensures k.id != id { KeyIsOpen(s, k); }
  }

  lemma {:induction false} TopOfLine(line: seq<Placed>, p: Placed)
    requires Ascending(line) && p in line
    requires forall q :: q in line && q.desktop == p.desktop ==> q.window.zIndex <= p.window.zIndex
    ensures FindTop(Keys(line), p.desktop) == Some(KeyOf(p))
  {
    var last, front := line[|line| - 1], line[..|line| - 1];
    assert Keys(line)[..|Keys(line)| - 1] == Keys(front);
    var i :| 0 <= i < |line| && line[i] == p;
    if last != p {
      assert front[i] == p && p.window.zIndex < last.window.zIndex && last in line;
      assert forall q :: q in front ==> q in line;
      TopOfLine(front, p);
    }
  }

  lemma FindTopAgrees(s: State, d: string)
    requires Core(s)
    ensures var ws := WindowsOn(s.windows, d);
            FindTop(Abstract(s).stack, d)
            == if ws == [] then None else Some(KeyOf(Placed(d, ws[TopIndex(ws)])))
  {
    var ws, all := WindowsOn(s.windows, d), PlacedIn(s.windows);
    if ws == [] {
      forall k | k in Abstract(s).stack ensures k.desktop != d { KeyIsOpen(s, k); }
    } else {
      var p := Placed(d, ws[TopIndex(ws)]);
      assert p.window in ws;
      forall q | q in SortedByZ(all) && q.desktop == d ensures q.window.zIndex <= p.window.zIndex {
        assert q in all && q.window in ws;
      }
      TopOfLine(SortedByZ(all), p);
    }
  }

  // ---------- One step ----------

  lemma RaiseRefines(s: State, d: string, i: nat)
    requires Core(s) && d in s.windows && i < |s.windows[d]|
    ensures Core(Raise(s, d, i))
    ensures Abstract(Raise(s, d, i)).stack == ToTop(Abstract(s).stack, KeyOf(Placed(d, s.windows[d][i])))
  {
    RaiseKeepsCore(s, d, i);
    var w := s.windows[d][i];
    assert w in s.windows[d];
    RaiseMovesToTop(PlacedIn(s.windows), Placed(d, w), Placed(d, w.(zIndex := s.nextZIndex)));
  }

  /** Changing a window's mode or geometry leaves the stack alone. */
  lemma SetWindowRefines(s: State, d: string, i: nat, w: Window)
    requires Core(s) && d in s.windows && i < |s.windows[d]|
    requires var v := s.windows[d][i]; w.id == v.id && w.appId == v.appId && w.zIndex == v.zIndex
    ensures Core(SetWindow(s, d, i, w)) && Abstract(SetWindow(s, d, i, w)) == Abstract(s)
  {
    ReplaceKeepsCore(s, d, i, w, s.nextZIndex);
    assert s.windows[d][i] in s.windows[d];
    ReplaceKeepsStack(PlacedIn(s.windows), Placed(d, s.windows[d][i]), Placed(d, w));
  }

  lemma ActiveApart(s: State, active: map<string, Option<string>>)
    requires Core(s)
    ensures Core(s.(active := active)) && Abstract(s.(active := active)) == Recency(Abstract(s).stack, active)
  {
  }

  lemma SavedApart(s: State, d: string, i: nat, saved: map<string, Rect>)
    requires Core(s) && i < |WindowsOn(s.windows, d)|
    requires forall id :: id in saved ==> id in s.saved || id == WindowsOn(s.windows, d)[i].id
    ensures Core(s.(saved := saved)) && Abstract(s.(saved := saved)) == Abstract(s)
  {
    hide Separate;
    assert Placed(d, WindowsOn(s.windows, d)[i]) in PlacedIn(s.windows);
  }

  lemma MaybeCompactRefines(s: State)
    requires Core(s)
    ensures Core(MaybeCompact(s)) && Abstract(MaybeCompact(s)) == Abstract(s)
  {
    CompactInvisible(s);
  }

  lemma ReopenRefines(s: State, d: string, i: nat)
    requires Core(s) && d in s.windows && i < |s.windows[d]|
    ensures var w, active := s.windows[d][i], s.active[d := Some(s.windows[d][i].id)];
            var s' := Raise(SetWindow(s, d, i, w.(mode := Normal)), d, i).(active := active);
            Core(s') && Abstract(s') == Recency(ToTop(Abstract(s).stack, KeyOf(Placed(d, w))), active)
  {
    hide Core, Abstract, Raise, ToTop;
    var w := s.windows[d][i];
    var s1 := SetWindow(s, d, i, w.(mode := Normal));
    SetWindowRefines(s, d, i, w.(mode := Normal));
    RaiseRefines(s1, d, i);
    ActiveApart(Raise(s1, d, i), s.active[d := Some(w.id)]);
  }

  lemma AppendRefines(s: State, d: string, w: Window)
    requires Core(s) && w.zIndex == s.nextZIndex && IndexOfApp(WindowsOn(s.windows, d), w.appId).None?
    requires forall p :: p in PlacedIn(s.windows) ==> p.window.id != w.id
    ensures var s' := s.(windows := s.windows[d := WindowsOn(s.windows, d) + [w]],
                         active := s.active[d := Some(w.id)], nextZIndex := s.nextZIndex + 1);
            Core(s') && Abstract(s') == Recency(Abstract(s).stack + [KeyOf(Placed(d, w))], s'.active)
  {
    OpenNewKeepsCore(s, d, w);
    AppendEffect(s, d, w);
    AddPushes(PlacedIn(s.windows), Placed(d, w));
  }

  lemma AbstractActive(s: State)
    requires Core(s)
    ensures Abstract(s).active == s.active
  {
  }

  lemma OpenOldRefines(s: State, a: Action, i: nat)
    requires Core(s) && a.Open? && IndexOfApp(WindowsOn(s.windows, a.desktop), a.app) == Some(i)
    ensures var s' := OpenRaw(s, a.desktop, a.app, a.defaults, a.freshId, a.viewport);
            Core(s') && Abstract(s') == AbstractStep(Abstract(s), a)
  {
    hide Core, Abstract, Raise, SetWindow, ToTop, FindApp, IndexOfApp;
    AbstractActive(s);
    FindAppAgrees(s, a.desktop, a.app);
    ReopenRefines(s, a.desktop, i);
  }

  lemma OpenNewRefines(s: State, a: Action)
    requires Core(s) && a.Open? && IndexOfApp(WindowsOn(s.windows, a.desktop), a.app).None? && Legal(s, a)
    ensures var s' := OpenRaw(s, a.desktop, a.app, a.defaults, a.freshId, a.viewport);
            Core(s') && Abstract(s') == AbstractStep(Abstract(s), a)
  {
    hide Core, Abstract, FindApp, NewWindow, IndexOfApp, ToTop;
    var w := NewWindow(a.app, a.defaults, a.freshId, a.viewport, s.nextZIndex);
    NewWindowPlacement(a.app, a.defaults, a.freshId, a.viewport, s.nextZIndex);
    AbstractActive(s);
    FindAppAgrees(s, a.desktop, a.app);
    AppendRefines(s, a.desktop, w);
  }

  lemma OpenRefines(s: State, d: string, app: string, defaults: Defaults, id: string, vp: Viewport)
    requires Core(s) && Legal(s, Open(d, app, defaults, id, vp))
    ensures Core(OpenRaw(s, d, app, defaults, id, vp))
    ensures Abstract(OpenRaw(s, d, app, defaults, id, vp))
         == AbstractStep(Abstract(s), Open(d, app, defaults, id, vp))
  {
    hide Core, Abstract, OpenRaw, AbstractStep, Legal;
    match IndexOfApp(WindowsOn(s.windows, d), app)
    case Some(i) => OpenOldRefines(s, Open(d, app, defaults, id, vp), i);
    case None => OpenNewRefines(s, Open(d, app, defaults, id, vp));
  }

  lemma CloseRefines(s: State, d: string, id: string)
    requires Core(s)
    ensures Core(CloseRaw(s, d, id))
    ensures Abstract(CloseRaw(s, d, id)) == AbstractStep(Abstract(s), Close(d, id))
  {
    var s1 := RemoveWindow(s, d, id);
    RemoveEffect(s, d, id);
    RemoveDrops(PlacedIn(s.windows), PlacedIn(s1.windows), d, id);
    FindTopAgrees(s1, d);
    if IsActive(s, d, id) && s1.windows[d] != [] {
      RaiseRefines(s1, d, TopIndex(s1.windows[d]));
    }
  }

  lemma FocusRefines(s: State, d: string, id: string)
    requires Core(s)
    ensures Core(FocusStep(s, d, id))
    ensures Abstract(FocusStep(s, d, id)) == AbstractStep(Abstract(s), Focus(d, id))
  {
    hide Core, MaybeCompact, Raise, ToTop, FindId;
    FindIdAgrees(s, d, id);
    match IndexOfId(WindowsOn(s.windows, d), id)
    case Some(i) =>
      RaiseRefines(s, d, i);
      MaybeCompactRefines(Raise(s, d, i));
      ActiveApart(MaybeCompact(Raise(s, d, i)), s.active[d := Some(id)]);
    case None => ActiveApart(s, s.active[d := Some(id)]);
  }

  /** The remaining actions that name a window leave the stack and the active ids alone. */
  lemma QuietRefines(s: State, a: Action)
    requires Core(s) && (a.Move? || a.Minimize? || a.Maximize? || a.Restore?)
    ensures Core(Step(s, a)) && Abstract(Step(s, a)) == Abstract(s)
  {
    hide Core, Abstract;
    var ws := WindowsOn(s.windows, a.desktop);
    match IndexOfId(ws, a.id) {
      case None =>
      case Some(i) =>
        var w :=
          if a.Move? then ws[i].(rect := a.rect)
          else if a.Minimize? then ws[i].(mode := Minimized)
          else if a.Maximize? then ws[i].(mode := Maximized, rect := FullRect(a.viewport))
          else ws[i].(mode := Normal, rect := if a.id in s.saved then s.saved[a.id] else ws[i].rect);
        SetWindowRefines(s, a.desktop, i, w);
        SavedApart(SetWindow(s, a.desktop, i, w), a.desktop, i, Step(s, a).saved);
    }
  }

  lemma ViewRefines(s: State, a: Action)
    requires Core(s) && (a.SetActiveDesktop? || a.SetViewMode?)
    ensures Core(Step(s, a)) && Abstract(Step(s, a)) == Abstract(s)
  {
    hide SetOk, DistinctRows, PlacedIn, SortedByZ, Keys;
  }

  lemma InitialRefines()
    ensures Inv(INITIAL) && Abstract(INITIAL) == EMPTY
  {
    InitialInv();
    assert PlacedIn(INITIAL.windows) == {};
  }

  /** Every action acts on the sorted windows exactly as the abstract machine acts on its
      stack, and sets the same active ids. */
  lemma StepRefines(s: State, a: Action)
    requires Inv(s) && Legal(s, a)
    ensures Inv(Step(s, a)) && Abstract(Step(s, a)) == AbstractStep(Abstract(s), a)
  {
    hide SetOk, DistinctRows, Abstract, OpenRaw, CloseRaw, FocusStep, MaybeCompact;
    StepKeepsInv(s, a);
    match a
    case Open(d, app, defaults, id, vp) =>
      OpenRefines(s, d, app, defaults, id, vp);
      MaybeCompactRefines(OpenRaw(s, d, app, defaults, id, vp));
    case Close(d, id) =>
      CloseRefines(s, d, id);
      MaybeCompactRefines(CloseRaw(s, d, id));
    case Focus(d, id) => FocusRefines(s, d, id);
    case Move(_, _, _) => QuietRefines(s, a);
    case Minimize(_, _) => QuietRefines(s, a);
    case Maximize(_, _, _) => QuietRefines(s, a);
    case Restore(_, _) => QuietRefines(s, a);
    case SetActiveDesktop(_) => ViewRefines(s, a);
    case SetViewMode(_) => ViewRefines(s, a);
    case Reset => InitialRefines();
  }

  /** Whole runs: sorting every window by zIndex always gives the recency stack. */
  lemma {:induction false} RunRefines(actions: seq<Action>)
    requires LegalRun(INITIAL, actions)
    ensures Inv(Run(INITIAL, actions))
    ensures Abstract(Run(INITIAL, actions)) == AbstractRun(EMPTY, actions)
  {
    hide SetOk, DistinctRows;
    if actions == [] {
      InitialRefines();
    } else {
      var before := actions[..|actions| - 1];
      RunRefines(before);
      StepRefines(Run(INITIAL, before), actions[|actions| - 1]);
    }
  }

  // ---------- The active window ----------

  /** Each desktop's active id is its topmost window's, and null or absent without windows. */
  ghost predicate ActiveIsTop(s: State) {
    forall d :: ActiveOn(s, d)
  }

  ghost predicate ActiveOn(s: State, d: string) {
    var ws := WindowsOn(s.windows, d);
    if ws == [] then d in s.active ==> s.active[d] == None
    else IsActive(s, d, ws[TopIndex(ws)].id)
  }

  /** The same, said of the stack. */
  ghost predicate StackActive(r: Recency, d: string) {
    match FindTop(r.stack, d)
    case None => d in r.active ==> r.active[d] == None
    case Some(k) => d in r.active && r.active[d] == Some(k.id)
  }

  lemma {:induction false} DropKeepsTop(stack: seq<Key>, d: string, id: string, e: string)
    requires var top := FindTop(stack, e); e != d || top.None? || top.value.id != id
    ensures FindTop(Drop(stack, d, id), e) == FindTop(stack, e)
  {
    if stack != [] {
      var front, last := stack[..|stack| - 1], stack[|stack| - 1];
      if last.desktop == e {
        var rest := Drop(front, d, id);
        assert (rest + [last])[|rest|] == last;
      } else {
        DropKeepsTop(front, d, id, e);
        var rest := Drop(front, d, id);
        assert (rest + [last])[..|rest|] == rest;
      }
    }
  }

  lemma PushTop(stack: seq<Key>, k: Key, e: string)
    ensures FindTop(stack + [k], e) == if k.desktop == e then Some(k) else FindTop(stack, e)
  {
    assert (stack + [k])[..|stack|] == stack;
  }

  lemma ToTopTop(stack: seq<Key>, k: Key, e: string)
    ensures FindTop(ToTop(stack, k), e) == if k.desktop == e then Some(k) else FindTop(stack, e)
  {
    PushTop(Drop(stack, k.desktop, k.id), k, e);
    if k.desktop != e { DropKeepsTop(stack, k.desktop, k.id, e); }
  }

  lemma OpenKeepsStackActive(r: Recency, a: Action, e: string)
    requires StackActive(r, e) && a.Open?
    ensures StackActive(AbstractStep(r, a), e)
  {
    match FindApp(r.stack, a.desktop, a.app)
    case Some(k) => ToTopTop(r.stack, k, e);
    case None => PushTop(r.stack, Key(a.desktop, a.freshId, a.app), e);
  }

  lemma CloseKeepsStackActive(r: Recency, a: Action, e: string)
    requires StackActive(r, e) && a.Close?
    ensures StackActive(AbstractStep(r, a), e)
  {
    var rest := Drop(r.stack, a.desktop, a.id);
    if a.desktop in r.active && r.active[a.desktop] == Some(a.id) {
      if e != a.desktop { DropKeepsTop(r.stack, a.desktop, a.id, e); }
      if FindTop(rest, a.desktop).Some? { ToTopTop(rest, FindTop(rest, a.desktop).value, e); }
    } else {
      DropKeepsTop(r.stack, a.desktop, a.id, e);
    }
  }

  /** On desktop `e`, one abstract step keeps the active id on the topmost window unless
      it focuses an id that is not on that desktop. */
  lemma StackActiveStep(r: Recency, a: Action, e: string)
    requires StackActive(r, e)
    requires a.Focus? && a.desktop == e ==> FindId(r.stack, e, a.id).Some?
    ensures StackActive(AbstractStep(r, a), e)
  {
    match a
    case Open(_, _, _, _, _) => OpenKeepsStackActive(r, a, e);
    case Close(_, _) => CloseKeepsStackActive(r, a, e);
    case Focus(d, id) => if FindId(r.stack, d, id).Some? { ToTopTop(r.stack, FindId(r.stack, d, id).value, e); }
    case _ =>
  }

  lemma ActiveAgrees(s: State, d: string)
    requires Core(s)
    ensures ActiveOn(s, d) <==> StackActive(Abstract(s), d)
  {
    FindTopAgrees(s, d);
  }

  /** The condition on a caller of `focusWindow`: the window is on the desktop named. */
  ghost predicate Targeted(s: State, a: Action) {
    a.Focus? ==> IndexOfId(WindowsOn(s.windows, a.desktop), a.id).Some?
  }

  lemma TargetedKeepsActive(s: State, a: Action, e: string)
    requires Inv(s) && Legal(s, a) && ActiveOn(s, e) && Targeted(s, a)
    ensures ActiveOn(Step(s, a), e)
  {
    hide SetOk, DistinctRows;
    StepRefines(s, a);
    ActiveAgrees(s, e);
    if a.Focus? { FindIdAgrees(s, a.desktop, a.id); }
    StackActiveStep(Abstract(s), a, e);
    ActiveAgrees(Step(s, a), e);
  }

  lemma UntargetedBreaksActive(s: State, d: string, id: string)
    requires IndexOfId(WindowsOn(s.windows, d), id).None?
    ensures !ActiveOn(FocusStep(s, d, id), d)
  {
  }

  /** From a good store, a step leaves every active id on its topmost window if and only if
      it does not focus an id that is not on the desktop it names. */
  lemma ActiveExact(s: State, a: Action)
    requires Inv(s) && Legal(s, a) && ActiveIsTop(s)
    ensures ActiveIsTop(Step(s, a)) <==> Targeted(s, a)
  {
    hide SetOk, DistinctRows;
    if Targeted(s, a) {
      forall e ensures ActiveOn(Step(s, a), e) {
        TargetedKeepsActive(s, a, e);
      }
    } else {
      UntargetedBreaksActive(s, a.desktop, a.id);
    }
  }

  ghost predicate TargetedRun(s: State, actions: seq<Action>) {
    actions == [] ||
    (TargetedRun(s, actions[..|actions| - 1])
     && Targeted(Run(s, actions[..|actions| - 1]), actions[|actions| - 1]))
  }

  lemma {:induction false} RunActive(actions: seq<Action>)
    requires LegalRun(INITIAL, actions) && TargetedRun(INITIAL, actions)
    ensures ActiveIsTop(Run(INITIAL, actions))
  {
    hide SetOk, DistinctRows;
    if actions != [] {
      var before := actions[..|actions| - 1];
      RunActive(before);
      ReachableInv(before);
      ActiveExact(Run(INITIAL, before), actions[|actions| - 1]);
    }
  }
}
