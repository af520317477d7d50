/** What every reachable window-manager store satisfies. */
module WindowInvariants {
  import opened Wrappers
  import opened WindowState

  // ---------- The invariant ----------

  /** One desktop holds each window and each app at most once. */
  ghost predicate DistinctRow(ws: seq<Window>) {
    forall i, j :: 0 <= i < j < |ws| ==> ws[i].id != ws[j].id && ws[i].appId != ws[j].appId
  }

  /** Ids and zIndexes are unique across all desktops together. */
  ghost predicate Separate(all: set<Placed>) {
    && (forall p, q :: p in all && q in all && p.window.id == q.window.id ==> p == q)
    && (forall p, q :: p in all && q in all && p.window.zIndex == q.window.zIndex ==> p == q)
  }

  ghost predicate InRange(all: set<Placed>, next: int) {
    forall p :: p in all ==> Z_INDEX_BASE <= p.window.zIndex < next
  }

  ghost predicate IsOpen(all: set<Placed>, id: string) {
    exists p :: p in all && p.window.id == id
  }

  ghost predicate DistinctRows(windows: map<string, seq<Window>>) {
    forall d :: d in windows ==> DistinctRow(windows[d])
  }

  /** The part of the invariant that only speaks of the set of open windows. */
  ghost predicate SetOk(all: set<Placed>, next: int, savedIds: set<string>) {
    && Separate(all)
    && InRange(all, next)
    && Z_INDEX_BASE <= next
    && (forall id :: id in savedIds ==> IsOpen(all, id))
  }

  ghost predicate Core(s: State) {
    DistinctRows(s.windows) && SetOk(PlacedIn(s.windows), s.nextZIndex, s.saved.Keys)
  }

  function Bound(openWindows: nat): int {
    if 10000 <= 101 + openWindows then 101 + openWindows else 10000
  }

  ghost predicate Inv(s: State) {
    Core(s) && s.nextZIndex <= Bound(|PlacedIn(s.windows)|)
  }

  lemma SameWindow(ws: seq<Window>, i: nat, w: Window)
    requires DistinctRow(ws) && i < |ws| && w in ws
    requires w.id == ws[i].id || w.appId == ws[i].appId
    ensures w == ws[i]
  {
    var j :| 0 <= j < |ws| && ws[j] == w;
    assert !(i < j) && !(j < i);
  }

  // ---------- How the elementary updates change the set of windows ----------

  lemma SetWindowEffect(s: State, d: string, i: nat, w: Window)
    requires d in s.windows && i < |s.windows[d]|
    requires DistinctRow(s.windows[d])
    requires w.id == s.windows[d][i].id && w.appId == s.windows[d][i].appId
    ensures var s' := SetWindow(s, d, i, w);
            && PlacedIn(s'.windows) == PlacedIn(s.windows) - {Placed(d, s.windows[d][i])} + {Placed(d, w)}
            && DistinctRow(s'.windows[d])
            && Placed(d, s.windows[d][i]) in PlacedIn(s.windows)
  {
    var ws, s' := s.windows[d], SetWindow(s, d, i, w);
    var left, right := PlacedIn(s'.windows), PlacedIn(s.windows) - {Placed(d, ws[i])} + {Placed(d, w)};
    forall p ensures p in left <==> p in right {
      if p.desktop == d {
        if p in left {
          var j :| 0 <= j < |ws| && ws[i := w][j] == p.window;
          if j != i { assert ws[j] in ws && ws[j] == p.window; }
        }
        if p in right && p.window != w {
          var j :| 0 <= j < |ws| && ws[j] == p.window;
          assert ws[i := w][j] == p.window;
        }
        if p.window == w { assert ws[i := w][i] == w; }
      }
    }
  }

  /** Replacing a window by one with the same id that keeps its zIndex, or takes the next
      free one, keeps the set well formed and its size. */
  lemma ReplaceKeepsSetOk(all: set<Placed>, p: Placed, q: Placed, next: int, next': int, savedIds: set<string>)
    requires SetOk(all, next, savedIds) && p in all
    requires q.desktop == p.desktop && q.window.id == p.window.id
    requires (q.window.zIndex == p.window.zIndex && next' == next)
          || (q.window.zIndex == next && next' == next + 1)
    ensures SetOk(all - {p} + {q}, next', savedIds)
    ensures |all - {p} + {q}| == |all|
  {
    hide Separate, IsOpen;
    ReplaceKeepsOpen(all, p, q, savedIds);
    ReplaceKeepsSeparate(all, p, q, next);
    if q == p { assert all - {p} + {q} == all; } else { assert q !in all; }
  }

  lemma ReplaceKeepsOpen(all: set<Placed>, p: Placed, q: Placed, savedIds: set<string>)
    requires p in all && q.window.id == p.window.id
    requires forall id :: id in savedIds ==> IsOpen(all, id)
    ensures forall id :: id in savedIds ==> IsOpen(all - {p} + {q}, id)
  {
    forall id | id in savedIds ensures IsOpen(all - {p} + {q}, id) {
      var r :| r in all && r.window.id == id;
      assert (if r == p then q else r) in all - {p} + {q};
    }
  }

  lemma ReplaceKeepsSeparate(all: set<Placed>, p: Placed, q: Placed, next: int)
    requires Separate(all) && InRange(all, next) && p in all
    requires q.desktop == p.desktop && q.window.id == p.window.id
    requires q.window.zIndex == p.window.zIndex || q.window.zIndex == next
    ensures Separate(all - {p} + {q})
    ensures q == p || q !in all
  {
  }

  lemma ReplaceKeepsCore(s: State, d: string, i: nat, w: Window, next': int)
    requires Core(s) && d in s.windows && i < |s.windows[d]|
    requires var v := s.windows[d][i]; w.id == v.id && w.appId == v.appId
    requires (w.zIndex == s.windows[d][i].zIndex && next' == s.nextZIndex)
          || (w.zIndex == s.nextZIndex && next' == s.nextZIndex + 1)
    ensures var s' := SetWindow(s, d, i, w).(nextZIndex := next');
            && Core(s')
            && PlacedIn(s'.windows) == PlacedIn(s.windows) - {Placed(d, s.windows[d][i])} + {Placed(d, w)}
            && |PlacedIn(s'.windows)| == |PlacedIn(s.windows)|
  {
    hide Separate, InRange, IsOpen, DistinctRow;
    SetWindowEffect(s, d, i, w);
    ReplaceKeepsSetOk(PlacedIn(s.windows), Placed(d, s.windows[d][i]), Placed(d, w), s.nextZIndex, next', s.saved.Keys);
    var windows' := SetWindow(s, d, i, w).windows;
    forall e | e in windows' ensures DistinctRow(windows'[e]) {
      if e != d { assert windows'[e] == s.windows[e]; }
    }
  }

  lemma SetWindowKeepsCore(s: State, d: string, i: nat, w: Window)
    requires Core(s) && d in s.windows && i < |s.windows[d]|
    requires var v := s.windows[d][i]; w.id == v.id && w.appId == v.appId && w.zIndex == v.zIndex
    ensures Core(SetWindow(s, d, i, w))
    ensures |PlacedIn(SetWindow(s, d, i, w).windows)| == |PlacedIn(s.windows)|
  {
    ReplaceKeepsCore(s, d, i, w, s.nextZIndex);
  }

  lemma RaiseKeepsCore(s: State, d: string, i: nat)
    requires Core(s) && d in s.windows && i < |s.windows[d]|
    ensures Core(Raise(s, d, i))
    ensures PlacedIn(Raise(s, d, i).windows) ==
            PlacedIn(s.windows) - {Placed(d, s.windows[d][i])}
            + {Placed(d, s.windows[d][i].(zIndex := s.nextZIndex))}
    ensures |PlacedIn(Raise(s, d, i).windows)| == |PlacedIn(s.windows)|
  {
    ReplaceKeepsCore(s, d, i, s.windows[d][i].(zIndex := s.nextZIndex), s.nextZIndex + 1);
  }

  lemma AddKeepsSetOk(all: set<Placed>, p: Placed, next: int, savedIds: set<string>)
    requires SetOk(all, next, savedIds) && p.window.zIndex == next
    requires forall q :: q in all ==> q.window.id != p.window.id
    ensures SetOk(all + {p}, next + 1, savedIds)
    ensures |all + {p}| == |all| + 1
  {
    forall id | id in savedIds ensures IsOpen(all + {p}, id) {
      var r :| r in all && r.window.id == id;
      assert r in all + {p};
    }
  }

  lemma AppendEffect(s: State, d: string, w: Window)
    ensures PlacedIn(s.windows[d := WindowsOn(s.windows, d) + [w]]) == PlacedIn(s.windows) + {Placed(d, w)}
  {
    var ws := WindowsOn(s.windows, d);
    assert forall v :: v in ws + [w] <==> v in ws || v == w;
  }

  lemma {:induction false} WithoutKeepsDistinct(ws: seq<Window>, id: string)
    requires DistinctRow(ws)
    ensures DistinctRow(Without(ws, id))
  {
    if ws != [] {
      WithoutKeepsDistinct(ws[1..], id);
      var rest := Without(ws[1..], id);
      forall j | 0 <= j < |rest| ensures rest[j].id != ws[0].id && rest[j].appId != ws[0].appId {
        assert rest[j] in ws[1..];
      }
    }
  }

  /** Removing by id drops at most one window; it never touches another desktop. */
  lemma RemoveEffect(s: State, d: string, id: string)
    requires Core(s)
    ensures PlacedIn(RemoveWindow(s, d, id).windows)
         == (set p | p in PlacedIn(s.windows) && !(p.desktop == d && p.window.id == id))
    ensures Core(RemoveWindow(s, d, id))
  {
    var s' := RemoveWindow(s, d, id);
    var all, all' := PlacedIn(s.windows), PlacedIn(s'.windows);
    assert all' == set p | p in all && !(p.desktop == d && p.window.id == id);
    WithoutKeepsDistinct(WindowsOn(s.windows, d), id);
    forall k | k in s'.saved ensures IsOpen(all', k) {
      var p :| p in all && p.window.id == k;
      assert p in all';
    }
  }

  lemma OpenNewKeepsCore(s: State, d: string, w: Window)
    requires Core(s) && w.zIndex == s.nextZIndex
    requires forall p :: p in PlacedIn(s.windows) ==> p.window.id != w.id
    requires IndexOfApp(WindowsOn(s.windows, d), w.appId).None?
    ensures Core(s.(windows := s.windows[d := WindowsOn(s.windows, d) + [w]], nextZIndex := s.nextZIndex + 1))
  {
    var ws := WindowsOn(s.windows, d);
    var windows' := s.windows[d := ws + [w]];
    assert SetOk(PlacedIn(windows'), s.nextZIndex + 1, s.saved.Keys) by {
      AppendEffect(s, d, w);
      AddKeepsSetOk(PlacedIn(s.windows), Placed(d, w), s.nextZIndex, s.saved.Keys);
    }
    assert DistinctRow(ws + [w]) by {
      forall j | 0 <= j < |ws| ensures ws[j].id != w.id && ws[j].appId != w.appId {
        assert ws[j] in ws && Placed(d, ws[j]) in PlacedIn(s.windows);
      }
    }
    forall e | e in windows' ensures DistinctRow(windows'[e]) {
      if e != d { assert windows'[e] == s.windows[e]; }
    }
  }

  lemma OpenRawKeepsCore(s: State, d: string, app: string, defaults: Defaults, id: string, vp: Viewport)
    requires Core(s) && forall p :: p in PlacedIn(s.windows) ==> p.window.id != id
    ensures Core(OpenRaw(s, d, app, defaults, id, vp))
  {
    hide SetOk, DistinctRows;
    var ws := WindowsOn(s.windows, d);
    match IndexOfApp(ws, app)
    case Some(i) =>
      SetWindowKeepsCore(s, d, i, ws[i].(mode := Normal));
      RaiseKeepsCore(SetWindow(s, d, i, ws[i].(mode := Normal)), d, i);
    case None =>
      OpenNewKeepsCore(s, d, NewWindow(app, defaults, id, vp, s.nextZIndex));
  }

  lemma CloseRawKeepsCore(s: State, d: string, id: string)
    requires Core(s)
    ensures Core(CloseRaw(s, d, id))
  {
    RemoveEffect(s, d, id);
    var s1 := RemoveWindow(s, d, id);
    if IsActive(s, d, id) && s1.windows[d] != [] {
      RaiseKeepsCore(s1, d, TopIndex(s1.windows[d]));
    }
  }

  // ---------- Compaction ----------

  lemma RankStrict(all: set<Placed>, p: Placed, z: int)
    requires p in all && p.window.zIndex < z
    ensures Rank(all, p.window.zIndex) < Rank(all, z)
  {
    var low := set q | q in all && q.window.zIndex < p.window.zIndex;
    var high := set q | q in all && q.window.zIndex < z;
    assert low + {p} <= high;
    SubsetSize(low + {p}, high);
  }

  lemma {:induction false} SubsetSize<T>(a: set<T>, b: set<T>)
    requires a <= b
    ensures |a| <= |b|
  {
    if a != {} {
      var x :| x in a;
      SubsetSize(a - {x}, b - {x});
    }
  }

  lemma RankBelowTotal(all: set<Placed>, p: Placed)
    requires p in all
    ensures Rank(all, p.window.zIndex) < |all|
  {
    var low := set q | q in all && q.window.zIndex < p.window.zIndex;
    assert low <= all - {p};
    SubsetSize(low, all - {p});
  }

  function RenumberPlaced(all: set<Placed>, p: Placed): Placed {
    Placed(p.desktop, Renumber(all, p.window))
  }

  lemma CompactEffect(s: State)
    ensures var all := PlacedIn(s.windows);
            PlacedIn(Compact(s).windows) == set p | p in all :: RenumberPlaced(all, p)
  {
    var all, s' := PlacedIn(s.windows), Compact(s);
    forall p | p in all ensures RenumberPlaced(all, p) in PlacedIn(s'.windows) {
      var i :| 0 <= i < |s.windows[p.desktop]| && s.windows[p.desktop][i] == p.window;
      assert s'.windows[p.desktop][i] == Renumber(all, p.window);
    }
    forall q | q in PlacedIn(s'.windows) ensures exists p :: p in all && q == RenumberPlaced(all, p) {
      var i :| 0 <= i < |s'.windows[q.desktop]| && s'.windows[q.desktop][i] == q.window;
      var p := Placed(q.desktop, s.windows[q.desktop][i]);
      assert p in all && q == RenumberPlaced(all, p);
    }
  }

  lemma RenumberKeepsOrder(all: set<Placed>, p: Placed, q: Placed)
    requires Separate(all) && p in all && q in all
    ensures p.window.zIndex < q.window.zIndex
            <==> Renumber(all, p.window).zIndex < Renumber(all, q.window).zIndex
  {
    if p.window.zIndex < q.window.zIndex { RankStrict(all, p, q.window.zIndex); }
    if q.window.zIndex < p.window.zIndex { RankStrict(all, q, p.window.zIndex); }
  }

  lemma {:induction false} ImageSize(all: set<Placed>, part: set<Placed>)
    requires forall p, q :: p in part && q in part && p.window.id == q.window.id ==> p == q
    ensures |set p | p in part :: RenumberPlaced(all, p)| == |part|
  {
    hide Rank;
    var image := set p | p in part :: RenumberPlaced(all, p);
    if part == {} {
      assert image == {};
    } else {
      var x :| x in part;
      ImageSize(all, part - {x});
      var less := set p | p in part - {x} :: RenumberPlaced(all, p);
      assert image == less + {RenumberPlaced(all, x)};
      forall q | q in less ensures q.window.id != x.window.id {
        var p :| p in part - {x} && q == RenumberPlaced(all, p);
      }
    }
  }

  lemma RenumberKeepsSetOk(all: set<Placed>, next: int, savedIds: set<string>)
    requires SetOk(all, next, savedIds)
    ensures SetOk(set p | p in all :: RenumberPlaced(all, p), 101 + |all|, savedIds)
  {
    var image := set p | p in all :: RenumberPlaced(all, p);
    forall p, q | p in all && q in all && Renumber(all, p.window).zIndex == Renumber(all, q.window).zIndex
      ensures p == q
    {
      RenumberKeepsOrder(all, p, q);
      RenumberKeepsOrder(all, q, p);
    }
    forall p | p in all ensures Renumber(all, p.window).zIndex < 101 + |all| {
      RankBelowTotal(all, p);
    }
    forall id | id in savedIds ensures IsOpen(image, id) {
      var p :| p in all && p.window.id == id;
      assert RenumberPlaced(all, p) in image;
    }
  }

  lemma CompactKeepsCore(s: State)
    requires Core(s)
    ensures Core(Compact(s))
    ensures Compact(s).nextZIndex == 101 + |PlacedIn(s.windows)|
    ensures |PlacedIn(Compact(s).windows)| == |PlacedIn(s.windows)|
  {
    var all, s' := PlacedIn(s.windows), Compact(s);
    CompactEffect(s);
    ImageSize(all, all);
    RenumberKeepsSetOk(all, s.nextZIndex, s.saved.Keys);
    forall d | d in s'.windows ensures DistinctRow(s'.windows[d]) {
      assert DistinctRow(s.windows[d]);
    }
  }

  lemma MaybeCompactKeeps(s: State)
    requires Core(s)
    ensures Inv(MaybeCompact(s))
  {
    CompactKeepsCore(s);
  }

  // ---------- Where a new window appears ----------

  /** Given fields are taken as they are; a missing position centres the window, in the width
      and in the height less the menu bar's share, if that leaves at least 16 on the left and 72 at
      the top, and is 16 or 72 if it does not. */
  lemma NewWindowPlacement(app: string, defaults: Defaults, id: string, vp: Viewport, z: int)
    ensures var w := NewWindow(app, defaults, id, vp, z);
            var r := w.rect;
            && w.id == id && w.appId == app && w.zIndex == z
            && w.mode == (if defaults.mode.Some? then defaults.mode.value else Normal)
            && r.width == (if defaults.width.Some? then defaults.width.value else 680.0)
            && r.height == (if defaults.height.Some? then defaults.height.value else 520.0)
            && (defaults.x.Some? ==> r.x == defaults.x.value)
            && (defaults.y.Some? ==> r.y == defaults.y.value)
            && (defaults.x.None? ==>
                  if vp.width - r.width >= 32.0 then r.x == vp.width - (r.x + r.width) else r.x == 16.0)
            && (defaults.y.None? ==>
                  if vp.height - r.height >= 216.0 then r.y + 72.0 == vp.height - (r.y + r.height) else r.y == 72.0)
  {
  }

  // ---------- Every step, every run ----------

  lemma InitialInv()
    ensures Inv(INITIAL)
  {
    assert PlacedIn(INITIAL.windows) == {};
  }

  lemma StepKeepsInv(s: State, a: Action)
    requires Inv(s) && Legal(s, a)
    ensures Inv(Step(s, a))
  {
    hide SetOk, DistinctRows;
    match a
    case Open(d, app, defaults, id, vp) =>
      OpenRawKeepsCore(s, d, app, defaults, id, vp);
      MaybeCompactKeeps(OpenRaw(s, d, app, defaults, id, vp));
    case Close(d, id) =>
      CloseRawKeepsCore(s, d, id);
      MaybeCompactKeeps(CloseRaw(s, d, id));
    case Focus(d, id) =>
      match IndexOfId(WindowsOn(s.windows, d), id) {
        case Some(i) => RaiseKeepsCore(s, d, i); MaybeCompactKeeps(Raise(s, d, i));
        case None =>
      }
    case Move(d, id, rect) =>
      var ws := WindowsOn(s.windows, d);
      match IndexOfId(ws, id) {
        case Some(i) => SetWindowKeepsCore(s, d, i, ws[i].(rect := rect));
        case None =>
      }
    case Minimize(d, id) =>
      var ws := WindowsOn(s.windows, d);
      match IndexOfId(ws, id) {
        case Some(i) => SetWindowKeepsCore(s, d, i, ws[i].(mode := Minimized));
        case None =>
      }
    case Maximize(d, id, vp) => MaximizeKeepsInv(s, d, id, vp);
    case Restore(d, id) => RestoreKeepsInv(s, d, id);
    case SetActiveDesktop(_) =>
    case SetViewMode(_) =>
    case Reset => InitialInv();
  }

  lemma MaximizeKeepsInv(s: State, d: string, id: string, vp: Viewport)
    requires Inv(s)
    ensures Inv(MaximizeStep(s, d, id, vp))
  {
    var ws := WindowsOn(s.windows, d);
    match IndexOfId(ws, id)
    case Some(i) =>
      assert ws[i] in ws && Placed(d, ws[i]) in PlacedIn(s.windows);
      var s1 := if ws[i].mode != Maximized then s.(saved := s.saved[id := ws[i].rect]) else s;
      assert Core(s1);
      SetWindowKeepsCore(s1, d, i, ws[i].(mode := Maximized, rect := FullRect(vp)));
    case None =>
  }

  lemma RestoreKeepsInv(s: State, d: string, id: string)
    requires Inv(s)
    ensures Inv(RestoreStep(s, d, id))
  {
    var ws := WindowsOn(s.windows, d);
    match IndexOfId(ws, id)
    case Some(i) =>
      var rect := if id in s.saved then s.saved[id] else ws[i].rect;
      SetWindowKeepsCore(s, d, i, ws[i].(mode := Normal, rect := rect));
    case None =>
  }

  /** Every store a run of actions can reach satisfies the whole invariant. */
  lemma {:induction false} ReachableInv(actions: seq<Action>)
    requires LegalRun(INITIAL, actions)
    ensures Inv(Run(INITIAL, actions))
  {
    hide SetOk, DistinctRows;
    if actions == [] {
      InitialInv();
    } else {
      var before := actions[..|actions| - 1];
      ReachableInv(before);
      StepKeepsInv(Run(INITIAL, before), actions[|actions| - 1]);
    }
  }
}
