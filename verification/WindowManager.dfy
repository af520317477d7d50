/** The store itself: one object whose fields every action updates in place. */
module WindowManagerStore {
  import opened Wrappers
  import opened WindowState
  import opened WindowInvariants
  import opened RecencyStack
  import opened DesktopLayout

  /** Sorts windows with pairwise different zIndexes by ascending zIndex. */
  method SortByZ(items: seq<Placed>) returns (sorted: seq<Placed>)
    requires forall i, j :: 0 <= i < j < |items| ==> items[i].window.zIndex != items[j].window.zIndex
    ensures Lists((set p | p in items), sorted)
  {
    sorted := [];
    for n := 0 to |items|
      invariant Ascending(sorted)
      invariant forall p :: p in sorted <==> p in items[..n]
    {
      var k := |sorted|;
      while k > 0 && items[n].window.zIndex < sorted[k - 1].window.zIndex
        invariant 0 <= k <= |sorted|
        invariant forall j :: k <= j < |sorted| ==> items[n].window.zIndex < sorted[j].window.zIndex
      {
        k := k - 1;
      }
      assert k > 0 ==> sorted[k - 1] in items[..n];
      InsertMembers(sorted, k, items[n]);
      InsertAscends(sorted, k, items[n]);
      sorted := sorted[..k] + [items[n]] + sorted[k..];
      assert items[..n + 1] == items[..n] + [items[n]];
    }
    assert items[..|items|] == items;
  }

  lemma InsertMembers(line: seq<Placed>, k: nat, p: Placed)
    requires k <= |line|
    ensures forall q :: q in line[..k] + [p] + line[k..] <==> q in line || q == p
  {
    assert line == line[..k] + line[k..];
  }

  lemma InsertAscends(line: seq<Placed>, k: nat, p: Placed)
    requires Ascending(line) && k <= |line|
    requires k > 0 ==> line[k - 1].window.zIndex < p.window.zIndex
    requires k < |line| ==> p.window.zIndex < line[k].window.zIndex
    ensures Ascending(line[..k] + [p] + line[k..])
  {
    var r := line[..k] + [p] + line[k..];
    assert |r| == |line| + 1;
    assert forall j :: 0 <= j < k ==> r[j] == line[j];
    assert r[k] == p;
    assert forall j :: k < j < |r| ==> r[j] == line[j - 1];
    forall j | 0 <= j < k ensures line[j].window.zIndex < p.window.zIndex {
      assert j < k - 1 ==> line[j].window.zIndex < line[k - 1].window.zIndex;
    }
    forall j | k <= j < |line| ensures p.window.zIndex < line[j].window.zIndex {
      assert k < j ==> line[k].window.zIndex < line[j].window.zIndex;
    }
  }

  class WindowManager {
    var windows: map<string, seq<Window>>
    var activeWindowId: map<string, Option<string>>
    var nextZIndex: int
    var preMaximizeRects: map<string, Rect>
    var activeDesktopId: Option<string>
    var viewMode: ViewMode

    function Store(): State
      reads this
    {
      State(windows, activeWindowId, nextZIndex, preMaximizeRects, activeDesktopId, viewMode)
    }

    ghost predicate Valid()
      reads this
    {
      Inv(Store())
    }

    constructor ()
      ensures Valid() && Store() == INITIAL
    {
      windows, activeWindowId, nextZIndex := map[], map[], Z_INDEX_BASE;
      preMaximizeRects, activeDesktopId, viewMode := map[], None, DesktopView;
      new;
      assert PlacedIn(windows) == {};
    }

    /** All windows of all desktops in one list. */
    method Flatten() returns (all: seq<Placed>)
      requires Core(Store())
      ensures PlacedIn(windows) == set p | p in all
      ensures forall i, j :: 0 <= i < j < |all| ==> all[i].window.zIndex != all[j].window.zIndex
    {
      all := [];
      var left := windows.Keys;
      while left != {}
        invariant left <= windows.Keys
        invariant forall p :: p in all <==> p in PlacedIn(windows) && p.desktop !in left
        invariant forall i, j :: 0 <= i < j < |all| ==> all[i] != all[j]
        decreases left
      {
        var d :| d in left;
        left := left - {d};
        var row := windows[d];
        for i := 0 to |row|
          invariant forall p :: p in all <==>
                      p in PlacedIn(windows) && p.desktop !in left && (p.desktop == d ==> p.window in row[..i])
          invariant forall i, j :: 0 <= i < j < |all| ==> all[i] != all[j]
        {
          assert row[i] !in row[..i] by { RowHasNoRepeat(row, i); }
          assert Placed(d, row[i]) !in all;
          all := all + [Placed(d, row[i])];
          assert row[..i + 1] == row[..i] + [row[i]];
        }
        assert row[..|row|] == row;
      }
      forall i, j | 0 <= i < j < |all| ensures all[i].window.zIndex != all[j].window.zIndex {
        assert all[i] in all && all[j] in all;
      }
    }

    /** Renumbers every window from 100 upwards in its present order. */
    method CompactZIndexes()
      requires Core(Store())
      modifies this`windows, this`nextZIndex
      ensures Store() == Compact(old(Store()))
    {
      hide Separate, InRange, IsOpen, DistinctRow, Rank, Renumbered;
      var all := Flatten();
      ghost var placed := PlacedIn(windows);
      ghost var was := windows;
      var sorted := SortByZ(all);
      RenumberStart(was, placed);
      for index := 0 to |sorted|
        invariant Renumbered(was, placed, windows, index)
      {
        RankIsPosition(placed, sorted, index);
        RenumberNext(was, placed, windows, sorted[index], index);
        var d := sorted[index].desktop;
        var i := IndexOfId(windows[d], sorted[index].window.id).value;
        windows := windows[d := windows[d][i := windows[d][i].(zIndex := Z_INDEX_BASE + index)]];
      }
      SizeOfLine(sorted);
      assert (set p | p in sorted) == placed;
      RenumberDone(was, placed, windows, |sorted|);
      nextZIndex := Z_INDEX_BASE + |sorted| + 1;
    }

    method MaybeCompactZIndexes()
      requires Core(Store())
      modifies this`windows, this`nextZIndex
      ensures Valid() && Store() == MaybeCompact(old(Store()))
    {
      MaybeCompactKeeps(Store());
      if nextZIndex > Z_INDEX_COMPACT_THRESHOLD {
        CompactZIndexes();
      }
    }

    method OpenApp(d: string, app: string, defaults: Defaults, freshId: string, vp: Viewport)
      requires Valid() && Legal(Store(), Open(d, app, defaults, freshId, vp))
      modifies this
      ensures Valid() && Store() == Step(old(Store()), Open(d, app, defaults, freshId, vp))
    {
      hide Inv, Core, Legal, MaybeCompact, Step, Raise, SetWindow, IndexOfApp;
      OpenIsStep(Store(), d, app, defaults, freshId, vp);
      var desktopWindows := WindowsOn(windows, d);
      var existing := IndexOfApp(desktopWindows, app);
      if existing.Some? {
        var i := existing.value;
        ReopenAtOnce(Store(), d, i);
        var w := desktopWindows[i].(mode := Normal);
        w := w.(zIndex := nextZIndex);
        windows := windows[d := desktopWindows[i := w]];
        nextZIndex := nextZIndex + 1;
        activeWindowId := activeWindowId[d := Some(w.id)];
        assert Store() == OpenRaw(old(Store()), d, app, defaults, freshId, vp);
        MaybeCompactZIndexes();
        return;
      }
      var w := NewWindow(app, defaults, freshId, vp, nextZIndex);
      nextZIndex := nextZIndex + 1;
      windows := windows[d := desktopWindows + [w]];
      activeWindowId := activeWindowId[d := Some(w.id)];
      assert Store() == OpenRaw(old(Store()), d, app, defaults, freshId, vp);
      MaybeCompactZIndexes();
    }

    method CloseWindow(d: string, id: string)
      requires Valid()
      modifies this
      ensures Valid() && Store() == Step(old(Store()), Close(d, id))
    {
      hide Inv, Core, Step, MaybeCompact, TopIndex, Without;
      CloseIsStep(Store(), d, id);
      var remaining := Without(WindowsOn(windows, d), id);
      windows := windows[d := remaining];
      preMaximizeRects := preMaximizeRects - {id};
      if d in activeWindowId && activeWindowId[d] == Some(id) {
        if remaining == [] {
          activeWindowId := activeWindowId[d := None];
        } else {
          var top := TopIndex(remaining);
          activeWindowId := activeWindowId[d := Some(remaining[top].id)];
          windows := windows[d := remaining[top := remaining[top].(zIndex := nextZIndex)]];
          nextZIndex := nextZIndex + 1;
        }
      }
      assert Store() == CloseRaw(old(Store()), d, id);
      MaybeCompactZIndexes();
    }

    method FocusWindow(d: string, id: string)
      requires Valid()
      modifies this
      ensures Valid() && Store() == Step(old(Store()), Focus(d, id))
    {
      hide SetOk, DistinctRows, Compact;
      var found := IndexOfId(WindowsOn(windows, d), id);
      if found.Some? {
        var i := found.value;
        assert Core(Raise(Store(), d, i)) by { RaiseKeepsCore(Store(), d, i); }
        windows := windows[d := windows[d][i := windows[d][i].(zIndex := nextZIndex)]];
        nextZIndex := nextZIndex + 1;
        assert Store() == Raise(old(Store()), d, i);
        MaybeCompactZIndexes();
      }
      activeWindowId := activeWindowId[d := Some(id)];
    }

    method MoveWindow(d: string, id: string, rect: Rect)
      requires Valid()
      modifies this
      ensures Valid() && Store() == Step(old(Store()), Move(d, id, rect))
    {
      hide SetOk, DistinctRows, Compact;
      StepKeepsInv(Store(), Move(d, id, rect));
      var found := IndexOfId(WindowsOn(windows, d), id);
      if found.None? || windows[d][found.value].mode == Maximized {
        return;
      }
      var i := found.value;
      windows := windows[d := windows[d][i := windows[d][i].(rect := rect)]];
    }

    method MinimizeWindow(d: string, id: string)
      requires Valid()
      modifies this
      ensures Valid() && Store() == Step(old(Store()), Minimize(d, id))
    {
      hide SetOk, DistinctRows, Compact;
      StepKeepsInv(Store(), Minimize(d, id));
      var found := IndexOfId(WindowsOn(windows, d), id);
      if found.Some? {
        var i := found.value;
        windows := windows[d := windows[d][i := windows[d][i].(mode := Minimized)]];
      }
    }

    method MaximizeWindow(d: string, id: string, vp: Viewport)
      requires Valid()
      modifies this
      ensures Valid() && Store() == Step(old(Store()), Maximize(d, id, vp))
    {
      hide SetOk, DistinctRows, Compact;
      StepKeepsInv(Store(), Maximize(d, id, vp));
      var found := IndexOfId(WindowsOn(windows, d), id);
      if found.None? {
        return;
      }
      var i := found.value;
      if windows[d][i].mode != Maximized {
        preMaximizeRects := preMaximizeRects[id := windows[d][i].rect];
      }
      windows := windows[d := windows[d][i := windows[d][i].(mode := Maximized, rect := FullRect(vp))]];
    }

    method RestoreWindow(d: string, id: string)
      requires Valid()
      modifies this
      ensures Valid() && Store() == Step(old(Store()), Restore(d, id))
    {
      hide SetOk, DistinctRows, Compact;
      StepKeepsInv(Store(), Restore(d, id));
      var found := IndexOfId(WindowsOn(windows, d), id);
      if found.None? {
        return;
      }
      var i := found.value;
      var w := windows[d][i].(mode := Normal);
      if id in preMaximizeRects {
        w := w.(rect := preMaximizeRects[id]);
        preMaximizeRects := preMaximizeRects - {id};
      }
      windows := windows[d := windows[d][i := w]];
    }

    method SetDesktop(d: string)
      requires Valid()
      modifies this
      ensures Valid() && Store() == Step(old(Store()), SetActiveDesktop(d))
    {
      activeDesktopId := Some(d);
    }

    method SetMode(mode: ViewMode)
      requires Valid()
      modifies this
      ensures Valid() && Store() == Step(old(Store()), SetViewMode(mode))
    {
      viewMode := mode;
    }

    method ResetStore()
      modifies this
      ensures Valid() && Store() == INITIAL
    {
      windows, activeWindowId, nextZIndex := map[], map[], Z_INDEX_BASE;
      preMaximizeRects, activeDesktopId, viewMode := map[], None, DesktopView;
      assert PlacedIn(windows) == {};
    }

    /** The load effect of the desktop component. */
    method LoadLayout(d: string, layout: seq<Entry>, ids: seq<string>, vp: Viewport)
      requires Valid() && |ids| == |layout| && FreshIds(Store(), ids)
      modifies this
      ensures Valid() && Store() == Load(old(Store()), d, layout, ids, vp)
    {
      hide SetOk, DistinctRows, Step, FreshIds, Legal;
      ghost var s := Store();
      for n := 0 to |layout|
        invariant Valid() && Store() == Load(s, d, layout[..n], ids[..n], vp)
      {
        LoadNext(s, d, layout, ids, n, vp);
        OpenApp(d, layout[n].appId, EntryDefaults(layout[n]), ids[n], vp);
      }
      assert layout[..|layout|] == layout && ids[..|ids|] == ids;
    }

    /** The save effect of the desktop component. */
    function SavedLayout(d: string): seq<Entry>
      reads this
    {
      Save(WindowsOn(windows, d))
    }
  }

  /** Setting the mode and then raising is one update of the window. */
  lemma ReopenAtOnce(s: State, d: string, i: nat)
    requires d in s.windows && i < |s.windows[d]|
    ensures var w := s.windows[d][i];
            Raise(SetWindow(s, d, i, w.(mode := Normal)), d, i)
            == s.(windows := s.windows[d := s.windows[d][i := w.(mode := Normal, zIndex := s.nextZIndex)]],
                  nextZIndex := s.nextZIndex + 1)
  {
    var row, w := s.windows[d], s.windows[d][i];
    var v, u := w.(mode := Normal), w.(mode := Normal, zIndex := s.nextZIndex);
    assert row[i := v][i := u] == row[i := u];
    assert s.windows[d := row[i := v]][d := row[i := u]] == s.windows[d := row[i := u]];
  }

  lemma OpenIsStep(s: State, d: string, app: string, defaults: Defaults, id: string, vp: Viewport)
    requires Inv(s) && Legal(s, Open(d, app, defaults, id, vp))
    ensures Core(OpenRaw(s, d, app, defaults, id, vp))
    ensures Step(s, Open(d, app, defaults, id, vp)) == MaybeCompact(OpenRaw(s, d, app, defaults, id, vp))
  {
    OpenRawKeepsCore(s, d, app, defaults, id, vp);
  }

  lemma CloseIsStep(s: State, d: string, id: string)
    requires Inv(s)
    ensures Core(CloseRaw(s, d, id)) && Step(s, Close(d, id)) == MaybeCompact(CloseRaw(s, d, id))
  {
    CloseRawKeepsCore(s, d, id);
  }

  // ---------- The renumbering loop ----------

  lemma RowHasNoRepeat(row: seq<Window>, i: nat)
    requires DistinctRow(row) && i < |row|
    ensures row[i] !in row[..i]
  {
  }

  function Renumbering(all: set<Placed>, w: Window, index: nat): Window {
    if Rank(all, w.zIndex) < index then Renumber(all, w) else w
  }

  /** The windows whose rank is below `index` have their new zIndex, the others the old. */
  ghost predicate Renumbered(was: map<string, seq<Window>>, all: set<Placed>, now: map<string, seq<Window>>,
      index: nat)
  {
    && now.Keys == was.Keys
    && (forall d :: d in was ==> |now[d]| == |was[d]|)
    && (forall d, i :: d in was && 0 <= i < |was[d]| ==> now[d][i] == Renumbering(all, was[d][i], index))
  }

  lemma RenumberStart(was: map<string, seq<Window>>, all: set<Placed>)
    ensures Renumbered(was, all, was, 0)
  {
  }

  lemma RenumberNext(was: map<string, seq<Window>>, all: set<Placed>, now: map<string, seq<Window>>, p: Placed,
      index: nat)
    requires all == PlacedIn(was) && Separate(all) && p in all && DistinctRows(was)
    requires Renumbered(was, all, now, index) && Rank(all, p.window.zIndex) == index
    ensures p.desktop in now
    ensures var row := now[p.desktop];
            var found := IndexOfId(row, p.window.id);
            && found.Some?
            && var row' := row[found.value := row[found.value].(zIndex := Z_INDEX_BASE + index)];
               Renumbered(was, all, now[p.desktop := row'], index + 1)
  {
    hide Renumbered, Separate, Rank;
    var k :| 0 <= k < |was[p.desktop]| && was[p.desktop][k] == p.window;
    RowKeepsIds(was, all, now, p.desktop, index);
    IndexOfIdIs(was[p.desktop], now[p.desktop], k, p.window.id);
    OnlyRank(was, all, p, k, index);
    RenumberAt(was, all, now, p.desktop, k, index);
  }

  lemma RowKeepsIds(was: map<string, seq<Window>>, all: set<Placed>, now: map<string, seq<Window>>, d: string,
      index: nat)
    requires d in was && Renumbered(was, all, now, index)
    ensures d in now && |now[d]| == |was[d]|
    ensures forall i :: 0 <= i < |was[d]| ==> now[d][i].id == was[d][i].id
  {
  }

  /** The one window whose rank is `index` gets its new zIndex, all others stay as they are. */
  lemma RenumberAt(was: map<string, seq<Window>>, all: set<Placed>, now: map<string, seq<Window>>, d: string,
      k: nat, index: nat)
    requires d in was && k < |was[d]| && d in now && |now[d]| == |was[d]|
    requires Renumbered(was, all, now, index) && Rank(all, was[d][k].zIndex) == index
    requires forall e, i :: e in was && 0 <= i < |was[e]| && Rank(all, was[e][i].zIndex) == index ==> e == d && i == k
    ensures Renumbered(was, all, now[d := now[d][k := now[d][k].(zIndex := Z_INDEX_BASE + index)]], index + 1)
  {
    hide Rank;
    var row' := now[d][k := now[d][k].(zIndex := Z_INDEX_BASE + index)];
    forall e, i | e in was && 0 <= i < |was[e]|
      ensures now[d := row'][e][i] == Renumbering(all, was[e][i], index + 1)
    {
      assert now[e][i] == Renumbering(all, was[e][i], index);
      if Rank(all, was[e][i].zIndex) == index { assert e == d && i == k; }
    }
  }

  lemma IndexOfIdIs(was: seq<Window>, ws: seq<Window>, k: nat, id: string)
    requires DistinctRow(was) && |ws| == |was| && k < |ws| && was[k].id == id
    requires forall i :: 0 <= i < |ws| ==> ws[i].id == was[i].id
    ensures IndexOfId(ws, id) == Some(k)
  {
    assert ws[k] in ws;
    var i := IndexOfId(ws, id).value;
    assert !(i < k) && !(k < i);
  }

  /** Only the window itself has its rank. */
  lemma OnlyRank(was: map<string, seq<Window>>, all: set<Placed>, p: Placed, k: nat, index: nat)
    requires all == PlacedIn(was) && Separate(all) && p in all && DistinctRows(was)
    requires k < |was[p.desktop]| && was[p.desktop][k] == p.window
    requires Rank(all, p.window.zIndex) == index
    ensures forall d, i :: d in was && 0 <= i < |was[d]| && Rank(all, was[d][i].zIndex) == index
              ==> d == p.desktop && i == k
  {
    forall d, i | d in was && 0 <= i < |was[d]| && Rank(all, was[d][i].zIndex) == index
      ensures d == p.desktop && i == k
    {
      var q := Placed(d, was[d][i]);
      assert q in all;
      if q.window.zIndex < p.window.zIndex { RankStrict(all, q, p.window.zIndex); }
      if p.window.zIndex < q.window.zIndex { RankStrict(all, p, q.window.zIndex); }
      assert q == p;
      assert !(i < k) && !(k < i);
    }
  }

  lemma RenumberDone(was: map<string, seq<Window>>, all: set<Placed>, now: map<string, seq<Window>>, index: nat)
    requires all == PlacedIn(was) && Renumbered(was, all, now, index) && index == |all|
    ensures now == map d | d in was :: RenumberRow(all, was[d])
  {
    forall d | d in was ensures now[d] == RenumberRow(all, was[d]) {
      forall i | 0 <= i < |was[d]| ensures now[d][i] == Renumber(all, was[d][i]) {
        assert Placed(d, was[d][i]) in all;
        RankBelowTotal(all, Placed(d, was[d][i]));
      }
    }
  }
}
