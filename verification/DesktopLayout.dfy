/** Saving a desktop's layout and replaying it with `openApp`. */
module DesktopLayout {
  import opened Wrappers
  import opened WindowState
  import opened WindowInvariants

  /** One window of a saved layout. */
  datatype Entry = Entry(appId: string, rect: Rect, mode: Mode)

  function Save(ws: seq<Window>): (layout: seq<Entry>) {
    seq(|ws|, i requires 0 <= i < |ws| => Entry(ws[i].appId, ws[i].rect, ws[i].mode))
  }

  /** A saved layout is the apps, geometries and states of the windows, in order. */
  lemma SaveExact(ws: seq<Window>, layout: seq<Entry>)
    ensures Save(ws) == layout
            <==> |layout| == |ws|
                 && forall i :: 0 <= i < |ws| ==> layout[i] == Entry(ws[i].appId, ws[i].rect, ws[i].mode)
  {
    var saved := Save(ws);
    if |layout| == |ws| && forall i :: 0 <= i < |ws| ==> layout[i] == Entry(ws[i].appId, ws[i].rect, ws[i].mode) {
      assert forall i :: 0 <= i < |ws| ==> saved[i] == layout[i];
    }
  }

  function EntryDefaults(e: Entry): Defaults {
    Defaults(Some(e.rect.x), Some(e.rect.y), Some(e.rect.width), Some(e.rect.height), Some(e.mode))
  }

  /** The load effect: one `openApp` per entry, in order. */
  function Load(s: State, d: string, layout: seq<Entry>, ids: seq<string>, vp: Viewport): State
    requires |ids| == |layout|
  {
    if layout == [] then s
    else
      var n := |layout| - 1;
      Step(Load(s, d, layout[..n], ids[..n], vp), Open(d, layout[n].appId, EntryDefaults(layout[n]), ids[n], vp))
  }

  /** Generated ids are new: pairwise different and not open anywhere. */
  ghost predicate FreshIds(s: State, ids: seq<string>) {
    && (forall i, j :: 0 <= i < j < |ids| ==> ids[i] != ids[j])
    && (forall p :: p in PlacedIn(s.windows) ==> p.window.id !in ids)
  }

  ghost predicate DistinctApps(layout: seq<Entry>) {
    forall i, j :: 0 <= i < j < |layout| ==> layout[i].appId != layout[j].appId
  }

  ghost predicate HasApp(layout: seq<Entry>, app: string) {
    exists e :: e in layout && e.appId == app
  }

  // ---------- What a list of entries amounts to ----------

  function Occurrences(layout: seq<Entry>, app: string): nat {
    if layout == [] then 0
    else
      var n := |layout| - 1;
      Occurrences(layout[..n], app) + if layout[n].appId == app then 1 else 0
  }

  /** The first entry of each app, in order. */
  ghost function Firsts(layout: seq<Entry>): seq<Entry> {
    if layout == [] then []
    else
      var n := |layout| - 1;
      Firsts(layout[..n]) + if HasApp(layout[..n], layout[n].appId) then [] else [layout[n]]
  }

  /** An entry whose app is named again ends up in the normal state. */
  function Settle(e: Entry, layout: seq<Entry>): Entry {
    if Occurrences(layout, e.appId) > 1 then e.(mode := Normal) else e
  }

  /** The first entry of each app, in order, and normal if the app is named again. */
  ghost function Loaded(layout: seq<Entry>): seq<Entry> {
    var firsts := Firsts(layout);
    seq(|firsts|, i requires 0 <= i < |firsts| => Settle(firsts[i], layout))
  }

  function Reopen(layout: seq<Entry>, app: string): seq<Entry> {
    seq(|layout|, i requires 0 <= i < |layout| =>
      if layout[i].appId == app then layout[i].(mode := Normal) else layout[i])
  }

  lemma {:induction false} HasAppOccurs(layout: seq<Entry>, app: string)
    ensures HasApp(layout, app) <==> Occurrences(layout, app) > 0
  {
    if layout != [] {
      var n := |layout| - 1;
      HasAppOccurs(layout[..n], app);
      AppsAppend(layout[..n], layout[n], app);
      assert layout == layout[..n] + [layout[n]];
    }
  }

  lemma AppsAppend(layout: seq<Entry>, e: Entry, app: string)
    ensures HasApp(layout + [e], app) <==> HasApp(layout, app) || e.appId == app
  {
    assert forall x :: x in layout + [e] <==> x in layout || x == e;
    assert e in layout + [e];
  }

  lemma DistinctAppend(layout: seq<Entry>, e: Entry)
    ensures DistinctApps(layout + [e]) <==> DistinctApps(layout) && !HasApp(layout, e.appId)
  {
    var all := layout + [e];
    assert forall i :: 0 <= i < |layout| ==> all[i] == layout[i];
    if DistinctApps(all) {
      forall x | x in layout ensures x.appId != e.appId {
        var i :| 0 <= i < |layout| && layout[i] == x;
        assert all[i].appId != all[|layout|].appId;
      }
    }
    if !HasApp(layout, e.appId) {
      assert forall i :: 0 <= i < |layout| ==> layout[i] in layout;
    }
  }

  /** The first entries name the same apps, each once. */
  lemma {:induction false} FirstsApps(layout: seq<Entry>, app: string)
    ensures HasApp(Firsts(layout), app) <==> HasApp(layout, app)
    ensures DistinctApps(Firsts(layout))
  {
    hide DistinctApps, HasApp;
    if layout == [] {
      assert DistinctApps([]) by { NoApps(app); }
      assert HasApp(Firsts(layout), app) <==> HasApp(layout, app);
    } else {
      var n := |layout| - 1;
      var before, e := layout[..n], layout[n];
      assert layout == before + [e];
      FirstsApps(before, app);
      FirstsApps(before, e.appId);
      AppsAppend(before, e, app);
      if !HasApp(before, e.appId) {
        AppsAppend(Firsts(before), e, app);
        DistinctAppend(Firsts(before), e);
      } else {
        assert Firsts(layout) == Firsts(before);
        SameApp(before, e, app);
      }
    }
  }

  lemma NoApps(app: string)
    ensures DistinctApps([]) && !HasApp([], app)
  {
  }

  lemma SameApp(layout: seq<Entry>, e: Entry, app: string)
    requires HasApp(layout, e.appId)
    ensures e.appId == app ==> HasApp(layout, app)
  {
  }

  lemma LoadedApps(layout: seq<Entry>, app: string)
    ensures HasApp(Loaded(layout), app) <==> HasApp(layout, app)
    ensures DistinctApps(Loaded(layout))
  {
    FirstsApps(layout, app);
    var firsts, loaded := Firsts(layout), Loaded(layout);
    assert forall i :: 0 <= i < |firsts| ==> loaded[i].appId == firsts[i].appId;
    if x :| x in firsts && x.appId == app {
      var i :| 0 <= i < |firsts| && firsts[i] == x;
      assert loaded[i] in loaded;
    }
    if x :| x in loaded && x.appId == app {
      var i :| 0 <= i < |loaded| && loaded[i] == x;
      assert firsts[i] in firsts;
    }
  }

  /** One entry more appends itself if its app is new and settles the app's entry if not. */
  lemma LoadedNext(layout: seq<Entry>, e: Entry)
    ensures Loaded(layout + [e])
         == if HasApp(layout, e.appId) then Reopen(Loaded(layout), e.appId) else Loaded(layout) + [e]
  {
    hide Occurrences, Settle, HasApp, DistinctApps;
    var all, firsts := layout + [e], Firsts(layout);
    assert all[..|layout|] == layout;
    forall i | 0 <= i < |firsts|
      ensures Settle(firsts[i], all)
           == if firsts[i].appId == e.appId then Settle(firsts[i], layout).(mode := Normal)
              else Settle(firsts[i], layout)
      ensures !HasApp(layout, e.appId) ==> firsts[i].appId != e.appId
    {
      FirstIsApp(layout, i);
      SettleNext(layout, e, firsts[i]);
    }
    if HasApp(layout, e.appId) {
      SettleKeepsApp(layout);
    } else {
      SettleNew(layout, e);
    }
  }

  lemma FirstIsApp(layout: seq<Entry>, i: nat)
    requires i < |Firsts(layout)|
    ensures HasApp(layout, Firsts(layout)[i].appId)
  {
    assert Firsts(layout)[i] in Firsts(layout);
    FirstsApps(layout, Firsts(layout)[i].appId);
  }

  lemma SettleNext(layout: seq<Entry>, e: Entry, f: Entry)
    requires HasApp(layout, f.appId)
    ensures Settle(f, layout + [e])
         == if f.appId == e.appId then Settle(f, layout).(mode := Normal) else Settle(f, layout)
  {
    assert (layout + [e])[..|layout|] == layout;
    HasAppOccurs(layout, f.appId);
  }

  lemma SettleNew(layout: seq<Entry>, e: Entry)
    requires !HasApp(layout, e.appId)
    ensures Settle(e, layout + [e]) == e
  {
    assert (layout + [e])[..|layout|] == layout;
    HasAppOccurs(layout, e.appId);
  }

  lemma SettleKeepsApp(layout: seq<Entry>)
    ensures forall f: Entry :: Settle(f, layout).appId == f.appId
  {
  }

  /** A list stands for itself if and only if it names no app twice. */
  lemma {:induction false} LoadedIsAll(layout: seq<Entry>)
    ensures Loaded(layout) == layout <==> DistinctApps(layout)
  {
    LoadedApps(layout, "");
    if DistinctApps(layout) && layout != [] {
      var n := |layout| - 1;
      assert layout == layout[..n] + [layout[n]];
      DistinctAppend(layout[..n], layout[n]);
      LoadedIsAll(layout[..n]);
      LoadedNext(layout[..n], layout[n]);
    }
  }

  // ---------- One openApp ----------

  lemma CompactKeepsLayout(s: State, d: string)
    ensures Save(WindowsOn(MaybeCompact(s).windows, d)) == Save(WindowsOn(s.windows, d))
  {
  }

  lemma SavedApp(ws: seq<Window>, app: string)
    ensures HasApp(Save(ws), app) <==> IndexOfApp(ws, app).Some?
  {
    var saved := Save(ws);
    if w :| w in ws && w.appId == app {
      var i :| 0 <= i < |ws| && ws[i] == w;
      assert saved[i].appId == app && saved[i] in saved;
    }
    if HasApp(saved, app) {
      var x :| x in saved && x.appId == app;
      var i :| 0 <= i < |ws| && saved[i] == x;
      assert ws[i] in ws;
    }
  }

  lemma ReopenedRow(ws: seq<Window>, i: nat, z: int)
    requires i < |ws| && DistinctApps(Save(ws))
    ensures Save(ws[i := ws[i].(mode := Normal, zIndex := z)]) == Reopen(Save(ws), ws[i].appId)
  {
    var saved := Save(ws);
    assert forall j :: 0 <= j < |ws| && j != i ==> saved[j].appId != saved[i].appId;
  }

  lemma OpenRawEntry(s: State, d: string, e: Entry, id: string, vp: Viewport)
    ensures var raw := OpenRaw(s, d, e.appId, EntryDefaults(e), id, vp);
            var before, after := Save(WindowsOn(s.windows, d)), Save(WindowsOn(raw.windows, d));
            && (!HasApp(before, e.appId) ==> after == before + [e])
            && (HasApp(before, e.appId) && DistinctApps(before) ==> after == Reopen(before, e.appId))
            && forall k :: k != d ==> WindowsOn(raw.windows, k) == WindowsOn(s.windows, k)
  {
    hide HasApp, DistinctApps, Reopen;
    var ws := WindowsOn(s.windows, d);
    var raw := OpenRaw(s, d, e.appId, EntryDefaults(e), id, vp);
    SavedApp(ws, e.appId);
    match IndexOfApp(ws, e.appId)
    case Some(i) =>
      assert WindowsOn(raw.windows, d) == ws[i := ws[i].(mode := Normal, zIndex := s.nextZIndex)];
      if DistinctApps(Save(ws)) { ReopenedRow(ws, i, s.nextZIndex); }
    case None =>
      assert Save(WindowsOn(raw.windows, d)) == Save(ws) + [e];
  }

  /** `openApp` appends exactly the entry it was given if the app is not on the desktop, and
      otherwise puts the app's window into the normal state, its geometry and place in the list
      kept; other desktops' layouts never change. */
  lemma OpenEntry(s: State, d: string, e: Entry, id: string, vp: Viewport)
    ensures var s' := Step(s, Open(d, e.appId, EntryDefaults(e), id, vp));
            var before, after := Save(WindowsOn(s.windows, d)), Save(WindowsOn(s'.windows, d));
            && (!HasApp(before, e.appId) ==> after == before + [e])
            && (HasApp(before, e.appId) && DistinctApps(before) ==> after == Reopen(before, e.appId))
            && forall k :: k != d ==> Save(WindowsOn(s'.windows, k)) == Save(WindowsOn(s.windows, k))
  {
    hide HasApp, DistinctApps, Reopen, Save, OpenRaw, MaybeCompact;
    OpenRawEntry(s, d, e, id, vp);
    var raw := OpenRaw(s, d, e.appId, EntryDefaults(e), id, vp);
    forall k ensures Save(WindowsOn(MaybeCompact(raw).windows, k)) == Save(WindowsOn(raw.windows, k)) {
      CompactKeepsLayout(raw, k);
    }
  }

  lemma RawKeepsFresh(s: State, d: string, e: Entry, id: string, vp: Viewport, ids: seq<string>)
    requires FreshIds(s, ids) && id !in ids
    ensures FreshIds(OpenRaw(s, d, e.appId, EntryDefaults(e), id, vp), ids)
  {
    var ws, raw := WindowsOn(s.windows, d), OpenRaw(s, d, e.appId, EntryDefaults(e), id, vp);
    forall p | p in PlacedIn(raw.windows) ensures p.window.id !in ids {
      if p.desktop == d {
        var row := raw.windows[d];
        var i :| 0 <= i < |row| && row[i] == p.window;
        if i < |ws| { assert ws[i] in ws && Placed(d, ws[i]) in PlacedIn(s.windows); }
      } else {
        assert p in PlacedIn(s.windows);
      }
    }
  }

  lemma CompactKeepsFresh(s: State, ids: seq<string>)
    requires FreshIds(s, ids)
    ensures FreshIds(MaybeCompact(s), ids)
  {
    CompactEffect(s);
    var all := PlacedIn(s.windows);
    forall q | q in PlacedIn(Compact(s).windows) ensures q.window.id !in ids {
      var p :| p in all && q == RenumberPlaced(all, p);
    }
  }

  lemma OpenKeepsFresh(s: State, d: string, e: Entry, id: string, vp: Viewport, ids: seq<string>)
    requires FreshIds(s, ids) && id !in ids
    ensures FreshIds(Step(s, Open(d, e.appId, EntryDefaults(e), id, vp)), ids)
  {
    hide FreshIds, OpenRaw, MaybeCompact;
    RawKeepsFresh(s, d, e, id, vp, ids);
    CompactKeepsFresh(OpenRaw(s, d, e.appId, EntryDefaults(e), id, vp), ids);
  }

  // ---------- A whole load ----------

  lemma {:induction false} LoadKeeps(s: State, d: string, layout: seq<Entry>, ids: seq<string>,
      more: seq<string>, vp: Viewport)
    requires |ids| == |layout| && Inv(s) && FreshIds(s, ids + more)
    ensures Inv(Load(s, d, layout, ids, vp)) && FreshIds(Load(s, d, layout, ids, vp), more)
  {
    hide Step, Inv;
    if layout != [] {
      var n := |layout| - 1;
      assert ids + more == ids[..n] + ([ids[n]] + more);
      LoadKeeps(s, d, layout[..n], ids[..n], [ids[n]] + more, vp);
      var s1 := Load(s, d, layout[..n], ids[..n], vp);
      assert ids[n] == ([ids[n]] + more)[0] && ids[n] in [ids[n]] + more;
      StepKeepsInv(s1, Open(d, layout[n].appId, EntryDefaults(layout[n]), ids[n], vp));
      assert forall k :: 0 <= k < |more| ==> more[k] == ([ids[n]] + more)[k + 1];
      assert ids[n] !in more;
      OpenKeepsFresh(s1, d, layout[n], ids[n], vp, more);
    } else {
      assert ids + more == more;
    }
  }

  /** The n-th step of a load: its id is fresh, and loading one entry more is that step. */
  lemma LoadNext(s: State, d: string, layout: seq<Entry>, ids: seq<string>, n: nat, vp: Viewport)
    requires |ids| == |layout| && n < |layout| && Inv(s) && FreshIds(s, ids)
    ensures var open := Open(d, layout[n].appId, EntryDefaults(layout[n]), ids[n], vp);
            var before := Load(s, d, layout[..n], ids[..n], vp);
            Legal(before, open) && Load(s, d, layout[..n + 1], ids[..n + 1], vp) == Step(before, open)
  {
    hide Step, Inv;
    assert ids == ids[..n] + ids[n..];
    LoadKeeps(s, d, layout[..n], ids[..n], ids[n..], vp);
    assert ids[n..][0] == ids[n];
    assert layout[..n + 1][..n] == layout[..n] && ids[..n + 1][..n] == ids[..n];
  }

  /** Loading any layout into any desktop leaves what the windows already there and the
      layout's entries amount to together: the first entry of each app, in order, and normal if
      the app is named again. */
  lemma {:induction false} LoadExact(s: State, d: string, layout: seq<Entry>, ids: seq<string>, vp: Viewport)
    requires |ids| == |layout| && DistinctApps(Save(WindowsOn(s.windows, d)))
    ensures Save(WindowsOn(Load(s, d, layout, ids, vp).windows, d)) == Loaded(Save(WindowsOn(s.windows, d)) + layout)
  {
    hide Step, Save, DistinctApps, HasApp, Loaded, Reopen;
    var there := Save(WindowsOn(s.windows, d));
    if layout == [] {
      LoadedIsAll(there);
      assert there + layout == there;
    } else {
      var n := |layout| - 1;
      LoadExact(s, d, layout[..n], ids[..n], vp);
      assert there + layout == (there + layout[..n]) + [layout[n]];
      LoadedNext(there + layout[..n], layout[n]);
      LoadedApps(there + layout[..n], layout[n].appId);
      OpenEntry(Load(s, d, layout[..n], ids[..n], vp), d, layout[n], ids[n], vp);
    }
  }

  lemma {:induction false} LoadLeavesOthers(s: State, d: string, layout: seq<Entry>, ids: seq<string>,
      vp: Viewport, k: string)
    requires |ids| == |layout| && k != d
    ensures Save(WindowsOn(Load(s, d, layout, ids, vp).windows, k)) == Save(WindowsOn(s.windows, k))
  {
    if layout != [] {
      var n := |layout| - 1;
      LoadLeavesOthers(s, d, layout[..n], ids[..n], vp, k);
      OpenEntry(Load(s, d, layout[..n], ids[..n], vp), d, layout[n], ids[n], vp);
    }
  }

  lemma SavedAppsDistinct(s: State, d: string)
    requires Core(s)
    ensures DistinctApps(Save(WindowsOn(s.windows, d)))
  {
  }

  /** Loading any layout into an empty desktop and saving it gives the layout back if and only
      if it names no app twice; the other desktops keep their layouts. */
  lemma LoadThenSave(s: State, d: string, layout: seq<Entry>, ids: seq<string>, vp: Viewport)
    requires |ids| == |layout| && WindowsOn(s.windows, d) == []
    ensures Save(WindowsOn(Load(s, d, layout, ids, vp).windows, d)) == layout <==> DistinctApps(layout)
    ensures forall k :: k != d ==>
              Save(WindowsOn(Load(s, d, layout, ids, vp).windows, k)) == Save(WindowsOn(s.windows, k))
  {
    hide Load, Loaded, DistinctApps;
    assert Save([]) == [] && DistinctApps([]) by { NoApps(""); }
    LoadExact(s, d, layout, ids, vp);
    assert [] + layout == layout;
    LoadedIsAll(layout);
    var s' := Load(s, d, layout, ids, vp);
    forall k | k != d ensures Save(WindowsOn(s'.windows, k)) == Save(WindowsOn(s.windows, k)) {
      LoadLeavesOthers(s, d, layout, ids, vp, k);
    }
  }

  /** The round trip: whatever run led to a desktop, its saved layout replayed into an empty
      desktop of any store is the same sequence of apps, geometries and states. */
  lemma SaveLoadRoundTrip(run: seq<Action>, d: string, s: State, e: string, ids: seq<string>, vp: Viewport)
    requires LegalRun(INITIAL, run) && WindowsOn(s.windows, e) == []
    requires |ids| == |WindowsOn(Run(INITIAL, run).windows, d)|
    ensures var layout := Save(WindowsOn(Run(INITIAL, run).windows, d));
            Save(WindowsOn(Load(s, e, layout, ids, vp).windows, e)) == layout
  {
    ReachableInv(run);
    SavedAppsDistinct(Run(INITIAL, run), d);
    LoadThenSave(s, e, Save(WindowsOn(Run(INITIAL, run).windows, d)), ids, vp);
  }
}
