/** The zIndex machine refines a stack ordered by how recently a window was raised.
    The abstract machine below knows neither zIndexes nor compaction. */
module RecencyStack {
  import opened Wrappers
  import opened WindowState
  import opened WindowInvariants

  // ---------- The abstract machine ----------

  /** A window as the stack sees it. */
  datatype Key = Key(desktop: string, id: string, appId: string)

  /** The windows of all desktops, bottom first, and the active id of each desktop. */
  datatype Recency = Recency(stack: seq<Key>, active: map<string, Option<string>>)

  const EMPTY := Recency([], map[])

  /** The topmost key satisfying `p`. */
  function FindLast(stack: seq<Key>, p: Key -> bool): (r: Option<Key>)
    ensures r.None? <==> forall k :: k in stack ==> !p(k)
    ensures r.Some? ==> r.value in stack && p(r.value)
  {
    if stack == [] then None
    else if p(stack[|stack| - 1]) then Some(stack[|stack| - 1])
    else FindLast(stack[..|stack| - 1], p)
  }

  function FindId(stack: seq<Key>, desktop: string, id: string): Option<Key> {
    FindLast(stack, (k: Key) => k.desktop == desktop && k.id == id)
  }

  function FindApp(stack: seq<Key>, desktop: string, app: string): Option<Key> {
    FindLast(stack, (k: Key) => k.desktop == desktop && k.appId == app)
  }

  function FindTop(stack: seq<Key>, desktop: string): Option<Key> {
    FindLast(stack, (k: Key) => k.desktop == desktop)
  }

  function Drop(stack: seq<Key>, desktop: string, id: string): seq<Key> {
    if stack == [] then []
    else
      var k := stack[|stack| - 1];
      var rest := Drop(stack[..|stack| - 1], desktop, id);
      if k.desktop == desktop && k.id == id then rest else rest + [k]
  }

  function ToTop(stack: seq<Key>, k: Key): seq<Key> {
    Drop(stack, k.desktop, k.id) + [k]
  }

  function AbstractStep(r: Recency, a: Action): Recency {
    match a
    case Open(d, app, _, id, _) =>
      (match FindApp(r.stack, d, app)
       case Some(k) => Recency(ToTop(r.stack, k), r.active[d := Some(k.id)])
       case None => Recency(r.stack + [Key(d, id, app)], r.active[d := Some(id)]))
    case Close(d, id) =>
      var rest := Drop(r.stack, d, id);
      if d in r.active && r.active[d] == Some(id) then
        match FindTop(rest, d)
        case Some(k) => Recency(ToTop(rest, k), r.active[d := Some(k.id)])
        case None => Recency(rest, r.active[d := None])
      else
        Recency(rest, r.active)
    case Focus(d, id) =>
      (match FindId(r.stack, d, id)
       case Some(k) => Recency(ToTop(r.stack, k), r.active[d := Some(id)])
       case None => Recency(r.stack, r.active[d := Some(id)]))
    case Reset => EMPTY
    case _ => r
  }

  function AbstractRun(r: Recency, actions: seq<Action>): Recency {
    if actions == [] then r
    else AbstractStep(AbstractRun(r, actions[..|actions| - 1]), actions[|actions| - 1])
  }

  // ---------- Sorting by zIndex ----------

  /** `line` lists exactly the windows of `all`, by strictly ascending zIndex. */
  ghost predicate Lists(all: set<Placed>, line: seq<Placed>) {
    && (forall p :: p in all <==> p in line)
    && (forall i, j :: 0 <= i < j < |line| ==> line[i].window.zIndex < line[j].window.zIndex)
  }

  lemma {:induction false} TopExists(all: set<Placed>)
    requires all != {}
    ensures exists top :: top in all && forall p :: p in all ==> p.window.zIndex <= top.window.zIndex
  {
    var x :| x in all;
    if all - {x} == {} {
      assert all == {x};
    } else {
      TopExists(all - {x});
      var y :| y in all - {x} && forall p :: p in all - {x} ==> p.window.zIndex <= y.window.zIndex;
      var top := if x.window.zIndex < y.window.zIndex then y else x;
      assert forall p :: p in all ==> p == x || p in all - {x};
      assert top in all;
    }
  }

  /** All windows of all desktops, sorted by zIndex. */
  ghost function SortedByZ(all: set<Placed>): (line: seq<Placed>)
    requires Separate(all)
    ensures Lists(all, line)
  {
    if all == {} then []
    else
      TopExists(all);
      var top :| top in all && forall p :: p in all ==> p.window.zIndex <= top.window.zIndex;
      SortedByZ(all - {top}) + [top]
  }

  lemma {:induction false} SortUnique(all: set<Placed>, a: seq<Placed>, b: seq<Placed>)
    requires Lists(all, a) && Lists(all, b)
    ensures a == b
  {
    if a != [] { assert a[0] in all; }
    if b != [] { assert b[0] in all; }
    if all != {} {
      var p :| p in all;
      assert p in a && p in b;
      var x, y := a[|a| - 1], b[|b| - 1];
      assert x in all && y in all;
      assert x == y;
      DropLast(all, a);
      DropLast(all, b);
      SortUnique(all - {x}, a[..|a| - 1], b[..|b| - 1]);
    }
  }

  lemma DropLast(all: set<Placed>, a: seq<Placed>)
    requires Lists(all, a) && a != []
    ensures Lists(all - {a[|a| - 1]}, a[..|a| - 1])
  {
    var b := a[..|a| - 1];
    forall p ensures p in b <==> p in all - {a[|a| - 1]} {
      if p in all && p != a[|a| - 1] {
        var i :| 0 <= i < |a| && a[i] == p;
        assert b[i] == p;
      }
    }
  }

  function KeyOf(p: Placed): Key {
    Key(p.desktop, p.window.id, p.window.appId)
  }

  function Keys(line: seq<Placed>): (r: seq<Key>) {
    if line == [] then [] else Keys(line[..|line| - 1]) + [KeyOf(line[|line| - 1])]
  }

  /** What the abstract machine sees of a store. */
  ghost function Abstract(s: State): Recency
    requires Core(s)
  {
    Recency(Keys(SortedByZ(PlacedIn(s.windows))), s.active)
  }

  // ---------- How the sorted line follows each change of the set ----------

  /** The concrete line with one window taken out, mirroring `Drop`. */
  ghost function Take(line: seq<Placed>, desktop: string, id: string): (r: seq<Placed>)
    ensures forall p :: p in r <==> p in line && !(p.desktop == desktop && p.window.id == id)
  {
    if line == [] then []
    else
      var p := line[|line| - 1];
      var rest := Take(line[..|line| - 1], desktop, id);
      if p.desktop == desktop && p.window.id == id then rest else rest + [p]
  }

  ghost predicate Ascending(line: seq<Placed>) {
    forall i, j :: 0 <= i < j < |line| ==> line[i].window.zIndex < line[j].window.zIndex
  }

  lemma {:induction false} TakeMirrorsDrop(line: seq<Placed>, d: string, id: string)
    ensures Keys(Take(line, d, id)) == Drop(Keys(line), d, id)
  {
    if line != [] {
      var front, last := line[..|line| - 1], line[|line| - 1];
      TakeMirrorsDrop(front, d, id);
      var ks := Keys(line);
      assert ks[..|ks| - 1] == Keys(front) && ks[|ks| - 1] == KeyOf(last);
      var rest := Take(front, d, id);
      assert (rest + [last])[..|rest|] == rest;
    }
  }

  lemma {:induction false} TakeAscends(line: seq<Placed>, d: string, id: string)
    requires Ascending(line)
    ensures Ascending(Take(line, d, id))
  {
    if line != [] {
      var front := line[..|line| - 1];
      TakeAscends(front, d, id);
      forall p | p in Take(front, d, id) ensures p.window.zIndex < line[|line| - 1].window.zIndex {
        var i :| 0 <= i < |front| && front[i] == p;
      }
    }
  }

  lemma AppendLists(all: set<Placed>, line: seq<Placed>, q: Placed)
    requires Lists(all, line) && forall r :: r in all ==> r.window.zIndex < q.window.zIndex
    ensures Lists(all + {q}, line + [q])
    ensures Keys(line + [q]) == Keys(line) + [KeyOf(q)]
  {
    forall i | 0 <= i < |line| ensures line[i].window.zIndex < q.window.zIndex {
      assert line[i] in line;
    }
    assert (line + [q])[..|line|] == line;
  }

  lemma TakeLists(all: set<Placed>, line: seq<Placed>, d: string, id: string)
    requires Lists(all, line)
    ensures Lists((set p | p in all && !(p.desktop == d && p.window.id == id)), Take(line, d, id))
  {
    TakeAscends(line, d, id);
  }

  lemma AddPushes(all: set<Placed>, q: Placed)
    requires Separate(all) && Separate(all + {q})
    requires forall r :: r in all ==> r.window.zIndex < q.window.zIndex
    ensures Keys(SortedByZ(all + {q})) == Keys(SortedByZ(all)) + [KeyOf(q)]
  {
    AppendLists(all, SortedByZ(all), q);
    SortUnique(all + {q}, SortedByZ(all) + [q], SortedByZ(all + {q}));
  }

  lemma RemoveDrops(all: set<Placed>, left: set<Placed>, d: string, id: string)
    requires Separate(all) && Separate(left)
    requires left == set p | p in all && !(p.desktop == d && p.window.id == id)
    ensures Keys(SortedByZ(left)) == Drop(Keys(SortedByZ(all)), d, id)
  {
    TakeMirrorsDrop(SortedByZ(all), d, id);
    TakeLists(all, SortedByZ(all), d, id);
    SortUnique(left, Take(SortedByZ(all), d, id), SortedByZ(left));
  }

  /** Raising a window moves its key to the top of the stack. */
  lemma RaiseMovesToTop(all: set<Placed>, p: Placed, q: Placed)
    requires Separate(all) && Separate(all - {p} + {q}) && p in all && KeyOf(p) == KeyOf(q)
    requires forall r :: r in all ==> r.window.zIndex < q.window.zIndex
    ensures Keys(SortedByZ(all - {p} + {q})) == ToTop(Keys(SortedByZ(all)), KeyOf(p))
  {
    assert all - {p} == set r | r in all && !(r.desktop == p.desktop && r.window.id == p.window.id);
    RemoveDrops(all, all - {p}, p.desktop, p.window.id);
    AddPushes(all - {p}, q);
  }

  lemma {:induction false} SwapKeepsKeys(line: seq<Placed>, k: nat, q: Placed)
    requires k < |line| && KeyOf(line[k]) == KeyOf(q)
    ensures Keys(line[k := q]) == Keys(line)
  {
    var front := line[..|line| - 1];
    if k == |front| {
      assert line[k := q][..|front|] == front;
    } else {
      SwapKeepsKeys(front, k, q);
      assert line[k := q][..|front|] == front[k := q];
    }
  }

  lemma SwapLists(all: set<Placed>, line: seq<Placed>, k: nat, q: Placed)
    requires Lists(all, line) && k < |line| && line[k].window.zIndex == q.window.zIndex
    ensures Lists(all - {line[k]} + {q}, line[k := q])
  {
    var swapped, set' := line[k := q], all - {line[k]} + {q};
    forall r | r in set' ensures r in swapped {
      if r == q {
        assert swapped[k] == q;
      } else {
        var j :| 0 <= j < |line| && line[j] == r;
        assert swapped[j] == r;
      }
    }
    forall j | 0 <= j < |line| ensures swapped[j] in set' {
      if j != k { assert line[j] in line && line[j].window.zIndex != line[k].window.zIndex; }
    }
  }

  /** A change that keeps a window's zIndex and key leaves the stack alone. */
  lemma ReplaceKeepsStack(all: set<Placed>, p: Placed, q: Placed)
    requires Separate(all) && Separate(all - {p} + {q}) && p in all && KeyOf(p) == KeyOf(q)
    requires p.window.zIndex == q.window.zIndex
    ensures Keys(SortedByZ(all - {p} + {q})) == Keys(SortedByZ(all))
  {
    var line := SortedByZ(all);
    var k :| 0 <= k < |line| && line[k] == p;
    SwapLists(all, line, k, q);
    SwapKeepsKeys(line, k, q);
    SortUnique(all - {p} + {q}, line[k := q], SortedByZ(all - {p} + {q}));
  }

  lemma SizeOfLine(line: seq<Placed>)
    requires Ascending(line)
    ensures |set p | p in line| == |line|
  {
    if line != [] {
      var front := line[..|line| - 1];
      SizeOfLine(front);
      assert (set p | p in line) == (set p | p in front) + {line[|line| - 1]};
    } else {
      assert (set p | p in line) == {};
    }
  }

  /** In a sorted line the rank of a window is its position. */
  lemma RankIsPosition(all: set<Placed>, line: seq<Placed>, k: nat)
    requires Lists(all, line) && k < |line|
    ensures Rank(all, line[k].window.zIndex) == k
    ensures |line| == |all|
  {
    var z := line[k].window.zIndex;
    SizeOfLine(line[..k]);
    assert (set p | p in all && p.window.zIndex < z) == (set p | p in line[..k]) by {
      forall p | p in all && p.window.zIndex < z ensures p in line[..k] {
        var j :| 0 <= j < |line| && line[j] == p;
        assert line[..k][j] == p;
      }
    }
    SizeOfLine(line);
    assert (set p | p in line) == all;
  }

  function RenumberLine(line: seq<Placed>): seq<Placed> {
    seq(|line|, k requires 0 <= k < |line| =>
      line[k].(window := line[k].window.(zIndex := Z_INDEX_BASE + k)))
  }

  lemma {:induction false} RenumberKeepsKeys(line: seq<Placed>)
    ensures Keys(RenumberLine(line)) == Keys(line)
  {
    if line != [] {
      RenumberKeepsKeys(line[..|line| - 1]);
      assert RenumberLine(line)[..|line| - 1] == RenumberLine(line[..|line| - 1]);
    }
  }

  lemma RenumberLists(all: set<Placed>, line: seq<Placed>)
    requires Lists(all, line)
    ensures Lists((set p | p in all :: RenumberPlaced(all, p)), RenumberLine(line))
  {
    hide Rank;
    var image, after := (set p | p in all :: RenumberPlaced(all, p)), RenumberLine(line);
    forall k | 0 <= k < |line| ensures line[k] in all && after[k] == RenumberPlaced(all, line[k]) {
      RankIsPosition(all, line, k);
    }
    forall q | q in after ensures q in image {
      var k :| 0 <= k < |after| && after[k] == q;
      assert line[k] in all;
    }
    forall q | q in image ensures q in after {
      var p :| p in all && q == RenumberPlaced(all, p);
      var k :| 0 <= k < |line| && line[k] == p;
      assert after[k] == q;
    }
  }

  /** Compaction is invisible: the stack is unchanged, nothing but zIndexes and `nextZIndex`
      changes, and the k-th window from the bottom ends up at exactly 100 + k. */
  lemma CompactInvisible(s: State)
    requires Core(s)
    ensures Core(Compact(s)) && Abstract(Compact(s)) == Abstract(s)
    ensures SortedByZ(PlacedIn(Compact(s).windows)) == RenumberLine(SortedByZ(PlacedIn(s.windows)))
    ensures Compact(s).nextZIndex == 101 + |PlacedIn(s.windows)|
    ensures Compact(s).saved == s.saved && Compact(s).activeDesktop == s.activeDesktop
            && Compact(s).view == s.view && Compact(s).windows.Keys == s.windows.Keys
  {
    hide Lists, Separate, InRange, IsOpen, DistinctRow, RenumberLine, Rank, Keys;
    CompactKeepsCore(s);
    CompactEffect(s);
    var all, all' := PlacedIn(s.windows), PlacedIn(Compact(s).windows);
    RenumberLists(all, SortedByZ(all));
    SortUnique(all', RenumberLine(SortedByZ(all)), SortedByZ(all'));
    RenumberKeepsKeys(SortedByZ(all));
  }
}
