/** The window layout of src/components/Layout.js on the shared tree: a
    window is a `Leaf`, a layer a `Container` whose `windows` array is its
    `children`.

    This engine finds things differently from src/Layout.js: it computes new
    ids and keys itself (the largest one in use, plus one), looks windows up
    without checking their type, and relies on a `parent` link that nothing
    ever sets. The functions here marked "as written" follow the source
    exactly. Next to them, `SplitWindow` and `DeleteWindow` describe the
    engine with those lookups done as src/Layout.js does them, and lemmas
    relate the two. The class in WindowEngine performs the as-written steps
    in place. */
module WindowLayout {
  import opened Wrappers
  import opened Ratios
  import opened LayoutTree
  import opened Traversal
  import opened TreeKeys
  import opened AreaLayout

  // ---------------------------------------------------------------------------
  // sortBy and the allocators (src/components/Layout.js:19-27, 242)

  /** The property `sortBy` is given. */
  datatype Field = Id | Key

  /** A node's `id` or `key`. Windows carry no key; only layers are ever
      sorted by key, so the 0 a window is given here is never read. */
  function FieldOf(n: Node, f: Field): int
  {
    if f == Id then n.id else if n.Container? then n.key else 0
  }

  /** `sortBy(p)(a, b)`: 1, -1 or 0 as the field of `a` is above, below or
      equal to that of `b`. */
  function SortBy(f: Field, a: Node, b: Node): int
  {
    if FieldOf(a, f) > FieldOf(b, f) then 1 else if FieldOf(a, f) < FieldOf(b, f) then -1 else 0
  }

  /** sortBy is a consistent comparator, so `Array.prototype.sort` with it
      orders by the field: swapping the arguments negates it, it answers at
      most 0 exactly when the field does not go down, and that is transitive. */
  lemma SortByConsistent(f: Field, a: Node, b: Node, c: Node)
    ensures SortBy(f, a, b) == -SortBy(f, b, a)
    ensures SortBy(f, a, b) <= 0 <==> FieldOf(a, f) <= FieldOf(b, f)
    ensures SortBy(f, a, b) == 0 <==> FieldOf(a, f) == FieldOf(b, f)
    ensures SortBy(f, a, b) <= 0 && SortBy(f, b, c) <= 0 ==> SortBy(f, a, c) <= 0
  {
  }

  predicate Sorted(xs: seq<Node>, f: Field)
  {
    forall i, j :: 0 <= i < j < |xs| ==> FieldOf(xs[i], f) <= FieldOf(xs[j], f)
  }

  /** Inserting `x` into a sorted list before the first element that sortBy
      puts above it. */
  function Insert(x: Node, xs: seq<Node>, f: Field): (r: seq<Node>)
    ensures multiset(r) == multiset(xs) + multiset{x}
  {
    if xs == [] then [x]
    else if SortBy(f, x, xs[0]) <= 0 then [x] + xs
    else
      assert xs == [xs[0]] + xs[1..];
      [xs[0]] + Insert(x, xs[1..], f)
  }

  lemma {:induction false} InsertSorted(x: Node, xs: seq<Node>, f: Field)
    requires Sorted(xs, f)
    ensures Sorted(Insert(x, xs, f), f)
  {
    if xs != [] && SortBy(f, x, xs[0]) > 0 {
      var tail := xs[1..];
      SortedTail(xs, f);
      InsertSorted(x, tail, f);
      var rest := Insert(x, tail, f);
      var r := Insert(x, xs, f);
      assert r == [xs[0]] + rest;
      forall i, j | 0 <= i < j < |r| ensures FieldOf(r[i], f) <= FieldOf(r[j], f) {
        var y := rest[j - 1];
        assert r[j] == y;
        if i == 0 {
          InsertMember(x, tail, f, y);
          if y != x {
            SortedHead(xs, f, y);
          }
        } else {
          assert r[i] == rest[i - 1];
        }
      }
    }
  }

  lemma SortedTail(xs: seq<Node>, f: Field)
    requires Sorted(xs, f) && xs != []
    ensures Sorted(xs[1..], f)
  {
    var tail := xs[1..];
    forall i, j | 0 <= i < j < |tail| ensures FieldOf(tail[i], f) <= FieldOf(tail[j], f) {
      assert tail[i] == xs[i + 1] && tail[j] == xs[j + 1];
    }
  }

  lemma SortedHead(xs: seq<Node>, f: Field, y: Node)
    requires Sorted(xs, f) && xs != [] && y in xs[1..]
    ensures FieldOf(xs[0], f) <= FieldOf(y, f)
  {
    var k :| 0 <= k < |xs[1..]| && xs[1..][k] == y;
    assert xs[k + 1] == y;
  }

  lemma InsertMember(x: Node, xs: seq<Node>, f: Field, y: Node)
    requires y in Insert(x, xs, f)
    ensures y == x || y in xs
  {
    assert y in multiset(Insert(x, xs, f));
  }

  /** `Array.prototype.sort(sortBy(f))`, as a stable insertion sort. Only the
      last element of the result is ever read, and `SortedLast` shows that
      its field is the same whichever order equal fields are left in. */
  function Sort(xs: seq<Node>, f: Field): (r: seq<Node>)
    ensures Sorted(r, f) && multiset(r) == multiset(xs) && |r| == |xs|
  {
    if xs == [] then []
    else
      assert xs == [xs[0]] + xs[1..];
      InsertSorted(xs[0], Sort(xs[1..], f), f);
      var r := Insert(xs[0], Sort(xs[1..], f), f);
      assert |r| == |multiset(r)| == |multiset(xs)| == |xs|;
      r
  }

  /** The largest field in a non-empty list: the reference the allocators
      are checked against. */
  function MaxField(xs: seq<Node>, f: Field): (m: int)
    requires xs != []
    ensures forall k :: 0 <= k < |xs| ==> FieldOf(xs[k], f) <= m
    ensures exists k :: 0 <= k < |xs| && FieldOf(xs[k], f) == m
  {
    if |xs| == 1 then FieldOf(xs[0], f)
    else
      var m := MaxField(xs[1..], f);
      var k :| 0 <= k < |xs| - 1 && FieldOf(xs[1..][k], f) == m;
      assert xs[k + 1] == xs[1..][k];
      if FieldOf(xs[0], f) > m then FieldOf(xs[0], f) else m
  }

  /** Whatever sorted permutation the sort produces, its last element holds
      the largest field. */
  lemma SortedLast(r: seq<Node>, xs: seq<Node>, f: Field)
    requires Sorted(r, f) && multiset(r) == multiset(xs) && xs != []
    ensures |r| == |xs| && FieldOf(r[|r| - 1], f) == MaxField(xs, f)
  {
    assert |r| == |xs| by {
      assert |multiset(r)| == |multiset(xs)|;
    }
    var last := r[|r| - 1];
    assert last in xs by {
      assert last in multiset(r);
    }
    var k :| 0 <= k < |xs| && xs[k] == last;
    var j :| 0 <= j < |xs| && FieldOf(xs[j], f) == MaxField(xs, f);
    assert xs[j] in r by {
      assert xs[j] in multiset(xs);
    }
    SortedTop(r, f, xs[j]);
  }

  /** No element of a sorted list has a larger field than its last. */
  lemma SortedTop(r: seq<Node>, f: Field, y: Node)
    requires Sorted(r, f) && y in r
    ensures FieldOf(y, f) <= FieldOf(r[|r| - 1], f)
  {
    var j :| 0 <= j < |r| && r[j] == y;
    if j < |r| - 1 {
      assert FieldOf(r[j], f) <= FieldOf(r[|r| - 1], f);
    }
  }

  /** The allocators: sort, take the last element, add one. An empty list has
      no last element, and reading its `id` or `key` throws a TypeError:
      that is `None` here. */
  function NextOf(xs: seq<Node>, f: Field): Option<int>
  {
    if xs == [] then None else Some(FieldOf(Sort(xs, f)[|xs| - 1], f) + 1)
  }

  /** The allocators hand out one more than the largest value in use, and
      fail exactly on an empty list. */
  lemma {:induction false} NextOfMax(xs: seq<Node>, f: Field)
    ensures NextOf(xs, f) == if xs == [] then None else Some(MaxField(xs, f) + 1)
  {
    if xs != [] {
      SortLastMax(xs, f);
      assert NextOf(xs, f) == Some(FieldOf(Sort(xs, f)[|xs| - 1], f) + 1);
    }
  }

  lemma SortLastMax(xs: seq<Node>, f: Field)
    requires xs != []
    ensures FieldOf(Sort(xs, f)[|xs| - 1], f) == MaxField(xs, f)
  {
    var r := Sort(xs, f);
    assert Sorted(r, f) && multiset(r) == multiset(xs) && |r| == |xs|;
    SortedLast(r, xs, f);
  }

  /** getNextWindowId. */
  function NextWindowId(t: Node): Option<int>
  {
    NextOf(NestedAreas(t), Id)
  }

  /** getNextLayerId. */
  function NextLayerId(t: Node): Option<int>
  {
    NextOf(NestedContainers(t), Id)
  }

  /** getNextLayerKey. */
  function NextLayerKey(t: Node): Option<int>
  {
    NextOf(NestedContainers(t), Key)
  }

  /** A layout whose layers have two children at least always holds a window. */
  lemma {:induction false} HasWindow(t: Node)
    requires Everywhere(t, Fits)
    ensures NestedAreas(t) != []
    decreases t
  {
    if t.Container? {
      var cs := t.children;
      assert cs[0] in cs;
      if cs[0].Leaf? {
        assert cs[0] in AreasOf(cs);
      } else {
        HasWindow(cs[0]);
        assert NestedAreasOf(cs) == NestedAreas(cs[0]) + NestedAreasOf(cs[1..]);
      }
    }
  }

  /** getNextWindowId returns an id above every window id in use. */
  lemma NextWindowIdFresh(t: Node)
    requires Everywhere(t, Fits)
    ensures NextWindowId(t).Some?
    ensures forall x :: LeafId(x) in Idents(t) ==> x < NextWindowId(t).value
  {
    HasWindow(t);
    NextOfMax(NestedAreas(t), Id);
    forall x | LeafId(x) in Idents(t) ensures x < NextWindowId(t).value {
      AreasAreIdents(t, x);
      assert FieldOf(Leaf(x), Id) == x;
    }
  }

  /** Every layer id in use is the id of a listed layer. */
  lemma LayersAreIdents(t: Node, x: int)
    requires ContainerId(x) in Idents(t)
    ensures exists c :: c in NestedContainers(t) && c.id == x
  {
    IdentsHavePath(t, ContainerId(x));
    var p :| ValidPath(t, p) && IdOf(At(t, p)) == ContainerId(x);
    ContainerPathsComplete(t, p);
    ContainerPathsSound(t);
    var k :| 0 <= k < |ContainerPaths(t)| && ContainerPaths(t)[k] == p;
    assert NestedContainers(t)[k] in NestedContainers(t);
  }

  /** getNextLayerId fails exactly when the layout is a single window, and
      otherwise returns an id above every layer id in use. */
  lemma NextLayerIdFresh(t: Node)
    ensures NextLayerId(t).Some? <==> t.Container?
    ensures NextLayerId(t).Some? ==> forall x :: ContainerId(x) in Idents(t) ==> x < NextLayerId(t).value
  {
    NextOfMax(NestedContainers(t), Id);
    forall x | ContainerId(x) in Idents(t) ensures t.Container? && x < NextLayerId(t).value {
      LayersAreIdents(t, x);
    }
  }

  /** getNextLayerKey fails exactly when the layout is a single window, and
      otherwise returns a key above every layer key in use. */
  lemma NextLayerKeyAbove(t: Node)
    ensures NextLayerKey(t).Some? <==> t.Container?
    ensures NextLayerKey(t).Some? ==> forall c :: c in NestedContainers(t) ==> c.Container? && c.key < NextLayerKey(t).value
  {
    NextOfMax(NestedContainers(t), Key);
    forall c | c in NestedContainers(t) ensures c.Container? && c.key == FieldOf(c, Key) {
      NestedContainersAre(t, c);
    }
  }

  /** The allocators as they evidently should behave: an empty list counts
      as one whose largest value is 0, so the first id or key is 1. */
  function NextOr(xs: seq<Node>, f: Field): int
  {
    (if xs == [] then 0 else MaxField(xs, f)) + 1
  }

  /** NextOr hands out what the source's allocator does on a list that is
      not empty, 1 on an empty one, and a value above every one in the list. */
  lemma NextOrAbove(xs: seq<Node>, f: Field)
    ensures xs == [] ==> NextOr(xs, f) == 1
    ensures xs != [] ==> NextOf(xs, f) == Some(NextOr(xs, f))
    ensures forall x :: x in xs ==> FieldOf(x, f) < NextOr(xs, f)
  {
    if xs != [] {
      NextOfMax(xs, f);
    }
  }

  // ---------------------------------------------------------------------------
  // Finding a window (src/components/Layout.js:28-38, 87-90, 166-167)

  /** Some child of the layer, window or layer alike, has the id `winId`:
      `layer.windows.map(win => win.id).includes(winId)`, which does not look
      at the type. */
  predicate HasChildId(c: Node, winId: int)
  {
    c.Container? && exists k :: 0 <= k < |c.children| && c.children[k].id == winId
  }

  /** getWindowLayer (as written), as the position of the layer it returns:
      the first listed layer with a child of that id. It returns nothing
      exactly when no layer anywhere has such a child. */
  function WindowLayerPath(t: Node, winId: int): (r: Option<Path>)
    ensures r.Some? ==> ValidPath(t, r.value) && HasChildId(At(t, r.value), winId)
    ensures r.None? <==> forall p :: ValidPath(t, p) && At(t, p).Container? ==> !HasChildId(At(t, p), winId)
  {
    ContainerPathsSound(t);
    match FindIndex(NestedContainers(t), (c: Node) => HasChildId(c, winId))
    case None =>
      NoLayerHasChildId(t, winId);
      None
    case Some(i) => Some(ContainerPaths(t)[i])
  }

  /** When no listed layer has a child with that id, no layer of the tree
      has one. */
  lemma NoLayerHasChildId(t: Node, winId: int)
    requires forall k :: 0 <= k < |NestedContainers(t)| ==> !HasChildId(NestedContainers(t)[k], winId)
    ensures forall p :: ValidPath(t, p) && At(t, p).Container? ==> !HasChildId(At(t, p), winId)
  {
    ContainerPathsSound(t);
    forall p | ValidPath(t, p) && At(t, p).Container? ensures !HasChildId(At(t, p), winId) {
      ContainerPathsComplete(t, p);
      var k :| 0 <= k < |ContainerPaths(t)| && ContainerPaths(t)[k] == p;
    }
  }

  /** The layer getWindowLayer returns comes, in the pre-order list, no later
      than any layer with a child of that id. */
  lemma WindowLayerPathFirst(t: Node, winId: int, k: nat)
    requires k < |NestedContainers(t)| && HasChildId(NestedContainers(t)[k], winId)
    ensures WindowLayerPath(t, winId).Some?
    ensures |ContainerPaths(t)| == |NestedContainers(t)| && WindowLayerPath(t, winId).value in ContainerPaths(t)[..k + 1]
  {
    ContainerPathsSound(t);
    var i := FindIndex(NestedContainers(t), (c: Node) => HasChildId(c, winId));
    assert i.Some? && i.value <= k;
    assert ContainerPaths(t)[..k + 1][i.value] == ContainerPaths(t)[i.value];
  }

  /** `layer.windows.find(win => win.id === windowId)` and its `indexOf`
      (as written): the index of the first child with that id, window or
      layer. */
  function WindowIndex(c: Node, winId: int): (i: nat)
    requires HasChildId(c, winId)
    ensures i < |c.children| && c.children[i].id == winId
    ensures forall j :: 0 <= j < i ==> c.children[j].id != winId
  {
    var r := FindIndex(c.children, (n: Node) => n.id == winId);
    assert r.Some? by {
      var k :| 0 <= k < |c.children| && c.children[k].id == winId;
    }
    r.value
  }

  /** `find` with two tests that agree on every element finds the same one. */
  lemma {:induction false} FindIndexSame<T>(s: seq<T>, p: T -> bool, q: T -> bool)
    requires forall k :: 0 <= k < |s| ==> p(s[k]) == q(s[k])
    ensures FindIndex(s, p) == FindIndex(s, q)
  {
    if s != [] {
      assert forall k :: 0 <= k < |s[1..]| ==> s[1..][k] == s[k + 1];
      FindIndexSame(s[1..], p, q);
    }
  }

  /** No layer below the root has the id `winId`; the root itself may.
      Only a layer below the root can be mistaken for the window by the
      untyped lookups, since the layers they look at are children of other
      layers. */
  ghost predicate NoLayerBelow(t: Node, winId: int)
  {
    forall p :: ValidPath(t, p) && p != [] ==> At(t, p).Leaf? || At(t, p).id != winId
  }

  /** A layout where no layer at all has that id has none below the root. */
  lemma NoLayerAnywhere(t: Node, winId: int)
    requires ContainerId(winId) !in Idents(t)
    ensures NoLayerBelow(t, winId)
  {
    forall p | ValidPath(t, p) && p != [] ensures At(t, p).Leaf? || At(t, p).id != winId {
      IdentAt(t, p);
    }
  }

  /** A child of a layer, where no layer below the root has the id `winId`,
      has that id only if it is the window `winId`. */
  lemma ChildIdIsWindow(t: Node, p: Path, winId: int, m: nat)
    requires NoLayerBelow(t, winId) && ValidPath(t, p) && At(t, p).Container?
    requires m < |At(t, p).children| && At(t, p).children[m].id == winId
    ensures At(t, p).children[m] == Leaf(winId)
  {
    ChildPath(t, p, m);
    assert p + [m] != [];
  }

  /** When no layer below the root has the id `winId` (window and layer ids
      come from separate counters, so a layer may share it), getWindowLayer
      finds the layer that the typed lookup of src/Layout.js finds. */
  lemma WindowLayerAgrees(t: Node, winId: int)
    requires NoLayerBelow(t, winId)
    ensures WindowLayerPath(t, winId) == AreaContainerPath(t, winId)
  {
    ContainerPathsSound(t);
    var nc, cp := NestedContainers(t), ContainerPaths(t);
    forall k | 0 <= k < |nc| ensures HasChildId(nc[k], winId) == HasArea(nc[k], winId) {
      var c := nc[k];
      if HasChildId(c, winId) {
        var m :| 0 <= m < |c.children| && c.children[m].id == winId;
        ChildIdIsWindow(t, cp[k], winId, m);
      }
      if HasArea(c, winId) {
        var m :| 0 <= m < |c.children| && c.children[m] == Leaf(winId);
        assert c.children[m].id == winId;
      }
    }
    FindIndexSame(nc, (c: Node) => HasChildId(c, winId), (c: Node) => HasArea(c, winId));
  }

  /** ... and the untyped `find` in that layer picks the window itself. */
  lemma WindowIndexAgrees(t: Node, p: Path, winId: int)
    requires NoLayerBelow(t, winId) && ValidPath(t, p) && HasArea(At(t, p), winId)
    ensures HasChildId(At(t, p), winId) && WindowIndex(At(t, p), winId) == AreaIndex(At(t, p), winId)
  {
    var c := At(t, p);
    var i := AreaIndex(c, winId);
    assert c.children[i].id == winId;
    forall k | 0 <= k < |c.children| ensures (c.children[k].id == winId) == (c.children[k] == Leaf(winId)) {
      if c.children[k].id == winId {
        ChildIdIsWindow(t, p, winId, k);
      }
    }
    FindIndexSame(c.children, (n: Node) => n.id == winId, (n: Node) => n == Leaf(winId));
  }

  // ---------------------------------------------------------------------------
  // The operations as written

  datatype WindowError =
    | RootWindow(id: int)   // the message deleteWindow throws for a window that is in no layer
    | TypeError             // a property read on `undefined`

  /** The layout an operation leaves, and what it threw after changing it. */
  datatype Outcome = Outcome(layout: Node, thrown: Option<WindowError>)

  /** updateLayerTreeKeys on the layer at `lp` (src/components/Layout.js:39-46),
      as written: the layer takes the next layer key. getLayerAncestors lists
      the ancestors by their `parent` links, which nothing in the file sets,
      so it lists none and no other key changes. */
  function RekeyLayer(t: Node, lp: Path): (r: Node)
    requires ValidPath(t, lp) && At(t, lp).Container?
    ensures ValidPath(r, lp) && At(r, lp).Container? && EraseKeys(r) == EraseKeys(t)
  {
    assert t.Container?;
    var k := NextLayerKey(t).value;
    SetKeyErase(t, lp, k);
    ReplaceAt(t, lp, At(t, lp).(key := k));
    SetKey(t, lp, k)
  }

  /** As written, updateLayerTreeKeys gives the layer a key above every layer
      key in use, and changes no other key. */
  lemma RekeyLayerKeys(t: Node, lp: Path, q: Path)
    requires ValidPath(t, lp) && At(t, lp).Container? && ValidPath(t, q) && At(t, q).Container?
    ensures ValidPath(RekeyLayer(t, lp), q) && At(RekeyLayer(t, lp), q).Container?
    ensures q == lp ==> forall c :: c in NestedContainers(t) ==> c.Container? && c.key < At(RekeyLayer(t, lp), q).key
    ensures q != lp ==> At(RekeyLayer(t, lp), q).key == At(t, q).key
  {
    assert t.Container?;
    NextLayerKeyAbove(t);
    SetKeyAt(t, lp, NextLayerKey(t).value, q);
  }

  /** splitWindow(winId, d) as written (src/components/Layout.js:55-121).
      The new window takes getNextWindowId; the perpendicular branch calls it
      again for the window it builds, but nothing has changed in between, so
      both calls give the same id. The layer the window was found in is then
      re-keyed as written. `d` is the direction argument, "row" when the
      caller gives none. */
  function SplitWindowAsWritten(t: Node, winId: int, d: Direction): Result<Node, WindowError>
    requires Everywhere(t, Fits)
  {
    NextWindowIdFresh(t);
    var wid := NextWindowId(t).value;
    match WindowLayerPath(t, winId)
    case None =>
      // "window is root": getNextLayerId reads past an empty layer list when
      // the layout is a single window
      if t.Leaf? then Failure(TypeError)
      else Success(Wrapper(t, d, 50.0, true, wid, NextLayerId(t).value, NextLayerKey(t).value))
    case Some(lp) =>
      var layer := At(t, lp);
      assert t.Container?;
      var i := WindowIndex(layer, winId);
      EverywhereAt(t, lp, Fits);
      var n :=
        if layer.direction == Some(d) then SplitAlong(layer, i, 50.0, true, wid)
        else SplitAcross(layer, i, d, 50.0, true, wid, NextLayerId(t).value, NextLayerKey(t).value);
      ReplaceAt(t, lp, n);
      Success(RekeyLayer(Replace(t, lp, n), lp))
  }

  /** mergeRatios(layer, i) as written (src/components/Layout.js:122-143) on
      the layer at `lp`: MergeIn of that layer, and at index 0 the layer
      re-keyed as written. */
  function MergeLayer(t: Node, lp: Path, i: nat): (r: Node)
    requires ValidPath(t, lp) && At(t, lp).Container?
    requires i < |At(t, lp).children| && 2 <= |At(t, lp).ratios| && i < |At(t, lp).ratios|
    ensures ValidPath(r, lp) && At(r, lp).Container?
    ensures EraseKeys(r) == EraseKeys(Replace(t, lp, MergeIn(At(t, lp), i)))
  {
    var n := MergeIn(At(t, lp), i);
    ReplaceAt(t, lp, n);
    var merged := Replace(t, lp, n);
    if i == 0 then RekeyLayer(merged, lp) else merged
  }

  /** deleteLayerOrMergeRatio(layer, i) as written
      (src/components/Layout.js:144-161) on the layer at `lp`: with more than
      two children, a merge; otherwise child `i` is spliced out and the other
      popped. `layer.parent` is never set, so the remaining child becomes
      the whole layout, wherever the layer was. */
  function DeleteLayerOrMerge(t: Node, lp: Path, i: nat): (r: Node)
    requires ValidPath(t, lp) && At(t, lp).Container? && Everywhere(At(t, lp), Fits)
    requires i < |At(t, lp).children|
    ensures |At(t, lp).children| == 2 ==> r == At(t, lp).children[1 - i]
  {
    var layer := At(t, lp);
    if |layer.children| > 2 then MergeLayer(t, lp, i) else Survivor(layer, i)
  }

  /** deleteWindow(winId) as written (src/components/Layout.js:162-170): the
      lookup, deleteLayerOrMergeRatio, then updateLayerTreeKeys on the layer
      found. After a merge that layer is still in the layout and is re-keyed.
      After a collapse it is not: its key is set to no effect, and
      getNextLayerKey, reading the new layout, throws if that is a single
      window. */
  function DeleteWindowAsWritten(t: Node, winId: int): (o: Outcome)
    requires Everywhere(t, Fits)
    ensures o.thrown == Some(RootWindow(winId)) <==> WindowLayerPath(t, winId).None?
  {
    match WindowLayerPath(t, winId)
    case None => Outcome(t, Some(RootWindow(winId)))
    case Some(lp) =>
      var layer := At(t, lp);
      var i := WindowIndex(layer, winId);
      EverywhereAt(t, lp, Fits);
      if |layer.children| > 2 then
        var merged := MergeLayer(t, lp, i);
        Outcome(RekeyLayer(merged, lp), None)
      else
        var rest := Survivor(layer, i);
        Outcome(rest, if rest.Leaf? then Some(TypeError) else None)
  }

  /** updateContainerRatio(lid, news) as written
      (src/components/Layout.js:47-54): the layer's ratios are shifted and
      pushed once per new ratio. With no layer of that id the first `shift`
      reads `undefined`, so only an empty `news` gets through. */
  function RatioUpdateAsWritten(t: Node, lid: int, news: seq<real>): Result<Node, WindowError>
  {
    match ContainerPath(t, lid)
    case None => if news == [] then Success(t) else Failure(TypeError)
    case Some(p) => Success(Replace(t, p, At(t, p).(ratios := ShiftPushed(At(t, p).ratios, news))))
  }

  // ---------------------------------------------------------------------------
  // What the as-written operations guarantee

  /** A split as written fails exactly when the layout is a single window. */
  lemma SplitWindowAsWrittenFails(t: Node, winId: int, d: Direction)
    requires Everywhere(t, Fits)
    ensures SplitWindowAsWritten(t, winId, d).Failure? <==> t.Leaf?
    ensures SplitWindowAsWritten(t, winId, d).Failure? ==> SplitWindowAsWritten(t, winId, d).error == TypeError
  {
    if t.Leaf? {
      assert NestedContainers(t) == [];
    }
  }

  /** Putting a layer with `extra` fresh ids in place of the one at `lp`,
      then re-keying it as written, keeps unique ids and any per-container
      property both have. */
  lemma ReplaceLayerKeeps(t: Node, lp: Path, n: Node, extra: multiset<NodeId>, prop: Property)
    requires ValidPath(t, lp) && n.Container? && Idents(n) == Idents(At(t, lp)) + extra
    requires Everywhere(t, Fits) && Everywhere(t, prop) && Everywhere(n, prop) && NoDuplicates(Idents(t) + extra)
    ensures ValidPath(Replace(t, lp, n), lp) && At(Replace(t, lp, n), lp).Container?
    ensures Everywhere(RekeyLayer(Replace(t, lp, n), lp), prop) && Unique(RekeyLayer(Replace(t, lp, n), lp))
  {
    ReplaceAt(t, lp, n);
    ReplaceIdents(t, lp, n);
    var r := Replace(t, lp, n);
    assert Idents(r) == Idents(t) + extra;
    EverywhereReplace(t, lp, n, prop);
    SameButKeys(RekeyLayer(r, lp), r);
  }

  /** Wrapping the layout in a new layer with a new window keeps unique ids,
      when both ids are fresh, and every per-container property. */
  lemma WrapperKeeps(t: Node, d: Direction, wid: int, lid: int, key: int, prop: Property)
    requires Everywhere(t, prop) && Unique(t) && LeafId(wid) !in Idents(t) && ContainerId(lid) !in Idents(t)
    ensures Everywhere(Wrapper(t, d, 50.0, true, wid, lid, key), prop) && Unique(Wrapper(t, d, 50.0, true, wid, lid, key))
  {
    IdentsOfOrdered(t, Leaf(wid), true);
  }

  /** Adding an element not yet present keeps a multiset free of duplicates. */
  lemma NoDuplicatesAdd<T>(m: multiset<T>, x: T)
    requires NoDuplicates(m) && x !in m
    ensures NoDuplicates(m + multiset{x})
  {
    forall y | y in m + multiset{x} ensures (m + multiset{x})[y] == 1 {
      if y != x {
        assert y in m;
      }
    }
  }

  /** Splitting the child `i` of the layer at `lp` as written, along the
      layer's direction, keeps unique ids, when the new id is fresh, and every
      per-container property. */
  lemma SplitAlongLayerKeeps(t: Node, lp: Path, i: nat, wid: int, prop: Property)
    requires Everywhere(t, Fits) && Everywhere(t, prop) && Unique(t) && LeafId(wid) !in Idents(t)
    requires ValidPath(t, lp) && At(t, lp).Container? && i < |At(t, lp).children| && i < |At(t, lp).ratios|
    ensures var n := SplitAlong(At(t, lp), i, 50.0, true, wid);
      ValidPath(Replace(t, lp, n), lp) && At(Replace(t, lp, n), lp).Container? &&
      Everywhere(RekeyLayer(Replace(t, lp, n), lp), prop) && Unique(RekeyLayer(Replace(t, lp, n), lp))
  {
    var layer := At(t, lp);
    EverywhereAt(t, lp, prop);
    var n := SplitAlong(layer, i, 50.0, true, wid);
    SplitAlongIdents(layer, i, 50.0, true, wid);
    SplitAlongKeeps(layer, i, 50.0, true, wid, prop);
    NoDuplicatesAdd(Idents(t), LeafId(wid));
    ReplaceLayerKeeps(t, lp, n, multiset{LeafId(wid)}, prop);
  }

  /** ... and across it, when both new ids are fresh. */
  lemma SplitAcrossLayerKeeps(t: Node, lp: Path, i: nat, d: Direction, wid: int, lid: int, key: int, prop: Property)
    requires Everywhere(t, Fits) && Everywhere(t, prop) && Unique(t) && LeafId(wid) !in Idents(t) && ContainerId(lid) !in Idents(t)
    requires ValidPath(t, lp) && At(t, lp).Container? && i < |At(t, lp).children|
    ensures var n := SplitAcross(At(t, lp), i, d, 50.0, true, wid, lid, key);
      ValidPath(Replace(t, lp, n), lp) && At(Replace(t, lp, n), lp).Container? &&
      Everywhere(RekeyLayer(Replace(t, lp, n), lp), prop) && Unique(RekeyLayer(Replace(t, lp, n), lp))
  {
    var layer := At(t, lp);
    EverywhereAt(t, lp, prop);
    var n := SplitAcross(layer, i, d, 50.0, true, wid, lid, key);
    SplitAcrossIdents(layer, i, d, 50.0, true, wid, lid, key);
    SplitAcrossKeeps(layer, i, d, 50.0, true, wid, lid, key, prop);
    var extra := multiset{LeafId(wid)} + multiset{ContainerId(lid)};
    NoDuplicatesAdd(Idents(t), LeafId(wid));
    NoDuplicatesAdd(Idents(t) + multiset{LeafId(wid)}, ContainerId(lid));
    assert Idents(t) + multiset{LeafId(wid)} + multiset{ContainerId(lid)} == Idents(t) + extra;
    ReplaceLayerKeeps(t, lp, n, extra, prop);
  }

  /** A split as written adds the new window, and the new layer when it
      makes one, both with fresh ids: every id stays unique, and every
      per-container property the layout had is kept (two children at least,
      one ratio for each, ratios adding up to 100). */
  lemma SplitWindowAsWrittenKeeps(t: Node, winId: int, d: Direction, prop: Property)
    requires Everywhere(t, Fits) && Everywhere(t, prop) && Unique(t)
    ensures SplitWindowAsWritten(t, winId, d).Success? ==>
      Everywhere(SplitWindowAsWritten(t, winId, d).value, prop) && Unique(SplitWindowAsWritten(t, winId, d).value)
  {
    match WindowLayerPath(t, winId)
    case None =>
      if t.Container? {
        NextWindowIdFresh(t);
        NextLayerIdFresh(t);
        WrapperKeeps(t, d, NextWindowId(t).value, NextLayerId(t).value, NextLayerKey(t).value, prop);
      }
    case Some(lp) =>
      SplitInLayerKeeps(t, winId, d, lp, prop);
  }

  /** The same, where the window's layer is found at `lp`. */
  lemma SplitInLayerKeeps(t: Node, winId: int, d: Direction, lp: Path, prop: Property)
    requires Everywhere(t, Fits) && Everywhere(t, prop) && Unique(t) && WindowLayerPath(t, winId) == Some(lp)
    ensures SplitWindowAsWritten(t, winId, d).Success?
    ensures Everywhere(SplitWindowAsWritten(t, winId, d).value, prop) && Unique(SplitWindowAsWritten(t, winId, d).value)
  {
    NextWindowIdFresh(t);
    NextLayerIdFresh(t);
    var wid := NextWindowId(t).value;
    var layer := At(t, lp);
    var i := WindowIndex(layer, winId);
    assert t.Container?;
    var lid, key := NextLayerId(t).value, NextLayerKey(t).value;
    EverywhereAt(t, lp, Fits);
    if layer.direction == Some(d) {
      SplitAlongLayerKeeps(t, lp, i, wid, prop);
      var n := SplitAlong(layer, i, 50.0, true, wid);
      assert SplitWindowAsWritten(t, winId, d) == Success(RekeyLayer(Replace(t, lp, n), lp));
    } else {
      SplitAcrossLayerKeeps(t, lp, i, d, wid, lid, key, prop);
      var n := SplitAcross(layer, i, d, 50.0, true, wid, lid, key);
      assert SplitWindowAsWritten(t, winId, d) == Success(RekeyLayer(Replace(t, lp, n), lp));
    }
  }

  /** A split along the layer's direction halves the window's ratio
      (src/components/Layout.js:98): SplitAlong at 50 % gives `r/2, r/2`. */
  lemma SplitAlongHalves(c: Node, i: nat, wid: int)
    requires c.Container? && i < |c.children| && i < |c.ratios|
    ensures SplitAlong(c, i, 50.0, true, wid).ratios[i] == c.ratios[i] / 2.0
    ensures SplitAlong(c, i, 50.0, true, wid).ratios[i + 1] == c.ratios[i] / 2.0
    ensures SplitAlong(c, i, 50.0, true, wid).children[i + 1] == Leaf(wid)
  {
  }

  /** Whatever layer deleteWindow finds holding two children, as written the
      remaining child becomes the whole layout, and a TypeError follows when
      that child is a window. */
  lemma DeleteWindowCollapses(t: Node, winId: int, lp: Path)
    requires Everywhere(t, Fits) && WindowLayerPath(t, winId) == Some(lp) && |At(t, lp).children| == 2
    ensures var rest := At(t, lp).children[1 - WindowIndex(At(t, lp), winId)];
      DeleteWindowAsWritten(t, winId) == Outcome(rest, if rest.Leaf? then Some(TypeError) else None)
  {
  }

  /** mergeRatios as written keeps unique ids and every per-container
      property. */
  lemma MergeLayerKeeps(t: Node, lp: Path, i: nat, prop: Property)
    requires ValidPath(t, lp) && At(t, lp).Container? && Everywhere(t, Fits) && Everywhere(t, prop) && Unique(t)
    requires Everywhere(At(t, lp), Fits) && i < |At(t, lp).children| && |At(t, lp).children| > 2
    ensures ValidPath(MergeLayer(t, lp, i), lp) && At(MergeLayer(t, lp, i), lp).Container?
    ensures Everywhere(RekeyLayer(MergeLayer(t, lp, i), lp), prop) && Unique(RekeyLayer(MergeLayer(t, lp, i), lp))
  {
    var layer := At(t, lp);
    var n := MergeIn(layer, i);
    ReplaceAt(t, lp, n);
    var r := Replace(t, lp, n);
    assert Everywhere(r, prop) by {
      EverywhereAt(t, lp, prop);
      MergeInEverywhere(layer, i, prop);
      EverywhereReplace(t, lp, n, prop);
    }
    MergeInUnique(t, lp, i);
    var merged := MergeLayer(t, lp, i);
    SameButKeys(merged, r);
    SameButKeys(RekeyLayer(merged, lp), merged);
  }

  /** The remaining child of a collapse keeps unique ids and every
      per-container property. */
  lemma SurvivorKeeps(t: Node, lp: Path, i: nat, prop: Property)
    requires ValidPath(t, lp) && At(t, lp).Container? && Everywhere(t, prop) && Unique(t)
    requires i < 2 && |At(t, lp).children| == 2
    ensures Everywhere(Survivor(At(t, lp), i), prop) && Unique(Survivor(At(t, lp), i))
  {
    ChildPath(t, lp, 1 - i);
    EverywhereAt(t, lp + [1 - i], prop);
    ReplaceIdents(t, lp + [1 - i], Leaf(0));
    NoDuplicatesBelow(Idents(Survivor(At(t, lp), i)), Idents(t));
  }

  /** A delete as written keeps ids unique and every per-container property
      the layout had: no layer is left with fewer than two children, and
      ratio counts and totals are kept. */
  lemma DeleteWindowAsWrittenKeeps(t: Node, winId: int, prop: Property)
    requires Everywhere(t, Fits) && Everywhere(t, prop) && Unique(t)
    ensures Everywhere(DeleteWindowAsWritten(t, winId).layout, prop)
    ensures Unique(DeleteWindowAsWritten(t, winId).layout)
  {
    match WindowLayerPath(t, winId)
    case None =>
    case Some(lp) =>
      var layer := At(t, lp);
      var i := WindowIndex(layer, winId);
      EverywhereAt(t, lp, Fits);
      if |layer.children| > 2 {
        MergeLayerKeeps(t, lp, i, prop);
        assert DeleteWindowAsWritten(t, winId).layout == RekeyLayer(MergeLayer(t, lp, i), lp);
      } else {
        SurvivorKeeps(t, lp, i, prop);
      }
  }

  /** updateContainerRatio as written throws exactly when no layer has that
      id and there is a ratio to write. */
  lemma RatioUpdateAsWrittenFails(t: Node, lid: int, news: seq<real>)
    ensures RatioUpdateAsWritten(t, lid, news).Failure? <==> ContainerId(lid) !in Idents(t) && news != []
    ensures RatioUpdateAsWritten(t, lid, news).Success? && ContainerId(lid) !in Idents(t) ==>
      RatioUpdateAsWritten(t, lid, news).value == t
  {
    ContainerPathFinds(t, lid);
  }

  /** The shift/push loop keeps the number of ratios. With no more new
      ratios than old, it leaves the old tail first and the new ratios last:
      they land in place only when there are exactly as many as before. No
      id changes, and every layer keeps a ratio per child, and one per child
      if it had that. */
  lemma RatioUpdateAsWrittenKeeps(t: Node, lid: int, news: seq<real>, p: Path)
    requires Everywhere(t, Fits) && ContainerPath(t, lid) == Some(p)
    ensures RatioUpdateAsWritten(t, lid, news).Success?
    ensures var r := RatioUpdateAsWritten(t, lid, news).value;
      ValidPath(r, p) && At(r, p).Container? &&
      |At(r, p).ratios| == |At(t, p).ratios| &&
      (|news| <= |At(t, p).ratios| ==> At(r, p).ratios == At(t, p).ratios[|news|..] + news) &&
      (|news| == |At(t, p).ratios| ==> At(r, p).ratios == news) &&
      Idents(r) == Idents(t) && Everywhere(r, Fits) &&
      (Everywhere(t, Shape) ==> Everywhere(r, Shape))
  {
    var c := At(t, p);
    var n := c.(ratios := ShiftPushed(c.ratios, news));
    EverywhereAt(t, p, Fits);
    assert |n.ratios| == |c.ratios|;
    if |news| <= |c.ratios| {
      ShiftPushedShorter(c.ratios, news);
    }
    assert RatioUpdateAsWritten(t, lid, news) == Success(Replace(t, p, n));
    ReplaceAt(t, p, n);
    ReplaceRatios(t, p, n, Fits);
    if Everywhere(t, Shape) {
      EverywhereAt(t, p, Shape);
      ReplaceRatios(t, p, n, Shape);
    }
  }

  // ---------------------------------------------------------------------------
  // The operations as they evidently should behave

  /** The way to split for the direction splitWindow is given. */
  function WayOf(d: Direction): (w: Way)
    ensures DirectionOf(w) == d
  {
    match d
    case Row => Vertical
    case Column => assert DirectionOf(Horizontal) == Column; Horizontal
  }

  /** Successive keys from `k`, as the `nextkey++` of updateLayerTreeKeys hands them out. */
  function Count(k: int, n: nat): (r: seq<int>)
    ensures |r| == n && forall j :: 0 <= j < n ==> r[j] == k + j
  {
    seq(n, j => k + j)
  }

  /** The id the corrected split gives the new window. */
  function NewWindowId(t: Node): int
  {
    NextOr(NestedAreas(t), Id)
  }

  /** The id the corrected split gives a new layer. */
  function NewLayerId(t: Node): int
  {
    NextOr(NestedContainers(t), Id)
  }

  /** The keys the corrected split hands out: one for a new layer and one
      for each layer on the way up to the root. */
  function SplitKeys(t: Node): (r: seq<int>)
    ensures Height(t) < |r|
  {
    Count(NextOr(NestedContainers(t), Key), Height(t) + 1)
  }

  /** The keys the corrected delete hands out: two for each level. */
  function DeleteKeys(t: Node): (r: seq<int>)
    ensures |r| == 2 * Height(t)
  {
    Count(NextOr(NestedContainers(t), Key), 2 * Height(t))
  }

  /** splitWindow with the window found by type, as src/Layout.js finds an
      area; the new ids from NextOr, so that the single root window can be
      split; and the layer re-keyed together with its ancestors, with
      successive keys from the next layer key. */
  function SplitWindow(t: Node, winId: int, d: Direction): Node
    requires Everywhere(t, Fits)
  {
    AfterSplit(t, winId, WayOf(d), 50.0, true, NewWindowId(t), NewLayerId(t), SplitKeys(t))
  }

  /** deleteWindow with the window found by type, the remaining child of a
      collapsed layer put in the layer's place in its parent, and the parent
      re-keyed instead of the removed layer; keys continue from the next
      layer key of the layout before the delete. */
  function DeleteWindow(t: Node, winId: int): Result<Node, DeleteError>
    requires Everywhere(t, Fits)
  {
    AfterDelete(t, winId, DeleteKeys(t))
  }

  /** The new ids the corrected split uses are fresh. */
  lemma SplitWindowFresh(t: Node)
    requires Everywhere(t, Fits)
    ensures NextWindowId(t) == Some(NewWindowId(t))
    ensures LeafId(NewWindowId(t)) !in Idents(t)
    ensures ContainerId(NewLayerId(t)) !in Idents(t)
    ensures t.Container? ==> NextLayerId(t) == Some(NewLayerId(t)) && NextLayerKey(t) == Some(SplitKeys(t)[0])
  {
    NextWindowIdFresh(t);
    HasWindow(t);
    NextOrAbove(NestedAreas(t), Id);
    NextOrAbove(NestedContainers(t), Id);
    NextOrAbove(NestedContainers(t), Key);
    var lid := NewLayerId(t);
    if ContainerId(lid) in Idents(t) {
      LayersAreIdents(t, lid);
    }
  }

  /** The corrected split keeps ids unique and every per-container property
      the layout had. */
  lemma SplitWindowKeeps(t: Node, winId: int, d: Direction, prop: Property)
    requires Everywhere(t, Fits) && Everywhere(t, prop) && Unique(t)
    ensures Everywhere(SplitWindow(t, winId, d), prop) && Unique(SplitWindow(t, winId, d))
  {
    SplitWindowFresh(t);
    var wid, lid, keys := NewWindowId(t), NewLayerId(t), SplitKeys(t);
    AfterSplitUnique(t, winId, WayOf(d), 50.0, true, wid, lid, keys);
    AfterSplitKeeps(t, winId, WayOf(d), 50.0, true, wid, lid, keys, prop);
  }

  /** The corrected split, undone by the corrected delete of the window it
      added, gives back the layout, keys aside. */
  lemma SplitThenDeleteWindow(t: Node, winId: int, d: Direction)
    requires Everywhere(t, Fits) && Unique(t)
    ensures Everywhere(SplitWindow(t, winId, d), Fits)
    ensures var s := SplitWindow(t, winId, d);
      DeleteWindow(s, NewWindowId(t)).Success? &&
      EraseKeys(DeleteWindow(s, NewWindowId(t)).value) == EraseKeys(t)
  {
    SplitWindowFresh(t);
    var wid, lid, keys := NewWindowId(t), NewLayerId(t), SplitKeys(t);
    var s := SplitWindow(t, winId, d);
    assert s == AfterSplit(t, winId, WayOf(d), 50.0, true, wid, lid, keys);
    SplitWindowKeeps(t, winId, d, Fits);
    var keys2 := DeleteKeys(s);
    SplitThenDelete(t, winId, WayOf(d), 50.0, wid, lid, keys, keys2);
  }

  // ---------------------------------------------------------------------------
  // Where the two agree

  /** Splitting in the layer at `cp`, the source's way and the corrected
      way give the same layout, keys aside, when they build the same
      replacement layer. */
  lemma SplitInAgrees(t: Node, cp: Path, i: nat, d: Direction, wid: int, lid: int, keys: seq<int>)
    requires ValidPath(t, cp) && At(t, cp).Container? && |cp| + 1 < |keys|
    requires i < |At(t, cp).children| && i < |At(t, cp).ratios|
    ensures var c := At(t, cp);
      var n := if c.direction == Some(d) then SplitAlong(c, i, 50.0, true, wid)
               else SplitAcross(c, i, d, 50.0, true, wid, lid, keys[0]);
      ValidPath(Replace(t, cp, n), cp) && At(Replace(t, cp, n), cp).Container? &&
      EraseKeys(RekeyLayer(Replace(t, cp, n), cp)) == EraseKeys(SplitIn(t, cp, i, d, 50.0, true, wid, lid, keys))
  {
    var c := At(t, cp);
    var n := if c.direction == Some(d) then SplitAlong(c, i, 50.0, true, wid)
             else SplitAcross(c, i, d, 50.0, true, wid, lid, keys[0]);
    ReplaceAt(t, cp, n);
  }

  /** Where the layout holds a layer and no layer below the root has the
      id `winId`, the
      as-written split succeeds and gives the corrected layout, keys aside:
      the two differ only in the keys of the layer's ancestors, which the
      source does not change. */
  lemma SplitWindowAgrees(t: Node, winId: int, d: Direction)
    requires Everywhere(t, Fits) && t.Container? && NoLayerBelow(t, winId)
    ensures SplitWindowAsWritten(t, winId, d).Success?
    ensures EraseKeys(SplitWindowAsWritten(t, winId, d).value) == EraseKeys(SplitWindow(t, winId, d))
  {
    SplitWindowFresh(t);
    var wid := NextWindowId(t).value;
    var lid := NewLayerId(t);
    var keys := SplitKeys(t);
    WindowLayerAgrees(t, winId);
    match AreaContainerPath(t, winId)
    case None =>
      assert SplitWindow(t, winId, d) == Wrapper(t, d, 50.0, true, wid, lid, keys[0]);
      assert SplitWindowAsWritten(t, winId, d) == Success(Wrapper(t, d, 50.0, true, wid, lid, keys[0]));
    case Some(cp) =>
      SplitWindowAgreesIn(t, winId, d, cp);
  }

  lemma SplitWindowAgreesIn(t: Node, winId: int, d: Direction, cp: Path)
    requires Everywhere(t, Fits) && t.Container? && NoLayerBelow(t, winId)
    requires AreaContainerPath(t, winId) == Some(cp) && WindowLayerPath(t, winId) == Some(cp)
    ensures SplitWindowAsWritten(t, winId, d).Success?
    ensures EraseKeys(SplitWindowAsWritten(t, winId, d).value) == EraseKeys(SplitWindow(t, winId, d))
  {
    SplitWindowFresh(t);
    var wid := NextWindowId(t).value;
    var lid := NewLayerId(t);
    var keys := SplitKeys(t);
    SplitSite(t, winId, cp);
    WindowIndexAgrees(t, cp, winId);
    var i := AreaIndex(At(t, cp), winId);
    SplitInAgrees(t, cp, i, d, wid, lid, keys);
    SplitWindowAsWrittenAt(t, winId, d, cp, i);
    SplitWindowAt(t, winId, d, cp, i);
  }

  /** The as-written split of a window whose layer sits at `cp`. */
  lemma SplitWindowAsWrittenAt(t: Node, winId: int, d: Direction, cp: Path, i: nat)
    requires Everywhere(t, Fits) && t.Container?
    requires WindowLayerPath(t, winId) == Some(cp) && WindowIndex(At(t, cp), winId) == i
    ensures ValidPath(t, cp) && At(t, cp).Container? && i < |At(t, cp).children| && i < |At(t, cp).ratios|
    ensures NextWindowId(t).Some? && NextLayerId(t).Some? && NextLayerKey(t).Some?
    ensures var c := At(t, cp);
      var n := if c.direction == Some(d) then SplitAlong(c, i, 50.0, true, NextWindowId(t).value)
               else SplitAcross(c, i, d, 50.0, true, NextWindowId(t).value, NextLayerId(t).value, NextLayerKey(t).value);
      ValidPath(Replace(t, cp, n), cp) && At(Replace(t, cp, n), cp).Container? &&
      SplitWindowAsWritten(t, winId, d) == Success(RekeyLayer(Replace(t, cp, n), cp))
  {
    NextWindowIdFresh(t);
    NextLayerIdFresh(t);
    NextLayerKeyAbove(t);
    EverywhereAt(t, cp, Fits);
    var c := At(t, cp);
    var n := if c.direction == Some(d) then SplitAlong(c, i, 50.0, true, NextWindowId(t).value)
             else SplitAcross(c, i, d, 50.0, true, NextWindowId(t).value, NextLayerId(t).value, NextLayerKey(t).value);
    ReplaceAt(t, cp, n);
  }

  /** The corrected split of a window whose layer sits at `cp`. */
  lemma SplitWindowAt(t: Node, winId: int, d: Direction, cp: Path, i: nat)
    requires Everywhere(t, Fits)
    requires AreaContainerPath(t, winId) == Some(cp)
    requires ValidPath(t, cp) && HasArea(At(t, cp), winId) && |cp| + 1 <= Height(t)
    requires AreaIndex(At(t, cp), winId) == i && i < |At(t, cp).ratios|
    ensures SplitWindow(t, winId, d) == SplitIn(t, cp, i, d, 50.0, true, NewWindowId(t),
      NewLayerId(t), SplitKeys(t))
  {
    assert DirectionOf(WayOf(d)) == d;
  }

  /** Where no layer below the root has the id `winId`, the as-written
      delete throws its
      message exactly when the corrected one fails, leaving the layout. */
  lemma DeleteWindowMissing(t: Node, winId: int)
    requires Everywhere(t, Fits) && NoLayerBelow(t, winId)
    ensures DeleteWindowAsWritten(t, winId).thrown == Some(RootWindow(winId)) <==> DeleteWindow(t, winId).Failure?
    ensures DeleteWindow(t, winId).Failure? ==> DeleteWindowAsWritten(t, winId).layout == t
  {
    WindowLayerAgrees(t, winId);
  }

  /** Whatever the ids, the as-written delete throws its "root window"
      message exactly when no layer has a child with that id, window or
      layer, and then leaves the layout as it was. */
  lemma DeleteWindowThrowsRoot(t: Node, winId: int)
    requires Everywhere(t, Fits)
    ensures DeleteWindowAsWritten(t, winId).thrown == Some(RootWindow(winId)) <==>
      forall p :: ValidPath(t, p) && At(t, p).Container? ==> !HasChildId(At(t, p), winId)
    ensures DeleteWindowAsWritten(t, winId).thrown == Some(RootWindow(winId)) ==> DeleteWindowAsWritten(t, winId).layout == t
  {
    var o := DeleteWindowAsWritten(t, winId);
    var r := WindowLayerPath(t, winId);
    assert o.thrown == Some(RootWindow(winId)) <==> r.None?;
    if r.None? {
      assert forall p :: ValidPath(t, p) && At(t, p).Container? ==> !HasChildId(At(t, p), winId);
      assert o.layout == t;
    } else {
      var lp := r.value;
      assert ValidPath(t, lp) && At(t, lp).Container? && HasChildId(At(t, lp), winId);
      assert o.thrown != Some(RootWindow(winId));
      assert !(forall p :: ValidPath(t, p) && At(t, p).Container? ==> !HasChildId(At(t, p), winId));
    }
  }

  /** The root layer may share the window's id: layer 1 holding windows 1
      and 2. Deleting window 1 then goes as the corrected delete does. */
  lemma RootLayerSharesId()
    ensures var t := Container(1, 1, Some(Row), [50.0, 50.0], [Leaf(1), Leaf(2)]);
      ContainerId(1) in Idents(t) && NoLayerBelow(t, 1) &&
      DeleteWindow(t, 1).Success? && DeleteWindowAsWritten(t, 1).layout == DeleteWindow(t, 1).value
  {
    var t := Container(1, 1, Some(Row), [50.0, 50.0], [Leaf(1), Leaf(2)]);
    assert Everywhere(t, Fits);
    forall p | ValidPath(t, p) && p != [] ensures At(t, p).Leaf? || At(t, p).id != 1 {
      var c := t.children[p[0]];
      assert c.Leaf? && ValidPath(c, p[1..]);
      assert At(t, p) == At(c, p[1..]) == c;
    }
    assert HasArea(t, 1);
    assert NestedContainers(t)[0] == t;
    assert ContainerPaths(t)[0] == [];
    assert AreaContainerPath(t, 1) == Some([]);
    DeleteWindowRootAgrees(t, 1);
  }

  /** Where no layer below the root has the id `winId` and its layer keeps
      two children or
      more, the as-written delete merges as the corrected one does, keys
      aside, and throws nothing. */
  lemma DeleteWindowMergeAgrees(t: Node, winId: int, cp: Path)
    requires Everywhere(t, Fits) && NoLayerBelow(t, winId)
    requires AreaContainerPath(t, winId) == Some(cp)
    requires ValidPath(t, cp) && At(t, cp).Container? && |At(t, cp).children| > 2
    ensures DeleteWindowAsWritten(t, winId).thrown == None && DeleteWindow(t, winId).Success?
    ensures EraseKeys(DeleteWindowAsWritten(t, winId).layout) == EraseKeys(DeleteWindow(t, winId).value)
  {
    WindowLayerAgrees(t, winId);
    SplitSite(t, winId, cp);
    WindowIndexAgrees(t, cp, winId);
  }

  /** Where the window is a child of the root layer, which has two children,
      the as-written delete leaves exactly the corrected layout, but throws
      a TypeError when that is a single window. */
  lemma DeleteWindowRootAgrees(t: Node, winId: int)
    requires Everywhere(t, Fits) && NoLayerBelow(t, winId)
    requires AreaContainerPath(t, winId) == Some([]) && |t.children| == 2
    ensures DeleteWindow(t, winId).Success?
    ensures DeleteWindowAsWritten(t, winId).layout == DeleteWindow(t, winId).value
    ensures DeleteWindowAsWritten(t, winId).thrown == if DeleteWindow(t, winId).value.Leaf? then Some(TypeError) else None
  {
    WindowLayerAgrees(t, winId);
    SplitSite(t, winId, []);
    WindowIndexAgrees(t, [], winId);
  }

  // ---------------------------------------------------------------------------
  // Layouts on which the source goes wrong

  /** A layout of one window: getNextLayerId reads the largest id of an
      empty layer list, so the source cannot split it; the corrected split
      wraps it in a first layer with id 1 and key 1. */
  lemma SplitSingleWindow(w: int, d: Direction)
    ensures SplitWindowAsWritten(Leaf(w), w, d) == Failure(TypeError)
    ensures SplitWindow(Leaf(w), w, d) == Container(1, 1, Some(d), [50.0, 50.0], [Leaf(w), Leaf(w + 1)])
  {
    var t := Leaf(w);
    assert NestedContainers(t) == [];
    assert NestedAreas(t) == [t];
    assert MaxField([t], Id) == w;
    assert AreaContainerPath(t, w) == None;
    assert SplitKeys(t)[0] == 1;
  }

  /** A layer of two windows: deleting the second leaves the first as the
      whole layout, and the source then asks an empty layer list for its
      next key and throws; the corrected delete just returns the window. */
  lemma DeleteLastButOne(w1: int, w2: int, key: int, d: Option<Direction>)
    requires w1 != w2
    ensures var t := Container(1, key, d, [50.0, 50.0], [Leaf(w1), Leaf(w2)]);
      DeleteWindowAsWritten(t, w2) == Outcome(Leaf(w1), Some(TypeError)) &&
      DeleteWindow(t, w2) == Success(Leaf(w1))
  {
    var t := Container(1, key, d, [50.0, 50.0], [Leaf(w1), Leaf(w2)]);
    var cs := t.children;
    assert cs[1..][1..] == [];
    assert NestedContainersOf(cs[1..]) == [];
    assert NestedContainersOf(cs) == [];
    assert NestedContainers(t) == [t];
    assert ContainerPathsOf(cs[1..], 1) == [];
    assert ContainerPathsOf(cs, 0) == [];
    assert ContainerPaths(t) == [[]];
    assert HasChildId(t, w2) && HasArea(t, w2);
    assert WindowLayerPath(t, w2) == Some([]);
    assert AreaContainerPath(t, w2) == Some([]);
    assert WindowIndex(t, w2) == 1;
    assert AreaIndex(t, w2) == 1;
  }

  /** Window 2 sits beside layer 2: the source's lookup takes the layer for
      the window, removes it and throws when the surviving window 2 becomes
      the layout; the corrected delete removes window 2 and keeps layer 2. */
  lemma WindowMistakenForLayer()
    ensures var l2 := Container(2, 2, Some(Column), [50.0, 50.0], [Leaf(1), Leaf(3)]);
      var t := Container(1, 1, Some(Row), [50.0, 50.0], [l2, Leaf(2)]);
      Everywhere(t, Fits) && Unique(t) &&
      DeleteWindowAsWritten(t, 2) == Outcome(Leaf(2), Some(TypeError)) &&
      DeleteWindow(t, 2) == Success(l2)
  {
    var l2 := Container(2, 2, Some(Column), [50.0, 50.0], [Leaf(1), Leaf(3)]);
    var t := Container(1, 1, Some(Row), [50.0, 50.0], [l2, Leaf(2)]);
    assert Everywhere(l2, Fits);
    assert Everywhere(t, Fits);
    assert HasChildId(t, 2) && HasArea(t, 2);
    assert NestedContainers(t)[0] == t;
    assert ContainerPaths(t)[0] == [];
    assert WindowLayerPath(t, 2) == Some([]);
    assert AreaContainerPath(t, 2) == Some([]);
    assert WindowIndex(t, 2) == 0;
    assert AreaIndex(t, 2) == 1;
    MistakenLayoutUnique(t, l2);
  }

  /** The layout of WindowMistakenForLayer uses no id twice for one kind. */
  lemma MistakenLayoutUnique(t: Node, l2: Node)
    requires l2 == Container(2, 2, Some(Column), [50.0, 50.0], [Leaf(1), Leaf(3)])
    requires t == Container(1, 1, Some(Row), [50.0, 50.0], [l2, Leaf(2)])
    ensures Unique(t)
  {
    PairIdents(l2, ContainerId(2), LeafId(1), LeafId(3));
    PairIdents(t, ContainerId(1), ContainerId(2), LeafId(2));
    MistakenIdentsDistinct();
  }

  /** The ids of a container of two children, the second a window. */
  lemma PairIdents(c: Node, x: NodeId, y: NodeId, z: NodeId)
    requires c.Container? && |c.children| == 2 && c.children[1].Leaf?
    requires x == IdOf(c) && z == IdOf(c.children[1])
    requires c.children[0].Leaf? ==> y == IdOf(c.children[0])
    ensures c.children[0].Leaf? ==> Idents(c) == multiset{x, y, z}
    ensures Idents(c) == multiset{x} + Idents(c.children[0]) + multiset{z}
  {
    IdentsOfPair(c.children);
  }

  lemma MistakenIdentsDistinct()
    ensures NoDuplicates(multiset{ContainerId(1)} + multiset{ContainerId(2), LeafId(1), LeafId(3)} + multiset{LeafId(2)})
  {
    var m := multiset{ContainerId(1)} + multiset{ContainerId(2), LeafId(1), LeafId(3)} + multiset{LeafId(2)};
    forall x | x in m
      ensures m[x] == 1
    {
    }
  }

  /** Window 2 sits in layer 3, beside layer 2 in layer 1. getWindowLayer
      takes layer 1 for window 2's layer, because layer 1 has a child, layer
      2, with id 2. The source then removes layer 2 with windows 1 and 3 and
      makes layer 3 the layout; the corrected delete removes window 2 and
      puts window 4 in layer 3's place. */
  lemma WindowLayerMistaken()
    ensures var l2 := Container(2, 2, Some(Column), [50.0, 50.0], [Leaf(1), Leaf(3)]);
      var l3 := Container(3, 3, Some(Column), [50.0, 50.0], [Leaf(2), Leaf(4)]);
      var t := Container(1, 1, Some(Row), [50.0, 50.0], [l2, l3]);
      Everywhere(t, Fits) && Unique(t) &&
      WindowLayerPath(t, 2) == Some([]) && AreaContainerPath(t, 2) == Some([1]) &&
      DeleteWindowAsWritten(t, 2) == Outcome(l3, None) &&
      DeleteWindow(t, 2).Success? &&
      EraseKeys(DeleteWindow(t, 2).value) == EraseKeys(Container(1, 1, Some(Row), [50.0, 50.0], [l2, Leaf(4)]))
  {
    var l2 := Container(2, 2, Some(Column), [50.0, 50.0], [Leaf(1), Leaf(3)]);
    var l3 := Container(3, 3, Some(Column), [50.0, 50.0], [Leaf(2), Leaf(4)]);
    var t := Container(1, 1, Some(Row), [50.0, 50.0], [l2, l3]);
    WindowLayerMistakenSite(t, l2, l3);
    assert At(t, [1]) == l3;
    assert Collapsed(t, [1], 0) == Container(1, 1, Some(Row), [50.0, 50.0], [l2, Leaf(4)]) by {
      var found := FindIndex(t.children, (ch: Node) => ch.Container? && ch.id == 3);
      assert found == Some(1);
    }
    assert DeleteWindow(t, 2) == Success(CollapseAt(t, [1], 0, DeleteKeys(t)));
  }

  /** A root layer with a child of that id is the layer getWindowLayer
      returns, since it comes first in pre-order. */
  lemma RootLayerFirst(t: Node, winId: int)
    requires t.Container? && exists k :: 0 <= k < |t.children| && t.children[k].id == winId
    ensures WindowLayerPath(t, winId) == Some([])
  {
    assert HasChildId(t, winId);
    assert NestedContainers(t)[0] == t;
    assert ContainerPaths(t)[0] == [];
  }

  /** Where the lookups of WindowLayerMistaken land. */
  lemma WindowLayerMistakenSite(t: Node, l2: Node, l3: Node)
    requires l2 == Container(2, 2, Some(Column), [50.0, 50.0], [Leaf(1), Leaf(3)])
    requires l3 == Container(3, 3, Some(Column), [50.0, 50.0], [Leaf(2), Leaf(4)])
    requires t == Container(1, 1, Some(Row), [50.0, 50.0], [l2, l3])
    ensures Everywhere(t, Fits) && Unique(t)
    ensures WindowLayerPath(t, 2) == Some([]) && WindowIndex(t, 2) == 0
    ensures AreaContainerPath(t, 2) == Some([1]) && AreaIndex(l3, 2) == 0
  {
    WindowLayerMistakenFits(t, l2, l3);
    WindowLayerMistakenIds(t, l2, l3);
    WindowLayerMistakenFirst(t, l2, l3);
    WindowLayerMistakenPaths(t, l2, l3);
  }

  lemma WindowLayerMistakenFits(t: Node, l2: Node, l3: Node)
    requires l2 == Container(2, 2, Some(Column), [50.0, 50.0], [Leaf(1), Leaf(3)])
    requires l3 == Container(3, 3, Some(Column), [50.0, 50.0], [Leaf(2), Leaf(4)])
    requires t == Container(1, 1, Some(Row), [50.0, 50.0], [l2, l3])
    ensures Everywhere(t, Fits)
  {
    assert Everywhere(l2, Fits);
    assert Everywhere(l3, Fits);
  }

  lemma WindowLayerMistakenIds(t: Node, l2: Node, l3: Node)
    requires l2 == Container(2, 2, Some(Column), [50.0, 50.0], [Leaf(1), Leaf(3)])
    requires l3 == Container(3, 3, Some(Column), [50.0, 50.0], [Leaf(2), Leaf(4)])
    requires t == Container(1, 1, Some(Row), [50.0, 50.0], [l2, l3])
    ensures Unique(t)
  {
    PairIdents(l2, ContainerId(2), LeafId(1), LeafId(3));
    PairIdents(l3, ContainerId(3), LeafId(2), LeafId(4));
    WindowLayerMistakenUnique(t);
  }

  lemma WindowLayerMistakenFirst(t: Node, l2: Node, l3: Node)
    requires l2 == Container(2, 2, Some(Column), [50.0, 50.0], [Leaf(1), Leaf(3)])
    requires l3 == Container(3, 3, Some(Column), [50.0, 50.0], [Leaf(2), Leaf(4)])
    requires t == Container(1, 1, Some(Row), [50.0, 50.0], [l2, l3])
    ensures WindowLayerPath(t, 2) == Some([]) && WindowIndex(t, 2) == 0
  {
    assert t.children[0].id == 2;
    RootLayerFirst(t, 2);
  }

  /** The pre-order lists of WindowLayerMistaken: layer 3 is the third
      layer, at position [1], and only it holds window 2. */
  lemma WindowLayerMistakenPaths(t: Node, l2: Node, l3: Node)
    requires l2 == Container(2, 2, Some(Column), [50.0, 50.0], [Leaf(1), Leaf(3)])
    requires l3 == Container(3, 3, Some(Column), [50.0, 50.0], [Leaf(2), Leaf(4)])
    requires t == Container(1, 1, Some(Row), [50.0, 50.0], [l2, l3])
    ensures AreaContainerPath(t, 2) == Some([1]) && AreaIndex(l3, 2) == 0
  {
    assert !HasArea(t, 2) && !HasArea(l2, 2);
    assert l3.children[0] == Leaf(2);
    assert HasArea(l3, 2);
    var cs := t.children;
    assert cs[1..] == [l3] && cs[1..][1..] == [];
    assert NestedContainersOf(cs[1..]) == NestedContainers(l3) + NestedContainersOf([]);
    assert NestedContainersOf(cs) == NestedContainers(l2) + NestedContainersOf(cs[1..]);
    assert NestedContainers(l2) == [l2];
    assert NestedContainers(l3) == [l3];
    assert NestedContainers(t) == [t, l2, l3];
    assert ContainerPaths(l2) == [[]];
    assert ContainerPaths(l3) == [[]];
    assert ContainerPathsOf(cs[1..], 1)[0] == [1] + ContainerPaths(l3)[0];
    assert ContainerPathsOf(cs, 0)[1] == ContainerPathsOf(cs[1..], 1)[0];
    assert ContainerPaths(t)[2] == [1];
  }

  /** The layout of WindowLayerMistaken uses no id twice for one kind. */
  lemma WindowLayerMistakenUnique(t: Node)
    requires t.Container? && |t.children| == 2 && IdOf(t) == ContainerId(1)
    requires Idents(t.children[0]) == multiset{ContainerId(2), LeafId(1), LeafId(3)}
    requires Idents(t.children[1]) == multiset{ContainerId(3), LeafId(2), LeafId(4)}
    ensures Unique(t)
  {
    IdentsOfPair(t.children);
    WindowLayerMistakenDistinct(multiset{ContainerId(1)} + Idents(t.children[0]), Idents(t.children[1]));
  }

  /** The ids of WindowLayerMistaken, counted in two parts. */
  lemma WindowLayerMistakenDistinct(a: multiset<NodeId>, b: multiset<NodeId>)
    requires a == multiset{ContainerId(1)} + multiset{ContainerId(2), LeafId(1), LeafId(3)}
    requires b == multiset{ContainerId(3), LeafId(2), LeafId(4)}
    ensures NoDuplicates(a + b)
  {
    forall x | x in a ensures a[x] == 1 { }
    forall x | x in b ensures b[x] == 1 { }
    forall x | x in a + b ensures (a + b)[x] == 1 {
      if x in a {
        assert x !in b;
      }
    }
  }

  /** Window 5 shares layer 2 with layer 3: the source puts layer 3 in place
      of the whole layout, and window 4 is lost; the corrected delete puts
      layer 3 in layer 2's place beside window 4. */
  lemma CollapseLosesLayout()
    ensures var l3 := Container(3, 3, Some(Row), [50.0, 50.0], [Leaf(6), Leaf(7)]);
      var t := Container(1, 1, Some(Row), [50.0, 50.0], [Leaf(4), Container(2, 2, Some(Column), [50.0, 50.0], [Leaf(5), l3])]);
      Everywhere(t, Fits) &&
      DeleteWindowAsWritten(t, 5) == Outcome(l3, None) &&
      DeleteWindow(t, 5).Success? &&
      EraseKeys(DeleteWindow(t, 5).value) == EraseKeys(Container(1, 1, Some(Row), [50.0, 50.0], [Leaf(4), l3]))
  {
    var l3 := Container(3, 3, Some(Row), [50.0, 50.0], [Leaf(6), Leaf(7)]);
    var l2 := Container(2, 2, Some(Column), [50.0, 50.0], [Leaf(5), l3]);
    var t := Container(1, 1, Some(Row), [50.0, 50.0], [Leaf(4), l2]);
    CollapseSite(t, l2, l3);
    assert At(t, [1]) == l2;
    assert Collapsed(t, [1], 0) == Container(1, 1, Some(Row), [50.0, 50.0], [Leaf(4), l3]) by {
      var found := FindIndex(t.children, (ch: Node) => ch.Container? && ch.id == 2);
      assert found == Some(1);
    }
    assert DeleteWindow(t, 5) == Success(CollapseAt(t, [1], 0, DeleteKeys(t)));
  }

  /** The input of CollapseLosesLayout has no layer with the window's id,
      yet the two deletes part, keys aside: the agreement lemmas need their
      own case conditions beside `NoLayerBelow`. */
  lemma CollapseDisagrees()
    ensures var l3 := Container(3, 3, Some(Row), [50.0, 50.0], [Leaf(6), Leaf(7)]);
      var t := Container(1, 1, Some(Row), [50.0, 50.0], [Leaf(4), Container(2, 2, Some(Column), [50.0, 50.0], [Leaf(5), l3])]);
      NoLayerBelow(t, 5) && DeleteWindow(t, 5).Success? &&
      EraseKeys(DeleteWindowAsWritten(t, 5).layout) != EraseKeys(DeleteWindow(t, 5).value)
  {
    var l3 := Container(3, 3, Some(Row), [50.0, 50.0], [Leaf(6), Leaf(7)]);
    var l2 := Container(2, 2, Some(Column), [50.0, 50.0], [Leaf(5), l3]);
    var t := Container(1, 1, Some(Row), [50.0, 50.0], [Leaf(4), l2]);
    CollapseLosesLayout();
    CollapseNoLayer(t, l2, l3);
    assert EraseKeys(l3).id == 3;
  }

  /** No layer of the CollapseLosesLayout input has id 5. */
  lemma CollapseNoLayer(t: Node, l2: Node, l3: Node)
    requires l3 == Container(3, 3, Some(Row), [50.0, 50.0], [Leaf(6), Leaf(7)])
    requires l2 == Container(2, 2, Some(Column), [50.0, 50.0], [Leaf(5), l3])
    requires t == Container(1, 1, Some(Row), [50.0, 50.0], [Leaf(4), l2])
    ensures NoLayerBelow(t, 5)
  {
    IdentsOfPair(l3.children);
    IdentsOfPair(l2.children);
    IdentsOfPair(t.children);
    assert ContainerId(5) !in Idents(t);
    NoLayerAnywhere(t, 5);
  }

  /** Where the lookups of CollapseLosesLayout land. */
  lemma CollapseSite(t: Node, l2: Node, l3: Node)
    requires l3 == Container(3, 3, Some(Row), [50.0, 50.0], [Leaf(6), Leaf(7)])
    requires l2 == Container(2, 2, Some(Column), [50.0, 50.0], [Leaf(5), l3])
    requires t == Container(1, 1, Some(Row), [50.0, 50.0], [Leaf(4), l2])
    ensures Everywhere(t, Fits)
    ensures WindowLayerPath(t, 5) == Some([1]) && AreaContainerPath(t, 5) == Some([1])
    ensures WindowIndex(l2, 5) == 0 && AreaIndex(l2, 5) == 0
  {
    assert Everywhere(l3, Fits);
    assert Everywhere(l2, Fits);
    assert !HasChildId(t, 5) && !HasArea(t, 5);
    assert l2.children[0].id == 5;
    assert HasChildId(l2, 5) && HasArea(l2, 5);
    var cs := t.children;
    assert cs[1..] == [l2] && cs[1..][1..] == [];
    assert NestedContainersOf(cs[1..]) == NestedContainers(l2) + NestedContainersOf([]);
    assert NestedContainersOf(cs) == NestedContainers(Leaf(4)) + NestedContainersOf(cs[1..]);
    assert NestedContainers(l2)[0] == l2;
    assert NestedContainers(t)[1] == l2;
    assert ContainerPaths(l2)[0] == [];
    assert ContainerPathsOf(cs[1..], 1)[0] == [1] + ContainerPaths(l2)[0];
    assert ContainerPathsOf(cs, 0) == ContainerPathsOf(cs[1..], 1);
    assert ContainerPaths(t)[1] == [1];
  }

  // ---------------------------------------------------------------------------
  // getLayerAncestors over `parent` links

  /** getLayerAncestors as written (src/components/Layout.js:195-203), with
      the `parent` links a layer would carry given as a map from a layer id
      to its parent's id, and `fuel` bounding the iterations. The loop tests
      the current layer's parent but always pushes and steps to the parent
      of the starting layer, so it ends after one step at most, or never. */
  method LayerAncestorsAsWritten(parent: map<int, int>, layer: int, fuel: nat) returns (ancestors: seq<int>, finished: bool)
    ensures finished <==> layer !in parent || (parent[layer] !in parent && fuel >= 1)
    ensures layer !in parent ==> ancestors == []
    ensures layer in parent ==> |ancestors| == if finished then 1 else fuel
    ensures forall k :: 0 <= k < |ancestors| ==> layer in parent && ancestors[k] == parent[layer]
  {
    ancestors := [];
    var current := layer;
    var steps := 0;
    while current in parent && steps < fuel
      invariant 0 <= steps <= fuel && |ancestors| == steps
      invariant steps == 0 ==> current == layer
      invariant steps > 0 ==> layer in parent && current == parent[layer]
      invariant steps > 1 ==> parent[layer] in parent
      invariant forall k :: 0 <= k < steps ==> layer in parent && ancestors[k] == parent[layer]
    {
      ancestors := ancestors + [parent[layer]];
      current := parent[layer];
      steps := steps + 1;
    }
    finished := current !in parent;
  }

  /** getLayerAncestors as evidently intended: each step goes to the parent
      of the layer reached so far, so the list runs up the chain of parents,
      nearest first, and ends at a layer with no parent unless the fuel runs
      out first. */
  method LayerAncestors(parent: map<int, int>, layer: int, fuel: nat) returns (ancestors: seq<int>, finished: bool)
    ensures |ancestors| <= fuel
    ensures ancestors != [] ==> layer in parent && ancestors[0] == parent[layer]
    ensures forall k :: 0 <= k < |ancestors| - 1 ==> ancestors[k] in parent && ancestors[k + 1] == parent[ancestors[k]]
    ensures finished <==> (if ancestors == [] then layer else ancestors[|ancestors| - 1]) !in parent
    ensures !finished ==> |ancestors| == fuel
  {
    ancestors := [];
    var current := layer;
    while current in parent && |ancestors| < fuel
      invariant |ancestors| <= fuel
      invariant current == if ancestors == [] then layer else ancestors[|ancestors| - 1]
      invariant ancestors != [] ==> layer in parent && ancestors[0] == parent[layer]
      invariant forall k :: 0 <= k < |ancestors| - 1 ==> ancestors[k] in parent && ancestors[k + 1] == parent[ancestors[k]]
    {
      ancestors := ancestors + [parent[current]];
      current := parent[current];
    }
    finished := current !in parent;
  }
}
