/** The area layout engine of src/Layout.js: splitting and deleting areas,
    re-keying, and overwriting ratios.

    Each operation is specified by a function from the layout before to the
    layout after (`AfterSplit`, `AfterDelete`, ...), whose properties are the
    lemmas of this module; the class `Layout` performs the same steps in place
    and is proved to reach exactly that layout. New ids come from an allocator
    that is not part of this model, so they are parameters that must be fresh;
    new keys come from it too, as the stream `keys`, used from the front. */
module AreaLayout {
  import opened Wrappers
  import opened Ratios
  import opened LayoutTree
  import opened Traversal
  import opened TreeKeys

  /** `"vertical"` splits into a row; any other way into a column (src/Layout.js:75). */
  datatype Way = Vertical | Horizontal

  function DirectionOf(way: Way): Direction
  {
    if way == Vertical then Row else Column
  }

  /** The ratios of a new two-child container: the percentage first. */
  function Pair(percentage: real): (r: seq<real>)
    ensures |r| == 2 && r[0] == percentage && Sum(r) == 100.0
  {
    SumAppend([percentage], [100.0 - percentage]);
    assert [percentage] + [100.0 - percentage] == [percentage, 100.0 - percentage];
    [percentage, 100.0 - percentage]
  }

  /** `insertNewAfter ? [old, new] : [new, old]`. */
  function Ordered(existing: Node, added: Node, after: bool): (r: seq<Node>)
    ensures multiset(r) == multiset{existing, added}
  {
    if after then [existing, added] else [added, existing]
  }

  /** The index of the area `aid` among a container's children: the filter
      to areas, the find by id and the `indexOf` of src/Layout.js:95-98. */
  function AreaIndex(c: Node, aid: int): (i: nat)
    requires HasArea(c, aid)
    ensures i < |c.children| && c.children[i] == Leaf(aid)
    ensures forall j :: 0 <= j < i ==> c.children[j] != Leaf(aid)
  {
    var r := FindIndex(c.children, (n: Node) => n == Leaf(aid));
    assert r.Some? by {
      var k :| 0 <= k < |c.children| && c.children[k] == Leaf(aid);
    }
    r.value
  }

  // ---------------------------------------------------------------------------
  // splitArea (src/Layout.js:72-124)

  /** The container after a split along its own direction (src/Layout.js:99-108):
      the new area is spliced in beside the split one, and the split area's
      ratio slot is cut in two, the percentage share first. */
  function SplitAlong(c: Node, i: nat, percentage: real, after: bool, newId: int): (r: Node)
    requires c.Container? && i < |c.children| && i < |c.ratios|
    ensures r.Container? && r.id == c.id && r.direction == c.direction
    ensures var at := i + if after then 1 else 0;
      && |r.children| == |c.children| + 1 && r.children[at] == Leaf(newId)
      && r.children[..at] == c.children[..at] && r.children[at + 1..] == c.children[at..]
    ensures var share := percentage / 100.0 * c.ratios[i];
      && |r.ratios| == |c.ratios| + 1 && r.ratios[..i] == c.ratios[..i] && r.ratios[i + 2..] == c.ratios[i + 1..]
      && r.ratios[i] == share && r.ratios[i + 1] == c.ratios[i] - share
    ensures Sum(r.ratios) == Sum(c.ratios)
  {
    var areaRatio := c.ratios[i];
    var first := percentage / 100.0 * areaRatio;
    var at := i + if after then 1 else 0;
    c.(children := c.children[..at] + [Leaf(newId)] + c.children[at..],
       ratios := SplitSlot(c.ratios, i, first, areaRatio - first))
  }

  /** The new two-child container of a perpendicular or root split. */
  function Wrapper(existing: Node, d: Direction, percentage: real, after: bool, newId: int, newCid: int, key: int): Node
  {
    Container(newCid, key, Some(d), Pair(percentage), Ordered(existing, Leaf(newId), after))
  }

  /** The container after a split across its direction (src/Layout.js:109-120):
      the area's slot now holds a new container wrapping it and the new area. */
  function SplitAcross(c: Node, i: nat, d: Direction, percentage: real, after: bool, newId: int, newCid: int, key: int): Node
    requires c.Container? && i < |c.children|
  {
    c.(children := c.children[i := Wrapper(c.children[i], d, percentage, after, newId, newCid, key)])
  }

  /** Splitting the child `i` of the container at `cp`, then re-keying that
      container and its ancestors (src/Layout.js:94-121). */
  function SplitIn(t: Node, cp: Path, i: nat, d: Direction, percentage: real, after: bool,
                   newId: int, newCid: int, keys: seq<int>): Node
    requires ValidPath(t, cp) && At(t, cp).Container? && |cp| + 1 < |keys|
    requires i < |At(t, cp).children| && i < |At(t, cp).ratios|
  {
    var c := At(t, cp);
    if c.direction == Some(d) then
      var n := SplitAlong(c, i, percentage, after, newId);
      ReplaceAt(t, cp, n);
      Rekey(Replace(t, cp, n), cp, keys)
    else
      var n := SplitAcross(c, i, d, percentage, after, newId, newCid, keys[0]);
      ReplaceAt(t, cp, n);
      Rekey(Replace(t, cp, n), cp, keys[1..])
  }

  /** The layout after `splitArea(aid, way, percentage, after)`, with `newId`
      and `newCid` the ids the allocator hands out. When no container holds
      the area (it is the root, or no area has that id) the whole layout is
      wrapped (src/Layout.js:82-92). */
  function AfterSplit(t: Node, aid: int, way: Way, percentage: real, after: bool,
                      newId: int, newCid: int, keys: seq<int>): Node
    requires Everywhere(t, Fits) && Height(t) < |keys|
  {
    match AreaContainerPath(t, aid)
    case None => Wrapper(t, DirectionOf(way), percentage, after, newId, newCid, keys[0])
    case Some(cp) =>
      SplitSite(t, aid, cp);
      SplitIn(t, cp, AreaIndex(At(t, cp), aid), DirectionOf(way), percentage, after, newId, newCid, keys)
  }

  /** What the lookup of the area's container guarantees. */
  lemma SplitSite(t: Node, aid: int, cp: Path)
    requires Everywhere(t, Fits) && AreaContainerPath(t, aid) == Some(cp)
    ensures ValidPath(t, cp) && HasArea(At(t, cp), aid) && |cp| + 1 <= Height(t)
    ensures AreaIndex(At(t, cp), aid) < |At(t, cp).ratios|
    ensures Everywhere(At(t, cp), Fits)
  {
    AreaContainerFound(t, aid);
    ContainerDepth(t, cp);
    EverywhereAt(t, cp, Fits);
  }

  /** The split goes into the area's own container (no new container id is used). */
  predicate SplitsAlong(t: Node, aid: int, way: Way)
  {
    match AreaContainerPath(t, aid)
    case None => false
    case Some(cp) =>
      AreaContainerFound(t, aid);
      At(t, cp).direction == Some(DirectionOf(way))
  }

  // ---------------------------------------------------------------------------
  // What a split keeps

  lemma IdentsOfInsert(cs: seq<Node>, at: nat, x: Node)
    requires at <= |cs|
    ensures IdentsOf(cs[..at] + [x] + cs[at..]) == IdentsOf(cs) + Idents(x)
  {
    var pre, post := cs[..at], cs[at..];
    IdentsOfAppend(pre + [x], post);
    IdentsOfAppend(pre, [x]);
    IdentsOfAppend(pre, post);
    TakeDrop(cs, at);
    assert IdentsOf([x]) == Idents(x) by {
      assert [x][1..] == [];
    }
    Insert3(IdentsOf(pre + [x] + post), IdentsOf(pre + [x]), IdentsOf(cs), IdentsOf(pre), Idents(x), IdentsOf(post));
  }

  /** `w` is `a + x + b` and `c` is `a + b`, so `w` is `c + x`. */
  lemma Insert3<T>(w: multiset<T>, p: multiset<T>, c: multiset<T>, a: multiset<T>, x: multiset<T>, b: multiset<T>)
    requires w == p + b && p == a + x && c == a + b
    ensures w == c + x
  {
  }

  lemma IdentsOfOrdered(existing: Node, added: Node, after: bool)
    ensures IdentsOf(Ordered(existing, added, after)) == Idents(existing) + Idents(added)
  {
    var cs := Ordered(existing, added, after);
    assert IdentsOf(cs) == Idents(cs[0]) + IdentsOf(cs[1..]);
    assert cs[1..] == [cs[1]] && [cs[1]][1..] == [];
    assert IdentsOf([cs[1]]) == Idents(cs[1]) + IdentsOf([]);
  }

  lemma SplitAlongIdents(c: Node, i: nat, percentage: real, after: bool, newId: int)
    requires c.Container? && i < |c.children| && i < |c.ratios|
    ensures Idents(SplitAlong(c, i, percentage, after, newId)) == Idents(c) + multiset{LeafId(newId)}
  {
    IdentsOfInsert(c.children, i + if after then 1 else 0, Leaf(newId));
  }

  lemma SplitAcrossIdents(c: Node, i: nat, d: Direction, percentage: real, after: bool, newId: int, newCid: int, key: int)
    requires c.Container? && i < |c.children|
    ensures Idents(SplitAcross(c, i, d, percentage, after, newId, newCid, key)) ==
      Idents(c) + multiset{LeafId(newId)} + multiset{ContainerId(newCid)}
  {
    var w := Wrapper(c.children[i], d, percentage, after, newId, newCid, key);
    IdentsOfUpdate(c.children, i, w);
    IdentsOfOrdered(c.children[i], Leaf(newId), after);
  }

  /** Replacing a subtree by one with `extra` ids adds exactly those, and
      re-keying afterwards changes no id. */
  lemma ReplaceAdds(t: Node, cp: Path, n: Node, extra: multiset<NodeId>, keys: seq<int>)
    requires ValidPath(t, cp) && n.Container? && |cp| < |keys|
    requires Idents(n) == Idents(At(t, cp)) + extra
    ensures ValidPath(Replace(t, cp, n), cp) && At(Replace(t, cp, n), cp).Container?
    ensures Idents(Rekey(Replace(t, cp, n), cp, keys)) == Idents(t) + extra
  {
    ReplaceAt(t, cp, n);
    ReplaceIdents(t, cp, n);
    SameButKeys(Rekey(Replace(t, cp, n), cp, keys), Replace(t, cp, n));
  }

  lemma SplitInIdents(t: Node, cp: Path, i: nat, d: Direction, percentage: real, after: bool,
                      newId: int, newCid: int, keys: seq<int>)
    requires ValidPath(t, cp) && At(t, cp).Container? && |cp| + 1 < |keys|
    requires i < |At(t, cp).children| && i < |At(t, cp).ratios|
    ensures Idents(SplitIn(t, cp, i, d, percentage, after, newId, newCid, keys)) ==
      Idents(t) + multiset{LeafId(newId)} + if At(t, cp).direction == Some(d) then multiset{} else multiset{ContainerId(newCid)}
  {
    var c := At(t, cp);
    if c.direction == Some(d) {
      SplitAlongIdents(c, i, percentage, after, newId);
      ReplaceAdds(t, cp, SplitAlong(c, i, percentage, after, newId), multiset{LeafId(newId)}, keys);
    } else {
      SplitAcrossIdents(c, i, d, percentage, after, newId, newCid, keys[0]);
      ReplaceAdds(t, cp, SplitAcross(c, i, d, percentage, after, newId, newCid, keys[0]),
                  multiset{LeafId(newId)} + multiset{ContainerId(newCid)}, keys[1..]);
    }
  }

  /** A split adds the new area, and the new container unless it splits along. */
  lemma AfterSplitIdents(t: Node, aid: int, way: Way, percentage: real, after: bool,
                         newId: int, newCid: int, keys: seq<int>)
    requires Everywhere(t, Fits) && Height(t) < |keys|
    ensures Idents(AfterSplit(t, aid, way, percentage, after, newId, newCid, keys)) ==
      Idents(t) + multiset{LeafId(newId)} + if SplitsAlong(t, aid, way) then multiset{} else multiset{ContainerId(newCid)}
  {
    match AreaContainerPath(t, aid)
    case None =>
      IdentsOfOrdered(t, Leaf(newId), after);
    case Some(cp) =>
      SplitSite(t, aid, cp);
      SplitInIdents(t, cp, AreaIndex(At(t, cp), aid), DirectionOf(way), percentage, after, newId, newCid, keys);
  }

  /** With fresh ids, a split keeps every id unique. */
  lemma AfterSplitUnique(t: Node, aid: int, way: Way, percentage: real, after: bool,
                         newId: int, newCid: int, keys: seq<int>)
    requires Everywhere(t, Fits) && Height(t) < |keys| && Unique(t)
    requires LeafId(newId) !in Idents(t) && ContainerId(newCid) !in Idents(t)
    ensures Unique(AfterSplit(t, aid, way, percentage, after, newId, newCid, keys))
  {
    AfterSplitIdents(t, aid, way, percentage, after, newId, newCid, keys);
  }

  lemma EverywhereInsert(c: Node, at: nat, x: Node, prop: Property)
    requires c.Container? && at <= |c.children| && Everywhere(c, prop) && Everywhere(x, prop)
    ensures forall ch :: ch in c.children[..at] + [x] + c.children[at..] ==> Everywhere(ch, prop)
  {
    forall ch | ch in c.children[..at] + [x] + c.children[at..] ensures Everywhere(ch, prop) {
      if ch != x {
        assert ch in c.children[..at] || ch in c.children[at..];
      }
    }
  }

  lemma SplitAlongKeeps(c: Node, i: nat, percentage: real, after: bool, newId: int, prop: Property)
    requires c.Container? && i < |c.children| && i < |c.ratios| && Everywhere(c, prop)
    ensures Everywhere(SplitAlong(c, i, percentage, after, newId), prop)
  {
    EverywhereInsert(c, i + if after then 1 else 0, Leaf(newId), prop);
  }

  lemma SplitAcrossKeeps(c: Node, i: nat, d: Direction, percentage: real, after: bool, newId: int, newCid: int, key: int, prop: Property)
    requires c.Container? && i < |c.children| && Everywhere(c, prop)
    ensures Everywhere(SplitAcross(c, i, d, percentage, after, newId, newCid, key), prop)
  {
    var n := SplitAcross(c, i, d, percentage, after, newId, newCid, key);
    var w := Wrapper(c.children[i], d, percentage, after, newId, newCid, key);
    assert c.children[i] in c.children;
    assert Everywhere(w, prop);
    forall ch | ch in n.children ensures Everywhere(ch, prop) {
      var j :| 0 <= j < |n.children| && n.children[j] == ch;
      if j != i {
        assert c.children[j] in c.children;
      }
    }
  }

  /** Putting a subtree with a per-container invariant into a tree with it,
      and re-keying, keeps the invariant. */
  lemma ReplaceKeeps(t: Node, cp: Path, n: Node, keys: seq<int>, prop: Property)
    requires ValidPath(t, cp) && n.Container? && |cp| < |keys|
    requires Everywhere(t, prop) && Everywhere(n, prop)
    ensures ValidPath(Replace(t, cp, n), cp) && At(Replace(t, cp, n), cp).Container?
    ensures Everywhere(Rekey(Replace(t, cp, n), cp, keys), prop)
  {
    ReplaceAt(t, cp, n);
    EverywhereReplace(t, cp, n, prop);
    SameButKeys(Rekey(Replace(t, cp, n), cp, keys), Replace(t, cp, n));
  }

  lemma SplitInKeeps(t: Node, cp: Path, i: nat, d: Direction, percentage: real, after: bool,
                     newId: int, newCid: int, keys: seq<int>, prop: Property)
    requires ValidPath(t, cp) && At(t, cp).Container? && |cp| + 1 < |keys|
    requires i < |At(t, cp).children| && i < |At(t, cp).ratios|
    requires Everywhere(t, prop)
    ensures Everywhere(SplitIn(t, cp, i, d, percentage, after, newId, newCid, keys), prop)
  {
    var c := At(t, cp);
    EverywhereAt(t, cp, prop);
    if c.direction == Some(d) {
      SplitAlongKeeps(c, i, percentage, after, newId, prop);
      ReplaceKeeps(t, cp, SplitAlong(c, i, percentage, after, newId), keys, prop);
    } else {
      SplitAcrossKeeps(c, i, d, percentage, after, newId, newCid, keys[0], prop);
      ReplaceKeeps(t, cp, SplitAcross(c, i, d, percentage, after, newId, newCid, keys[0]), keys[1..], prop);
    }
  }

  /** A split keeps each per-container invariant the layout had: one ratio per
      child and two children at least, and ratios that add up to 100. */
  lemma AfterSplitKeeps(t: Node, aid: int, way: Way, percentage: real, after: bool,
                        newId: int, newCid: int, keys: seq<int>, prop: Property)
    requires Everywhere(t, Fits) && Height(t) < |keys| && Everywhere(t, prop)
    ensures Everywhere(AfterSplit(t, aid, way, percentage, after, newId, newCid, keys), prop)
  {
    match AreaContainerPath(t, aid)
    case None =>
    case Some(cp) =>
      SplitSite(t, aid, cp);
      SplitInKeeps(t, cp, AreaIndex(At(t, cp), aid), DirectionOf(way), percentage, after, newId, newCid, keys, prop);
  }
  // ---------------------------------------------------------------------------
  // Where a split puts things

  /** With unique ids, the area's container and index are its parent and last step. */
  lemma SplitSiteAt(t: Node, p: Path, aid: int)
    requires Unique(t) && Everywhere(t, Fits) && ValidPath(t, p) && p != [] && At(t, p) == Leaf(aid)
    ensures ValidPath(t, Parent(p)) && AreaContainerPath(t, aid) == Some(Parent(p))
    ensures HasArea(At(t, Parent(p)), aid) && AreaIndex(At(t, Parent(p)), aid) == p[|p| - 1]
  {
    AreaContainerAt(t, p, aid);
    AtParent(t, p);
    var cp := Parent(p);
    var c := At(t, cp);
    assert c.children[p[|p| - 1]] == Leaf(aid);
    var i := AreaIndex(c, aid);
    ChildPath(t, cp, i);
    UniquePosition(t, cp + [i], p);
  }

  /** Splitting along the parent's direction (src/Layout.js:95-108): apart
      from keys, the only change is that the area's parent at `cp` becomes
      `SplitAlong` of it: the new area beside the area at index `i`, and the
      ratio slot `i` cut in two with the same sum. */
  lemma SplitAlongAt(t: Node, cp: Path, i: nat, aid: int, way: Way, percentage: real, after: bool,
                     newId: int, newCid: int, keys: seq<int>)
    requires Unique(t) && Everywhere(t, Fits) && Height(t) < |keys|
    requires ValidPath(t, cp + [i]) && At(t, cp + [i]) == Leaf(aid)
    requires ValidPath(t, cp) && At(t, cp).Container? && At(t, cp).direction == Some(DirectionOf(way))
    ensures i < |At(t, cp).children| && i < |At(t, cp).ratios|
    ensures EraseKeys(AfterSplit(t, aid, way, percentage, after, newId, newCid, keys)) ==
            EraseKeys(Replace(t, cp, SplitAlong(At(t, cp), i, percentage, after, newId)))
  {
    AfterSplitIn(t, cp, i, aid, way, percentage, after, newId, newCid, keys);
    var n := SplitAlong(At(t, cp), i, percentage, after, newId);
    ReplaceAt(t, cp, n);
    assert SplitIn(t, cp, i, DirectionOf(way), percentage, after, newId, newCid, keys) == Rekey(Replace(t, cp, n), cp, keys);
  }

  /** Where the area sits at `cp + [i]`, a split is the split of child `i`
      of the container at `cp`. */
  lemma AfterSplitIn(t: Node, cp: Path, i: nat, aid: int, way: Way, percentage: real, after: bool,
                     newId: int, newCid: int, keys: seq<int>)
    requires Unique(t) && Everywhere(t, Fits) && Height(t) < |keys|
    requires ValidPath(t, cp + [i]) && At(t, cp + [i]) == Leaf(aid)
    ensures ValidPath(t, cp) && At(t, cp).Container? && |cp| + 1 < |keys|
    ensures i < |At(t, cp).children| && i < |At(t, cp).ratios|
    ensures AfterSplit(t, aid, way, percentage, after, newId, newCid, keys) ==
            SplitIn(t, cp, i, DirectionOf(way), percentage, after, newId, newCid, keys)
  {
    var p := cp + [i];
    assert Parent(p) == cp && p[|p| - 1] == i;
    SplitSiteAt(t, p, aid);
    SplitSite(t, aid, cp);
  }

  /** Splitting across the parent's direction (src/Layout.js:109-120): apart
      from keys, the only change is that the area's slot now holds a new
      container of the requested direction with ratios [percentage,
      100 - percentage] and children [area, new] (or [new, area]); the
      parent's ratios are untouched. */
  lemma SplitAcrossAt(t: Node, cp: Path, i: nat, aid: int, way: Way, percentage: real, after: bool,
                      newId: int, newCid: int, keys: seq<int>)
    requires Unique(t) && Everywhere(t, Fits) && Height(t) < |keys|
    requires ValidPath(t, cp + [i]) && At(t, cp + [i]) == Leaf(aid)
    requires ValidPath(t, cp) && At(t, cp).Container? && At(t, cp).direction != Some(DirectionOf(way))
    ensures EraseKeys(AfterSplit(t, aid, way, percentage, after, newId, newCid, keys)) ==
      EraseKeys(Replace(t, cp + [i], Container(newCid, keys[0], Some(DirectionOf(way)), [percentage, 100.0 - percentage],
                                               if after then [Leaf(aid), Leaf(newId)] else [Leaf(newId), Leaf(aid)])))
  {
    AfterSplitIn(t, cp, i, aid, way, percentage, after, newId, newCid, keys);
    var c := At(t, cp);
    var w := Wrapper(Leaf(aid), DirectionOf(way), percentage, after, newId, newCid, keys[0]);
    var n := SplitAcross(c, i, DirectionOf(way), percentage, after, newId, newCid, keys[0]);
    ReplaceAt(t, cp, n);
    assert SplitIn(t, cp, i, DirectionOf(way), percentage, after, newId, newCid, keys) == Rekey(Replace(t, cp, n), cp, keys[1..]);
    ChildPath(t, cp, i);
    assert c.children[i] == Leaf(aid);
    assert n == c.(children := c.children[i := w]);
    assert Pair(percentage) == [percentage, 100.0 - percentage];
    ReplaceChild(t, cp, i, w);
  }

  /** Splitting the root area, or an id no area has (src/Layout.js:82-92):
      the layout becomes a new container of the requested direction with
      ratios [percentage, 100 - percentage] around the old layout and the new area. */
  lemma SplitRoot(t: Node, aid: int, way: Way, percentage: real, after: bool,
                  newId: int, newCid: int, keys: seq<int>)
    requires Everywhere(t, Fits) && Height(t) < |keys|
    requires t == Leaf(aid) || forall p :: ValidPath(t, p) ==> At(t, p) != Leaf(aid)
    ensures AfterSplit(t, aid, way, percentage, after, newId, newCid, keys) ==
      Container(newCid, keys[0], Some(if way == Vertical then Row else Column), [percentage, 100.0 - percentage],
                if after then [t, Leaf(newId)] else [Leaf(newId), t])
  {
    if t == Leaf(aid) {
      assert NestedContainers(t) == [];
    } else {
      AreaContainerAbsent(t, aid);
    }
  }

  /** After a split the areas are the old ones and the new one. */
  lemma AfterSplitAreas(t: Node, aid: int, way: Way, percentage: real, after: bool,
                        newId: int, newCid: int, keys: seq<int>, x: int)
    requires Everywhere(t, Fits) && Height(t) < |keys|
    ensures Leaf(x) in NestedAreas(AfterSplit(t, aid, way, percentage, after, newId, newCid, keys))
      <==> Leaf(x) in NestedAreas(t) || x == newId
  {
    AfterSplitIdents(t, aid, way, percentage, after, newId, newCid, keys);
    AreasAreIdents(t, x);
    AreasAreIdents(AfterSplit(t, aid, way, percentage, after, newId, newCid, keys), x);
  }
  // ---------------------------------------------------------------------------
  // deleteArea (src/Layout.js:125-146, 166-196)

  /** The exception deleteArea throws when no container holds the area. */
  datatype DeleteError = RootArea(id: int)

  /** The container after `mergeRatios` removes its child `i` (src/Layout.js:125-146). */
  function MergeIn(c: Node, i: nat): (r: Node)
    requires c.Container? && i < |c.children| && 2 <= |c.ratios| && i < |c.ratios|
    ensures r.Container? && r.id == c.id && r.direction == c.direction
    ensures r.ratios == MergeRatios(c.ratios, i)
    ensures |r.children| == |c.children| - 1 && r.children[..i] == c.children[..i] && r.children[i..] == c.children[i + 1..]
  {
    c.(ratios := MergeRatios(c.ratios, i), children := c.children[..i] + c.children[i + 1..])
  }

  /** What remains of a container once its child `i` is spliced out and the
      last remaining child popped (src/Layout.js:168-169). */
  function Survivor(c: Node, i: nat): (r: Node)
    requires c.Container? && i < |c.children| && 2 <= |c.children|
    ensures |c.children| == 2 ==> r == c.children[1 - i]
  {
    var rest := c.children[..i] + c.children[i + 1..];
    rest[|rest| - 1]
  }

  /** The layout after mergeRatios on the container at `cp`
      (src/Layout.js:125-146): apart from keys it is `MergeIn` of that
      container; at index 0 the container and its ancestors are re-keyed. */
  function MergeRatiosAt(t: Node, cp: Path, i: nat, keys: seq<int>): (r: Node)
    requires ValidPath(t, cp) && At(t, cp).Container? && |cp| < |keys|
    requires i < |At(t, cp).children| && 2 <= |At(t, cp).ratios| && i < |At(t, cp).ratios|
    ensures ValidPath(r, cp) && At(r, cp).Container?
    ensures EraseKeys(r) == EraseKeys(Replace(t, cp, MergeIn(At(t, cp), i)))
  {
    var n := MergeIn(At(t, cp), i);
    ReplaceAt(t, cp, n);
    var merged := Replace(t, cp, n);
    if i == 0 then
      var r := Rekey(merged, cp, keys);
      EraseKeysAt(merged, r, cp);
      r
    else merged
  }

  /** Merging in deleteArea: mergeRatios, then the container and its
      ancestors re-keyed once more (src/Layout.js:187-188); at index 0 that
      is the second re-keying, which takes the keys after the first. */
  function MergeAt(t: Node, cp: Path, i: nat, keys: seq<int>): Node
    requires ValidPath(t, cp) && At(t, cp).Container? && 2 * (|cp| + 1) <= |keys|
    requires i < |At(t, cp).children| && 2 <= |At(t, cp).ratios| && i < |At(t, cp).ratios|
  {
    var merged := MergeRatiosAt(t, cp, i, keys);
    Rekey(merged, cp, if i == 0 then keys[|cp| + 1..] else keys)
  }

  /** deleteContainer (src/Layout.js:166-178) on the two-child container at
      `cp` whose child `i` goes: the remaining child takes the container's
      slot in its parent, found by container id, or becomes the layout. */
  function Collapsed(t: Node, cp: Path, i: nat): (r: Node)
    requires ValidPath(t, cp) && At(t, cp).Container?
    requires i < |At(t, cp).children| && 2 <= |At(t, cp).children|
    ensures cp != [] ==> ValidPath(r, Parent(cp)) && At(r, Parent(cp)).Container?
  {
    var c := At(t, cp);
    var remaining := Survivor(c, i);
    if cp == [] then remaining
    else
      AtParent(t, cp);
      var pp := Parent(cp);
      var parent := At(t, pp);
      var found := FindIndex(parent.children, (ch: Node) => ch.Container? && ch.id == c.id);
      assert found.Some? by {
        assert parent.children[cp[|cp| - 1]] == c;
      }
      var n := parent.(children := parent.children[found.value := remaining]);
      ReplaceAt(t, pp, n);
      Replace(t, pp, n)
  }

  /** Collapsing, then re-keying the parent and its ancestors (src/Layout.js:189-194). */
  function CollapseAt(t: Node, cp: Path, i: nat, keys: seq<int>): Node
    requires ValidPath(t, cp) && At(t, cp).Container? && |cp| < |keys|
    requires i < |At(t, cp).children| && 2 <= |At(t, cp).children|
  {
    var r := Collapsed(t, cp, i);
    if cp == [] then r else Rekey(r, Parent(cp), keys)
  }

  /** The outcome of `deleteArea(aid)`: the new layout, or the exception
      thrown, with the layout unchanged, when no container holds the area. */
  function AfterDelete(t: Node, aid: int, keys: seq<int>): Result<Node, DeleteError>
    requires Everywhere(t, Fits) && 2 * Height(t) <= |keys|
  {
    match AreaContainerPath(t, aid)
    case None => Failure(RootArea(aid))
    case Some(cp) =>
      SplitSite(t, aid, cp);
      var c := At(t, cp);
      var i := AreaIndex(c, aid);
      if |c.children| > 2 then Success(MergeAt(t, cp, i, keys))
      else Success(CollapseAt(t, cp, i, keys))
  }
  // ---------------------------------------------------------------------------
  // What a delete does

  /** With unique ids, the parent's slot found by id is the container's own. */
  lemma CollapseAtSlot(t: Node, cp: Path, i: nat, keys: seq<int>)
    requires Unique(t) && ValidPath(t, cp) && At(t, cp).Container? && |cp| < |keys| && cp != []
    requires i < |At(t, cp).children| && 2 <= |At(t, cp).children|
    ensures EraseKeys(CollapseAt(t, cp, i, keys)) == EraseKeys(Replace(t, cp, Survivor(At(t, cp), i)))
  {
    var c := At(t, cp);
    AtParent(t, cp);
    var pp, last := Parent(cp), cp[|cp| - 1];
    var parent := At(t, pp);
    var found := FindIndex(parent.children, (ch: Node) => ch.Container? && ch.id == c.id);
    assert parent.children[last] == c;
    var j := found.value;
    ChildPath(t, pp, j);
    assert cp == pp + [last];
    UniquePosition(t, pp + [j], cp);
    var n := parent.(children := parent.children[j := Survivor(c, i)]);
    ReplaceAt(t, pp, n);
    ReplaceChild(t, pp, last, Survivor(c, i));
    assert Collapsed(t, cp, i) == Replace(t, pp, n);
  }

  /** mergeRatios and deleteArea only take away: with unique ids, the merged
      layout has unique ids too. */
  lemma MergeInUnique(t: Node, cp: Path, i: nat)
    requires Unique(t) && ValidPath(t, cp) && At(t, cp).Container?
    requires i < |At(t, cp).children| && 2 <= |At(t, cp).ratios| && i < |At(t, cp).ratios|
    ensures Unique(Replace(t, cp, MergeIn(At(t, cp), i)))
  {
    var c := At(t, cp);
    MergeInIdents(c, i);
    ReplaceRemoves(t, cp, MergeIn(c, i), Idents(c.children[i]));
    NoDuplicatesBelow(Idents(Replace(t, cp, MergeIn(c, i))), Idents(t));
  }

  /** What the lookup of the area's container finds, stated for the area at `cp + [i]`. */
  lemma DeleteSite(t: Node, cp: Path, i: nat, aid: int, keys: seq<int>)
    requires Unique(t) && Everywhere(t, Fits) && 2 * Height(t) <= |keys|
    requires ValidPath(t, cp + [i]) && At(t, cp + [i]) == Leaf(aid)
    ensures ValidPath(t, cp) && At(t, cp).Container? && i < |At(t, cp).children| && i < |At(t, cp).ratios|
    ensures 2 <= |At(t, cp).children| <= |At(t, cp).ratios| && 2 * (|cp| + 1) <= |keys|
    ensures |At(t, cp).children| > 2 ==> AfterDelete(t, aid, keys) == Success(MergeAt(t, cp, i, keys))
    ensures |At(t, cp).children| == 2 ==> AfterDelete(t, aid, keys) == Success(CollapseAt(t, cp, i, keys))
  {
    var p := cp + [i];
    assert Parent(p) == cp && p[|p| - 1] == i;
    SplitSiteAt(t, p, aid);
    SplitSite(t, aid, cp);
  }

  /** Deleting an area with more than one sibling (src/Layout.js:186-188):
      apart from keys, the only change is that its container loses it, and
      its ratio is merged by the rule of `MergeRatios`. */
  lemma DeleteMerging(t: Node, cp: Path, i: nat, aid: int, keys: seq<int>)
    requires Unique(t) && Everywhere(t, Fits) && 2 * Height(t) <= |keys|
    requires ValidPath(t, cp + [i]) && At(t, cp + [i]) == Leaf(aid)
    requires ValidPath(t, cp) && At(t, cp).Container? && |At(t, cp).children| > 2
    ensures i < |At(t, cp).children| && i < |At(t, cp).ratios| && 2 <= |At(t, cp).ratios|
    ensures AfterDelete(t, aid, keys).Success?
    ensures EraseKeys(AfterDelete(t, aid, keys).value) == EraseKeys(Replace(t, cp, MergeIn(At(t, cp), i)))
  {
    DeleteSite(t, cp, i, aid, keys);
  }

  /** Deleting an area with exactly one sibling (src/Layout.js:166-178,
      189-194): the sibling takes the container's place, at the same index
      of the grandparent, whose ratios are untouched; or becomes the layout
      when the container was the root. */
  lemma DeleteCollapsing(t: Node, cp: Path, i: nat, aid: int, keys: seq<int>)
    requires Unique(t) && Everywhere(t, Fits) && 2 * Height(t) <= |keys|
    requires ValidPath(t, cp + [i]) && At(t, cp + [i]) == Leaf(aid)
    requires ValidPath(t, cp) && At(t, cp).Container? && |At(t, cp).children| <= 2
    ensures |At(t, cp).children| == 2 && i < 2
    ensures AfterDelete(t, aid, keys).Success?
    ensures cp == [] ==> AfterDelete(t, aid, keys).value == t.children[1 - i]
    ensures cp != [] ==> EraseKeys(AfterDelete(t, aid, keys).value) == EraseKeys(Replace(t, cp, At(t, cp).children[1 - i]))
  {
    DeleteSiteCollapse(t, cp, i, aid, keys);
    if cp == [] {
      CollapseAtRoot(t, i, keys);
    } else {
      CollapseAtSlot(t, cp, i, keys);
    }
  }

  /** DeleteSite, for a container with two children. */
  lemma DeleteSiteCollapse(t: Node, cp: Path, i: nat, aid: int, keys: seq<int>)
    requires Unique(t) && Everywhere(t, Fits) && 2 * Height(t) <= |keys|
    requires ValidPath(t, cp + [i]) && At(t, cp + [i]) == Leaf(aid)
    requires ValidPath(t, cp) && At(t, cp).Container? && |At(t, cp).children| <= 2
    ensures |At(t, cp).children| == 2 && i < 2 && |cp| < |keys|
    ensures AfterDelete(t, aid, keys) == Success(CollapseAt(t, cp, i, keys))
  {
    assert |At(t, cp).children| == 2 && |cp| < |keys| by {
      DeleteSite(t, cp, i, aid, keys);
    }
    assert AfterDelete(t, aid, keys) == Success(CollapseAt(t, cp, i, keys)) by {
      DeleteSite(t, cp, i, aid, keys);
    }
  }

  lemma CollapseAtRoot(t: Node, i: nat, keys: seq<int>)
    requires t.Container? && |keys| > 0 && i < |t.children| == 2
    ensures CollapseAt(t, [], i, keys) == t.children[1 - i]
  {
  }

  /** deleteArea throws, and changes nothing, exactly when the area is the
      root or no area has that id (src/Layout.js:180-183). */
  lemma DeleteFails(t: Node, aid: int, keys: seq<int>)
    requires Unique(t) && Everywhere(t, Fits) && 2 * Height(t) <= |keys|
    ensures AfterDelete(t, aid, keys) == Failure(RootArea(aid)) <==>
      (t == Leaf(aid) || forall p :: ValidPath(t, p) ==> At(t, p) != Leaf(aid))
  {
    if t == Leaf(aid) {
      AreaContainerAt(t, [], aid);
    } else if forall p :: ValidPath(t, p) ==> At(t, p) != Leaf(aid) {
      AreaContainerAbsent(t, aid);
    } else {
      var p :| ValidPath(t, p) && At(t, p) == Leaf(aid);
      AreaContainerAt(t, p, aid);
    }
  }
  /** With unique ids the area's container is found, and the area sits at its index. */
  lemma DeleteFound(t: Node, aid: int, keys: seq<int>) returns (cp: Path, i: nat)
    requires Everywhere(t, Fits) && AreaContainerPath(t, aid).Some?
    ensures cp == AreaContainerPath(t, aid).value && ValidPath(t, cp + [i]) && At(t, cp + [i]) == Leaf(aid)
    ensures ValidPath(t, cp) && At(t, cp).Container? && i < |At(t, cp).children| && At(t, cp).children[i] == Leaf(aid)
  {
    cp := AreaContainerPath(t, aid).value;
    SplitSite(t, aid, cp);
    i := AreaIndex(At(t, cp), aid);
    ChildPath(t, cp, i);
  }

  lemma IdentsOfRemove(cs: seq<Node>, i: nat)
    requires i < |cs|
    ensures IdentsOf(cs[..i] + cs[i + 1..]) == IdentsOf(cs) - Idents(cs[i])
  {
    IdentsOfSplit(cs, i);
    IdentsOfAppend(cs[..i], cs[i + 1..]);
  }

  /** Replacing a subtree by one that lacks the ids `gone` removes exactly those. */
  lemma ReplaceRemoves(t: Node, cp: Path, n: Node, gone: multiset<NodeId>)
    requires ValidPath(t, cp) && gone <= Idents(At(t, cp)) && Idents(n) == Idents(At(t, cp)) - gone
    ensures Idents(Replace(t, cp, n)) == Idents(t) - gone
  {
    ReplaceIdents(t, cp, n);
  }

  /** Every child of a merged container was a child before: what holds
      below the container still holds below the merge. */
  lemma MergeInEverywhere(c: Node, i: nat, prop: Property)
    requires c.Container? && i < |c.children| && 2 <= |c.ratios| && i < |c.ratios|
    requires Everywhere(c, prop) && Holds(MergeIn(c, i), prop)
    ensures Everywhere(MergeIn(c, i), prop)
  {
    var n := MergeIn(c, i);
    forall ch | ch in n.children ensures Everywhere(ch, prop) {
      assert ch in c.children[..i] || ch in c.children[i + 1..];
      assert ch in c.children;
    }
  }

  lemma MergeInIdents(c: Node, i: nat)
    requires c.Container? && i < |c.children| && 2 <= |c.ratios| && i < |c.ratios|
    ensures Idents(c.children[i]) <= Idents(c)
    ensures Idents(MergeIn(c, i)) == Idents(c) - Idents(c.children[i])
  {
    IdentsOfRemove(c.children, i);
    IdentsOfUpdate(c.children, i, c.children[i]);
  }

  lemma {:induction false} SurvivorIdents(c: Node, i: nat)
    requires c.Container? && |c.children| == 2 && i < 2
    ensures Idents(c.children[i]) + multiset{IdOf(c)} <= Idents(c)
    ensures Idents(c.children[1 - i]) == Idents(c) - (Idents(c.children[i]) + multiset{IdOf(c)})
  {
    var cs := c.children;
    var w, m := Idents(c), multiset{IdOf(c)};
    IdentsOfPair(cs);
    assert w == m + IdentsOf(cs);
    TakeOut(w, m, Idents(c.children[i]), Idents(c.children[1 - i]));
  }

  lemma IdentsOfPair(cs: seq<Node>)
    requires |cs| == 2
    ensures IdentsOf(cs) == Idents(cs[0]) + Idents(cs[1])
  {
    assert IdentsOf(cs) == Idents(cs[0]) + IdentsOf(cs[1..]);
    assert cs[1..] == [cs[1]] && [cs[1]][1..] == [];
    assert IdentsOf([cs[1]]) == Idents(cs[1]) + IdentsOf([]);
  }

  /** Taking two parts out of a sum of three leaves the third. */
  lemma TakeOut<T>(w: multiset<T>, m: multiset<T>, a: multiset<T>, b: multiset<T>)
    requires w == m + (a + b) || w == m + (b + a)
    ensures a + m <= w && w - (a + m) == b
  {
  }

  lemma DeleteIdentsMerge(t: Node, cp: Path, i: nat, aid: int, keys: seq<int>)
    requires Unique(t) && Everywhere(t, Fits) && 2 * Height(t) <= |keys|
    requires ValidPath(t, cp + [i]) && At(t, cp + [i]) == Leaf(aid)
    requires ValidPath(t, cp) && At(t, cp).Container? && |At(t, cp).children| > 2
    ensures AfterDelete(t, aid, keys).Success?
    ensures Idents(AfterDelete(t, aid, keys).value) == Idents(t) - multiset{LeafId(aid)}
  {
    DeleteMerging(t, cp, i, aid, keys);
    var c := At(t, cp);
    ChildPath(t, cp, i);
    var n := MergeIn(c, i);
    MergeInIdents(c, i);
    SameButKeys(AfterDelete(t, aid, keys).value, Replace(t, cp, n));
    ReplaceRemoves(t, cp, n, multiset{LeafId(aid)});
  }

  lemma DeleteIdentsCollapse(t: Node, cp: Path, i: nat, aid: int, keys: seq<int>)
    requires Unique(t) && Everywhere(t, Fits) && 2 * Height(t) <= |keys|
    requires ValidPath(t, cp + [i]) && At(t, cp + [i]) == Leaf(aid)
    requires ValidPath(t, cp) && At(t, cp).Container? && |At(t, cp).children| <= 2
    ensures AfterDelete(t, aid, keys).Success?
    ensures Idents(AfterDelete(t, aid, keys).value) == Idents(t) - (multiset{LeafId(aid)} + multiset{ContainerId(At(t, cp).id)})
  {
    DeleteCollapsing(t, cp, i, aid, keys);
    var c := At(t, cp);
    ChildPath(t, cp, i);
    var n := c.children[1 - i];
    SurvivorIdents(c, i);
    var gone := multiset{LeafId(aid)} + multiset{ContainerId(c.id)};
    assert Idents(c.children[i]) + multiset{IdOf(c)} == gone;
    if cp != [] {
      SameButKeys(AfterDelete(t, aid, keys).value, Replace(t, cp, n));
      ReplaceRemoves(t, cp, n, gone);
    }
  }

  /** A delete removes the area and, when it collapses, its container; no
      other id goes, and none comes. */
  lemma DeleteIdentsAt(t: Node, cp: Path, i: nat, aid: int, keys: seq<int>)
    requires Unique(t) && Everywhere(t, Fits) && 2 * Height(t) <= |keys|
    requires ValidPath(t, cp + [i]) && At(t, cp + [i]) == Leaf(aid)
    ensures ValidPath(t, cp) && At(t, cp).Container?
    ensures AfterDelete(t, aid, keys).Success?
    ensures Idents(AfterDelete(t, aid, keys).value) ==
      Idents(t) - (multiset{LeafId(aid)} + if |At(t, cp).children| > 2 then multiset{} else multiset{ContainerId(At(t, cp).id)})
  {
    DeleteSite(t, cp, i, aid, keys);
    if |At(t, cp).children| > 2 {
      DeleteIdentsMerge(t, cp, i, aid, keys);
    } else {
      DeleteIdentsCollapse(t, cp, i, aid, keys);
    }
  }

  /** After a delete, the areas are the old ones less the deleted one, and
      ids stay unique. */
  lemma AfterDeleteAreas(t: Node, aid: int, keys: seq<int>, x: int)
    requires Unique(t) && Everywhere(t, Fits) && 2 * Height(t) <= |keys|
    requires AfterDelete(t, aid, keys).Success?
    ensures Unique(AfterDelete(t, aid, keys).value)
    ensures Leaf(x) in NestedAreas(AfterDelete(t, aid, keys).value) <==> Leaf(x) in NestedAreas(t) && x != aid
  {
    var cp, i := DeleteFound(t, aid, keys);
    DeleteIdentsAt(t, cp, i, aid, keys);
    var r := AfterDelete(t, aid, keys).value;
    NoDuplicatesBelow(Idents(r), Idents(t));
    AreasAreIdents(t, x);
    AreasAreIdents(r, x);
  }

  /** A delete keeps each per-container invariant: in particular no container
      is left with fewer than two children, and ratio sums are kept. */
  lemma AfterDeleteKeeps(t: Node, aid: int, keys: seq<int>, prop: Property)
    requires Unique(t) && Everywhere(t, Fits) && 2 * Height(t) <= |keys| && Everywhere(t, prop)
    requires AfterDelete(t, aid, keys).Success?
    ensures Everywhere(AfterDelete(t, aid, keys).value, prop)
  {
    var cp, i := DeleteFound(t, aid, keys);
    DeleteSite(t, cp, i, aid, keys);
    var c := At(t, cp);
    var r := AfterDelete(t, aid, keys).value;
    EverywhereAt(t, cp, prop);
    if |c.children| > 2 {
      DeleteMerging(t, cp, i, aid, keys);
      var n := MergeIn(c, i);
      MergeInEverywhere(c, i, prop);
      EverywhereReplace(t, cp, n, prop);
      SameButKeys(r, Replace(t, cp, n));
    } else {
      DeleteCollapsing(t, cp, i, aid, keys);
      var n := c.children[1 - i];
      assert n in c.children;
      if cp != [] {
        EverywhereReplace(t, cp, n, prop);
        SameButKeys(r, Replace(t, cp, n));
      }
    }
  }

  // ---------------------------------------------------------------------------
  // Deleting the area a split just made

  /** Merging away the area a split along the container inserted restores
      the container, when the new area came after the split one or the split
      one was first. */
  lemma MergeUndoesSplit(c: Node, i: nat, percentage: real, after: bool, newId: int)
    requires c.Container? && i < |c.children| && i < |c.ratios| && (after || i == 0)
    ensures var n := SplitAlong(c, i, percentage, after, newId);
      var at := if after then i + 1 else 0;
      at < |n.children| && 2 <= |n.ratios| && at < |n.ratios| && n.children[at] == Leaf(newId) && MergeIn(n, at) == c
  {
    var n := SplitAlong(c, i, percentage, after, newId);
    var at := if after then i + 1 else 0;
    assert n.children[..at] + n.children[at + 1..] == c.children;
    var m := MergeRatios(n.ratios, at);
    assert m == c.ratios by {
      assert |m| == |c.ratios|;
      if after {
        assert m[..i] == c.ratios[..i] && m[i] == c.ratios[i] && m[i + 1..] == c.ratios[i + 1..];
        assert m == m[..i] + [m[i]] + m[i + 1..];
        assert c.ratios == c.ratios[..i] + [c.ratios[i]] + c.ratios[i + 1..];
      } else {
        assert m == [m[0]] + m[1..] && c.ratios == [c.ratios[0]] + c.ratios[1..];
      }
    }
  }

  /** Split before an area that has a predecessor, the new area's share goes
      to that predecessor when it is deleted again, not back to the area it
      was cut from: with ratios [50, 50] and a 50 % split before the second
      area, [50, 25, 25] merges to [75, 25]. */
  lemma SplitBeforeThenMerge()
    ensures var c := Container(1, 0, Some(Row), [50.0, 50.0], [Leaf(1), Leaf(2)]);
      var n := SplitAlong(c, 1, 50.0, false, 3);
      n.ratios == [50.0, 25.0, 25.0] && n.children[1] == Leaf(3) &&
      MergeIn(n, 1).ratios == [75.0, 25.0] && MergeIn(n, 1).children == c.children
  {
    var c := Container(1, 0, Some(Row), [50.0, 50.0], [Leaf(1), Leaf(2)]);
    var n := SplitAlong(c, 1, 50.0, false, 3);
    assert n.ratios == [50.0, 25.0, 25.0];
    assert n.children == [Leaf(1), Leaf(3), Leaf(2)];
  }

  /** Merging in two containers that differ only in keys gives containers
      that differ only in keys. */
  lemma EraseMergeIn(a: Node, b: Node, i: nat)
    requires a.Container? && i < |a.children| && 2 <= |a.ratios| && i < |a.ratios| && EraseKeys(a) == EraseKeys(b)
    ensures b.Container? && i < |b.children| && 2 <= |b.ratios| && i < |b.ratios|
    ensures EraseKeys(MergeIn(a, i)) == EraseKeys(MergeIn(b, i))
  {
    var ca, cb := MergeIn(a, i).children, MergeIn(b, i).children;
    forall k | 0 <= k < |ca| ensures EraseKeys(ca[k]) == EraseKeys(cb[k]) {
      var j := if k < i then k else k + 1;
      assert ca[k] == a.children[j] && cb[k] == b.children[j];
      assert EraseKeys(a).children[j] == EraseKeys(a.children[j]);
      assert EraseKeys(b).children[j] == EraseKeys(b.children[j]);
    }
    assert EraseKeys(MergeIn(a, i)).children == EraseKeys(MergeIn(b, i)).children;
  }

  /** The new area of a split sits at `q` in the split layout, below a
      container of `count` children. */
  lemma NewAreaAt(s: Node, e: Node, q: Path, j: nat, newId: int, count: nat)
    requires EraseKeys(s) == EraseKeys(e) && ValidPath(e, q) && At(e, q).Container?
    requires |At(e, q).children| == count && j < count && At(e, q).children[j] == Leaf(newId)
    ensures ValidPath(s, q) && At(s, q).Container? && |At(s, q).children| == count
    ensures ValidPath(s, q + [j]) && At(s, q + [j]) == Leaf(newId)
    ensures EraseKeys(At(s, q)) == EraseKeys(At(e, q))
  {
    ChildPath(e, q, j);
    EraseKeysAt(e, s, q + [j]);
    EraseKeysAt(e, s, q);
    assert EraseKeys(At(e, q)).children[j] == EraseKeys(Leaf(newId));
    ChildPath(s, q, j);
    assert EraseKeys(At(s, q)).children[j] == EraseKeys(At(s, q).children[j]);
  }

  /** A split of the root area, or of an id no area has, is undone by
      deleting the new area. */
  lemma SplitRootThenDelete(t: Node, aid: int, way: Way, percentage: real,
                            newId: int, newCid: int, keys: seq<int>, keys2: seq<int>)
    requires Everywhere(t, Fits) && Unique(t) && Height(t) < |keys|
    requires LeafId(newId) !in Idents(t) && ContainerId(newCid) !in Idents(t)
    requires AreaContainerPath(t, aid).None?
    requires var s := AfterSplit(t, aid, way, percentage, true, newId, newCid, keys); 2 * Height(s) <= |keys2|
    ensures var s := AfterSplit(t, aid, way, percentage, true, newId, newCid, keys);
      Everywhere(s, Fits) && AfterDelete(s, newId, keys2) == Success(t)
  {
    var s := AfterSplit(t, aid, way, percentage, true, newId, newCid, keys);
    AfterSplitUnique(t, aid, way, percentage, true, newId, newCid, keys);
    AfterSplitKeeps(t, aid, way, percentage, true, newId, newCid, keys, Fits);
    assert s.children == [t, Leaf(newId)];
    assert [] + [1] == [1];
    DeleteCollapsing(s, [], 1, newId, keys2);
  }

  /** Deleting the new area from a layout that is, keys aside, `t` with the
      container at `cp` split along restores `t`, keys aside. */
  lemma MergeUndoesSplitAt(t: Node, s: Node, cp: Path, i: nat, percentage: real, newId: int, keys2: seq<int>)
    requires Unique(s) && Everywhere(s, Fits) && 2 * Height(s) <= |keys2|
    requires ValidPath(t, cp) && At(t, cp).Container? && 2 <= |At(t, cp).children|
    requires i < |At(t, cp).children| && i < |At(t, cp).ratios|
    requires EraseKeys(s) == EraseKeys(Replace(t, cp, SplitAlong(At(t, cp), i, percentage, true, newId)))
    ensures AfterDelete(s, newId, keys2).Success? && EraseKeys(AfterDelete(s, newId, keys2).value) == EraseKeys(t)
  {
    var c := At(t, cp);
    var n := SplitAlong(c, i, percentage, true, newId);
    MergeUndoesSplit(c, i, percentage, true, newId);
    var e := Replace(t, cp, n);
    ReplaceAt(t, cp, n);
    NewAreaAt(s, e, cp, i + 1, newId, |n.children|);
    var m := MergeIn(At(s, cp), i + 1);
    assert EraseKeys(c) == EraseKeys(m) by {
      EraseMergeIn(n, At(s, cp), i + 1);
    }
    assert Replace(e, cp, c) == t by {
      ReplaceTwice(t, cp, n, c);
      ReplaceSame(t, cp);
    }
    assert EraseKeys(t) == EraseKeys(Replace(s, cp, m)) by {
      EraseReplace(e, s, cp, c, m);
    }
    DeleteMerging(s, cp, i + 1, newId, keys2);
  }

  /** A split along the area's container is undone, keys aside, by deleting
      the new area: the container's children and ratios are back. */
  lemma SplitAlongThenDelete(t: Node, cp: Path, i: nat, aid: int, way: Way, percentage: real,
                             newId: int, newCid: int, keys: seq<int>, keys2: seq<int>)
    requires Everywhere(t, Fits) && Unique(t) && Height(t) < |keys|
    requires LeafId(newId) !in Idents(t) && ContainerId(newCid) !in Idents(t)
    requires ValidPath(t, cp + [i]) && At(t, cp + [i]) == Leaf(aid)
    requires ValidPath(t, cp) && At(t, cp).Container? && At(t, cp).direction == Some(DirectionOf(way))
    requires var s := AfterSplit(t, aid, way, percentage, true, newId, newCid, keys); 2 * Height(s) <= |keys2|
    ensures var s := AfterSplit(t, aid, way, percentage, true, newId, newCid, keys);
      Everywhere(s, Fits) && AfterDelete(s, newId, keys2).Success? &&
      EraseKeys(AfterDelete(s, newId, keys2).value) == EraseKeys(t)
  {
    var s := AfterSplit(t, aid, way, percentage, true, newId, newCid, keys);
    AfterSplitUnique(t, aid, way, percentage, true, newId, newCid, keys);
    AfterSplitKeeps(t, aid, way, percentage, true, newId, newCid, keys, Fits);
    SplitAlongAt(t, cp, i, aid, way, percentage, true, newId, newCid, keys);
    EverywhereAt(t, cp, Fits);
    MergeUndoesSplitAt(t, s, cp, i, percentage, newId, keys2);
  }

  /** A split across the area's container is undone, keys aside, by deleting
      the new area: the wrapping container collapses back into the area. */
  lemma SplitAcrossThenDelete(t: Node, cp: Path, i: nat, aid: int, way: Way, percentage: real,
                              newId: int, newCid: int, keys: seq<int>, keys2: seq<int>)
    requires Everywhere(t, Fits) && Unique(t) && Height(t) < |keys|
    requires LeafId(newId) !in Idents(t) && ContainerId(newCid) !in Idents(t)
    requires ValidPath(t, cp + [i]) && At(t, cp + [i]) == Leaf(aid)
    requires ValidPath(t, cp) && At(t, cp).Container? && At(t, cp).direction != Some(DirectionOf(way))
    requires var s := AfterSplit(t, aid, way, percentage, true, newId, newCid, keys); 2 * Height(s) <= |keys2|
    ensures var s := AfterSplit(t, aid, way, percentage, true, newId, newCid, keys);
      Everywhere(s, Fits) && AfterDelete(s, newId, keys2).Success? &&
      EraseKeys(AfterDelete(s, newId, keys2).value) == EraseKeys(t)
  {
    var s := AfterSplit(t, aid, way, percentage, true, newId, newCid, keys);
    AfterSplitUnique(t, aid, way, percentage, true, newId, newCid, keys);
    AfterSplitKeeps(t, aid, way, percentage, true, newId, newCid, keys, Fits);
    SplitAcrossAt(t, cp, i, aid, way, percentage, true, newId, newCid, keys);
    var p := cp + [i];
    var w := Container(newCid, keys[0], Some(DirectionOf(way)), [percentage, 100.0 - percentage], [Leaf(aid), Leaf(newId)]);
    var e := Replace(t, p, w);
    ReplaceAt(t, p, w);
    NewAreaAt(s, e, p, 1, newId, 2);
    DeleteCollapsing(s, p, 1, newId, keys2);
    var x := At(s, p);
    assert EraseKeys(x).children[0] == EraseKeys(x.children[0]);
    assert x.children[0] == Leaf(aid);
    EraseReplace(e, s, p, Leaf(aid), Leaf(aid));
    ReplaceTwice(t, p, w, Leaf(aid));
    ReplaceSame(t, p);
  }

  /** splitArea with the new area after the split one, then deleteArea of
      the new area, gives back the layout, keys aside; and exactly the layout
      when the split wrapped the root. */
  lemma SplitThenDelete(t: Node, aid: int, way: Way, percentage: real,
                        newId: int, newCid: int, keys: seq<int>, keys2: seq<int>)
    requires Everywhere(t, Fits) && Unique(t) && Height(t) < |keys|
    requires LeafId(newId) !in Idents(t) && ContainerId(newCid) !in Idents(t)
    requires var s := AfterSplit(t, aid, way, percentage, true, newId, newCid, keys); 2 * Height(s) <= |keys2|
    ensures var s := AfterSplit(t, aid, way, percentage, true, newId, newCid, keys);
      Everywhere(s, Fits) && AfterDelete(s, newId, keys2).Success? &&
      EraseKeys(AfterDelete(s, newId, keys2).value) == EraseKeys(t)
  {
    match AreaContainerPath(t, aid)
    case None =>
      SplitRootThenDelete(t, aid, way, percentage, newId, newCid, keys, keys2);
    case Some(cp) =>
      SplitSite(t, aid, cp);
      var i := AreaIndex(At(t, cp), aid);
      ChildPath(t, cp, i);
      if At(t, cp).direction == Some(DirectionOf(way)) {
        SplitAlongThenDelete(t, cp, i, aid, way, percentage, newId, newCid, keys, keys2);
      } else {
        SplitAcrossThenDelete(t, cp, i, aid, way, percentage, newId, newCid, keys, keys2);
      }
  }

  // ---------------------------------------------------------------------------
  // The behaviour cypress/integration/test.js expects

  /** Splitting the single area 1 vertically at 20 % gives a row of areas
      1 and 2 at 20 and 80 (cypress/integration/test.js:51-68). */
  lemma SplitSingleArea()
    ensures AfterSplit(Leaf(1), 1, Vertical, 20.0, true, 2, 1, [5]) ==
      Container(1, 5, Some(Row), [20.0, 80.0], [Leaf(1), Leaf(2)])
  {
    SplitRoot(Leaf(1), 1, Vertical, 20.0, true, 2, 1, [5]);
  }

  /** Deleting the middle of three areas at 30, 30 and 40 leaves 60 and 40
      (cypress/integration/test.js:484-501). */
  lemma DeleteMiddleArea()
    ensures var t := Container(1, 0, Some(Row), [30.0, 30.0, 40.0], [Leaf(1), Leaf(2), Leaf(3)]);
      AfterDelete(t, 2, [5, 6]).Success? && EraseKeys(AfterDelete(t, 2, [5, 6]).value) ==
      Container(1, 0, Some(Row), [60.0, 40.0], [Leaf(1), Leaf(3)])
  {
    var t := Container(1, 0, Some(Row), [30.0, 30.0, 40.0], [Leaf(1), Leaf(2), Leaf(3)]);
    assert NestedContainers(t) == [t];
    assert ContainerPaths(t) == [[]];
    assert AreaContainerPath(t, 2) == Some([]);
    assert AreaIndex(t, 2) == 1;
    assert MergeRatios([30.0, 30.0, 40.0], 1) == [60.0, 40.0];
    assert MergeIn(t, 1) == Container(1, 0, Some(Row), [60.0, 40.0], [Leaf(1), Leaf(3)]);
  }

  /** Deleting one of the two areas of the root leaves the other as the
      whole layout (cypress/integration/test.js:503-515, 676-707). */
  lemma DeleteToSingleArea()
    ensures AfterDelete(Container(1, 0, Some(Row), [20.0, 80.0], [Leaf(1), Leaf(3)]), 1, [5, 6]) == Success(Leaf(3))
  {
    var t := Container(1, 0, Some(Row), [20.0, 80.0], [Leaf(1), Leaf(3)]);
    assert NestedContainers(t) == [t];
    assert ContainerPaths(t) == [[]];
    assert AreaContainerPath(t, 1) == Some([]);
    assert AreaIndex(t, 1) == 0;
  }

  // ---------------------------------------------------------------------------
  // updateContainerRatio (src/Layout.js:68-71)

  /** The layout after `updateContainerRatio(cid, news)`: the leading ratios
      of the container with that id are overwritten by `news`. `None` when no
      container has that id: the source then fails reading `ratios` of
      `undefined`. */
  function AfterRatioUpdate(t: Node, cid: int, news: seq<real>): Option<Node>
  {
    match ContainerPath(t, cid)
    case None => None
    case Some(p) => Some(Replace(t, p, At(t, p).(ratios := Overwrite(At(t, p).ratios, news))))
  }

  /** The update fails exactly when no container has the id. */
  lemma RatioUpdateFails(t: Node, cid: int, news: seq<real>)
    ensures AfterRatioUpdate(t, cid, news).None? <==> ContainerId(cid) !in Idents(t)
  {
    ContainerPathFinds(t, cid);
  }

  /** With unique ids, the container updated is the one at the position named,
      and nothing outside that container changes. */
  lemma RatioUpdateAt(t: Node, p: Path, news: seq<real>)
    requires Unique(t) && ValidPath(t, p) && At(t, p).Container?
    ensures AfterRatioUpdate(t, At(t, p).id, news) ==
      Some(Replace(t, p, At(t, p).(ratios := Overwrite(At(t, p).ratios, news))))
  {
    ContainerPathAt(t, p);
  }

  /** Overwriting ratios with ones of the same total keeps the total. */
  lemma OverwriteSum(rs: seq<real>, news: seq<real>)
    requires |news| <= |rs| && Sum(news) == Sum(rs[..|news|])
    ensures Sum(Overwrite(rs, news)) == Sum(rs)
  {
    assert rs == rs[..|news|] + rs[|news|..];
    SumAppend(rs[..|news|], rs[|news|..]);
    SumAppend(news, rs[|news|..]);
  }

  /** Swapping a container for one with the same children, which satisfies
      the invariant itself, keeps the invariant and the ids. */
  lemma ReplaceRatios(t: Node, p: Path, n: Node, prop: Property)
    requires ValidPath(t, p) && At(t, p).Container? && n.Container?
    requires n.id == At(t, p).id && n.children == At(t, p).children
    ensures Idents(Replace(t, p, n)) == Idents(t)
    ensures Everywhere(t, prop) && Holds(n, prop) ==> Everywhere(Replace(t, p, n), prop)
  {
    ReplaceIdents(t, p, n);
    assert Idents(n) == Idents(At(t, p));
    if Everywhere(t, prop) && Holds(n, prop) {
      EverywhereAt(t, p, prop);
      EverywhereReplace(t, p, n, prop);
    }
  }

  /** An update changes no id and keeps a ratio for every child; it keeps
      one ratio per child when it writes no more ratios than there are. */
  lemma AfterRatioUpdateKeeps(t: Node, cid: int, news: seq<real>, p: Path)
    requires Everywhere(t, Fits) && ContainerPath(t, cid) == Some(p)
    ensures AfterRatioUpdate(t, cid, news).Some?
    ensures Idents(AfterRatioUpdate(t, cid, news).value) == Idents(t)
    ensures Everywhere(AfterRatioUpdate(t, cid, news).value, Fits)
    ensures Everywhere(t, Shape) && |news| <= |At(t, p).ratios| ==> Everywhere(AfterRatioUpdate(t, cid, news).value, Shape)
  {
    var c := At(t, p);
    var n := c.(ratios := Overwrite(c.ratios, news));
    assert AfterRatioUpdate(t, cid, news) == Some(Replace(t, p, n));
    EverywhereAt(t, p, Fits);
    ReplaceRatios(t, p, n, Fits);
    if Everywhere(t, Shape) && |news| <= |c.ratios| {
      EverywhereAt(t, p, Shape);
      ReplaceRatios(t, p, n, Shape);
    }
  }

  /** An update keeps every total at 100 when the new ratios add up to the
      ones they overwrite. */
  lemma AfterRatioUpdateTotal(t: Node, cid: int, news: seq<real>, p: Path)
    requires Everywhere(t, Full) && ContainerPath(t, cid) == Some(p)
    requires |news| <= |At(t, p).ratios| && Sum(news) == Sum(At(t, p).ratios[..|news|])
    ensures AfterRatioUpdate(t, cid, news).Some?
    ensures Everywhere(AfterRatioUpdate(t, cid, news).value, Full)
  {
    var c := At(t, p);
    var n := c.(ratios := Overwrite(c.ratios, news));
    assert AfterRatioUpdate(t, cid, news) == Some(Replace(t, p, n));
    EverywhereAt(t, p, Full);
    OverwriteSum(c.ratios, news);
    ReplaceRatios(t, p, n, Full);
  }
}
