/** The Layout component of src/Layout.js as an object. Its `layout` field
    is changed in place by the methods below, in the order the source does
    it, and each method is proved to leave exactly the layout that the
    matching function of AreaLayout describes; the properties of those
    functions are proved there.

    An object reference of the source is a position (`Path`) here: the
    methods take the position of the container the source hands around. */
module AreaEngine {
  import opened Wrappers
  import opened Ratios
  import opened LayoutTree
  import opened Traversal
  import opened TreeKeys
  import opened AreaLayout

  /** What mergeRatios hands back (src/Layout.js:130-132, 137-144): the
      removed child when it merged at index 0, and otherwise the first of the
      two ratios `splice` took out. */
  datatype Removed = Child(node: Node) | Share(ratio: real)

  class Layout {
    var layout: Node

    /** Every container has two children at least and a ratio for each, and
        no id is used twice. */
    ghost predicate Valid()
      reads this
    {
      Everywhere(layout, Fits) && Unique(layout)
    }

    constructor(t: Node)
      requires Everywhere(t, Fits) && Unique(t)
      ensures Valid() && layout == t
    {
      layout := t;
    }

    /** updateContainerTreeKeys (src/Layout.js:62-67): the container at `p`
        takes the next key, then each ancestor getContainerAncestors lists,
        nearest first, takes the next one. */
    method UpdateContainerTreeKeys(p: Path, keys: seq<int>)
      requires Unique(layout) && ValidPath(layout, p) && At(layout, p).Container? && |p| < |keys|
      modifies this
      ensures layout == Rekey(old(layout), p, keys)
    {
      ghost var t := layout;
      assert p[..|p|] == p;
      SetKeyErase(layout, p, keys[0]);
      layout := SetKey(layout, p, keys[0]);
      SameButKeys(layout, t);
      EraseKeysAt(t, layout, p);
      var ancestors := ContainerAncestors(layout, At(layout, p), p);
      ChainAt(layout, p);
      var k := 0;
      while k < |ancestors|
        invariant 0 <= k <= |ancestors| == |p|
        invariant layout == Rekeyed(t, p, keys, k + 1)
      {
        // ancestors[k] is the container at this position
        var s := p[..|p| - 1 - k];
        ChainContainer(t, p, |p| - 1 - k);
        EraseKeysAt(t, layout, s);
        layout := SetKey(layout, s, keys[k + 1]);
        k := k + 1;
      }
    }

    /** splitArea (src/Layout.js:72-124), with `newId` and `newCid` the ids
        the allocator hands out; returns the new area's id. */
    method SplitArea(aid: int, way: Way, percentage: real, after: bool, newId: int, newCid: int, keys: seq<int>)
      returns (r: int)
      requires Valid() && Height(layout) < |keys|
      requires LeafId(newId) !in Idents(layout) && ContainerId(newCid) !in Idents(layout)
      modifies this
      ensures r == newId && Valid()
      ensures layout == AfterSplit(old(layout), aid, way, percentage, after, newId, newCid, keys)
    {
      ghost var t := layout;
      ghost var result := AfterSplit(t, aid, way, percentage, after, newId, newCid, keys);
      AfterSplitUnique(t, aid, way, percentage, after, newId, newCid, keys);
      AfterSplitKeeps(t, aid, way, percentage, after, newId, newCid, keys, Fits);
      var direction := DirectionOf(way);
      var found := AreaContainerPath(layout, aid);
      if found.None? {
        layout := Wrapper(layout, direction, percentage, after, newId, newCid, keys[0]);
      } else {
        var cp := found.value;
        SplitSite(layout, aid, cp);
        var container := At(layout, cp);
        var i := AreaIndex(container, aid);
        if container.direction == Some(direction) {
          var n := SplitAlong(container, i, percentage, after, newId);
          ReplaceAt(layout, cp, n);
          SameButKeys(result, Replace(layout, cp, n));
          layout := Replace(layout, cp, n);
          UpdateContainerTreeKeys(cp, keys);
        } else {
          var n := SplitAcross(container, i, direction, percentage, after, newId, newCid, keys[0]);
          ReplaceAt(layout, cp, n);
          SameButKeys(result, Replace(layout, cp, n));
          layout := Replace(layout, cp, n);
          UpdateContainerTreeKeys(cp, keys[1..]);
        }
      }
      r := newId;
    }

    /** mergeRatios (src/Layout.js:125-146) on the container at `cp`: its
        child `i` goes and its share goes to a neighbour; at index 0 the
        container and its ancestors are re-keyed. */
    method MergeRatios(cp: Path, i: nat, keys: seq<int>) returns (removed: Removed)
      requires Unique(layout) && ValidPath(layout, cp) && At(layout, cp).Container? && |cp| < |keys|
      requires i < |At(layout, cp).children| && 2 <= |At(layout, cp).ratios| && i < |At(layout, cp).ratios|
      modifies this
      ensures layout == MergeRatiosAt(old(layout), cp, i, keys)
      ensures removed == if i == 0 then Child(old(At(layout, cp)).children[0]) else Share(old(At(layout, cp)).ratios[i - 1])
    {
      var container := At(layout, cp);
      MergeInUnique(layout, cp, i);
      ReplaceAt(layout, cp, MergeIn(container, i));
      layout := Replace(layout, cp, MergeIn(container, i));
      if i == 0 {
        removed := Child(container.children[0]);
        UpdateContainerTreeKeys(cp, keys);
      } else {
        removed := Share(container.ratios[i - 1]);
      }
    }

    /** deleteContainer (src/Layout.js:166-178). */
    method DeleteContainer(cp: Path, i: nat)
      requires Unique(layout) && ValidPath(layout, cp) && At(layout, cp).Container?
      requires i < |At(layout, cp).children| && 2 <= |At(layout, cp).children|
      modifies this
      ensures layout == Collapsed(old(layout), cp, i)
    {
      var container := At(layout, cp);
      ContainerParentAt(layout, cp);
      var parent := ContainerParent(layout, container);
      var remaining := Survivor(container, i);
      if parent.Some? {
        var pp := Parent(cp);
        var found := FindIndex(parent.value.children, (ch: Node) => ch.Container? && ch.id == container.id);
        assert found.Some? by {
          AtParent(layout, cp);
          assert parent.value.children[cp[|cp| - 1]] == container;
        }
        layout := Replace(layout, pp, parent.value.(children := parent.value.children[found.value := remaining]));
      } else {
        layout := remaining;
      }
    }

    /** deleteArea (src/Layout.js:179-196). Returns the exception the source
        throws, with the layout left as it was, when no container holds the
        area. */
    method DeleteArea(aid: int, keys: seq<int>) returns (thrown: Option<DeleteError>)
      requires Valid() && 2 * Height(layout) <= |keys|
      modifies this
      ensures Valid()
      ensures thrown == if AfterDelete(old(layout), aid, keys).Failure? then Some(RootArea(aid)) else None
      ensures layout == if thrown.Some? then old(layout) else AfterDelete(old(layout), aid, keys).value
    {
      ghost var t := layout;
      var found := AreaContainerPath(layout, aid);
      if found.None? {
        return Some(RootArea(aid));
      }
      var cp := found.value;
      SplitSite(layout, aid, cp);
      var container := At(layout, cp);
      var i := AreaIndex(container, aid);
      ChildPath(layout, cp, i);
      DeleteSite(t, cp, i, aid, keys);
      AfterDeleteAreas(t, aid, keys, aid);
      AfterDeleteKeeps(t, aid, keys, Fits);
      if |container.children| > 2 {
        var _ := MergeRatios(cp, i, keys);
        MergeInUnique(t, cp, i);
        SameButKeys(Replace(t, cp, MergeIn(container, i)), layout);
        UpdateContainerTreeKeys(cp, if i == 0 then keys[|cp| + 1..] else keys);
      } else {
        ContainerParentAt(layout, cp);
        var parent := ContainerParent(layout, container);
        DeleteContainer(cp, i);
        if parent.Some? {
          SameButKeys(AfterDelete(t, aid, keys).value, layout);
          UpdateContainerTreeKeys(Parent(cp), keys);
        }
      }
      thrown := None;
    }

    /** updateContainerRatio (src/Layout.js:68-71). Reports whether the
        source would fail, finding no container with that id; the layout is
        then left as it was. */
    method UpdateContainerRatio(cid: int, news: seq<real>) returns (failed: bool)
      requires Valid()
      modifies this
      ensures Valid()
      ensures failed == AfterRatioUpdate(old(layout), cid, news).None?
      ensures layout == if failed then old(layout) else AfterRatioUpdate(old(layout), cid, news).value
    {
      var found := ContainerPath(layout, cid);
      if found.None? {
        return true;
      }
      var p := found.value;
      var container := At(layout, p);
      AfterRatioUpdateKeeps(layout, cid, news, p);
      layout := Replace(layout, p, container.(ratios := Overwrite(container.ratios, news)));
      failed := false;
    }
  }
}
