/** The Vue component of src/components/Layout.js as an object. Its `layout`
    field is changed in place by the methods below, step by step as the
    source does it, and each method is proved to leave exactly the layout
    (and to throw exactly the error) that the matching as-written function
    of WindowLayout describes; the properties of those functions, and where
    they go wrong, are proved there.

    An object reference of the source is a position (`Path`) here. No layer
    object ever gets a `parent` field, so getLayerAncestors always hands
    back nothing and a removed layer is never put back into its parent. */
module WindowEngine {
  import opened Wrappers
  import opened Ratios
  import opened LayoutTree
  import opened Traversal
  import opened TreeKeys
  import opened AreaLayout
  import opened WindowLayout
  import AreaEngine

  class Layout {
    var layout: Node

    /** Every layer has two windows at least and a ratio for each, and no
        id is used twice by two nodes of the same kind. */
    ghost predicate Valid()
      reads this
    {
      Everywhere(layout, Fits) && Unique(layout)
    }

    constructor(t: Node)
      requires Everywhere(t, Fits) && Unique(t)
      ensures Valid() && layout == t
    {
      layout := t;
    }

    /** updateLayerTreeKeys (src/components/Layout.js:39-46): the layer at
        `lp` takes the next layer key. getLayerAncestors lists no ancestor,
        as no layer carries a parent link, so no other key changes. */
    method UpdateLayerTreeKeys(lp: Path)
      requires ValidPath(layout, lp) && At(layout, lp).Container?
      modifies this
      ensures layout == RekeyLayer(old(layout), lp)
    {
      assert layout.Container?;
      var nextkey := NextLayerKey(layout).value;
      var ancestors, _ := LayerAncestorsAsWritten(map[], At(layout, lp).id, 1);
      assert ancestors == [];
      layout := SetKey(layout, lp, nextkey);
    }

    /** splitWindow (src/components/Layout.js:55-121) with direction `d`.
        Returns the error the source throws; the layout is then left as it
        was. */
    method SplitWindow(winId: int, d: Direction) returns (thrown: Option<WindowError>)
      requires Valid()
      modifies this
      ensures Valid()
      ensures thrown == if SplitWindowAsWritten(old(layout), winId, d).Failure? then Some(TypeError) else None
      ensures layout == if thrown.Some? then old(layout) else SplitWindowAsWritten(old(layout), winId, d).value
    {
      ghost var t := layout;
      SplitWindowAsWrittenKeeps(t, winId, d, Fits);
      SplitWindowAsWrittenFails(t, winId, d);
      var found := WindowLayerPath(layout, winId);
      NextWindowIdFresh(layout);
      var newWindowId := NextWindowId(layout).value;
      if found.None? {
        // "window is root": with no layer at all, getNextLayerId throws
        if layout.Leaf? {
          return Some(TypeError);
        }
        layout := Wrapper(layout, d, 50.0, true, newWindowId, NextLayerId(layout).value, NextLayerKey(layout).value);
      } else {
        var lp := found.value;
        var layer := At(layout, lp);
        var i := WindowIndex(layer, winId);
        EverywhereAt(layout, lp, Fits);
        var n;
        if layer.direction == Some(d) {
          n := SplitAlong(layer, i, 50.0, true, newWindowId);
        } else {
          n := SplitAcross(layer, i, d, 50.0, true, newWindowId, NextLayerId(layout).value, NextLayerKey(layout).value);
        }
        ReplaceAt(layout, lp, n);
        layout := Replace(layout, lp, n);
        UpdateLayerTreeKeys(lp);
      }
      thrown := None;
    }

    /** mergeRatios (src/components/Layout.js:122-143) on the layer at `lp`:
        child `i` goes and its share goes to a neighbour; at index 0 the
        layer is re-keyed. Returns the removed child at index 0, and
        otherwise the first of the two ratios `splice` took out. */
    method MergeRatios(lp: Path, i: nat) returns (removed: AreaEngine.Removed)
      requires ValidPath(layout, lp) && At(layout, lp).Container?
      requires i < |At(layout, lp).children| && 2 <= |At(layout, lp).ratios| && i < |At(layout, lp).ratios|
      modifies this
      ensures layout == MergeLayer(old(layout), lp, i)
      ensures removed == if i == 0 then AreaEngine.Child(old(At(layout, lp)).children[0])
                         else AreaEngine.Share(old(At(layout, lp)).ratios[i - 1])
    {
      var layer := At(layout, lp);
      var n := MergeIn(layer, i);
      ReplaceAt(layout, lp, n);
      layout := Replace(layout, lp, n);
      if i == 0 {
        removed := AreaEngine.Child(layer.children[0]);
        UpdateLayerTreeKeys(lp);
      } else {
        removed := AreaEngine.Share(layer.ratios[i - 1]);
      }
    }

    /** deleteLayerOrMergeRatio (src/components/Layout.js:144-161): a merge
        when the layer keeps two children or more; otherwise child `i` is
        spliced out, the other popped, and, the layer having no parent
        link, that child becomes the whole layout. */
    method DeleteLayerOrMergeRatio(lp: Path, i: nat)
      requires ValidPath(layout, lp) && At(layout, lp).Container? && Everywhere(At(layout, lp), Fits)
      requires i < |At(layout, lp).children|
      modifies this
      ensures layout == DeleteLayerOrMerge(old(layout), lp, i)
    {
      var layer := At(layout, lp);
      if |layer.children| > 2 {
        var _ := MergeRatios(lp, i);
      } else {
        var windows := layer.children[..i] + layer.children[i + 1..];
        var remaining := windows[|windows| - 1];
        layout := remaining;
      }
    }

    /** deleteWindow (src/components/Layout.js:162-171). Returns the error
        the source throws: that the window is the root, with the layout left
        as it was, or the TypeError of re-keying the removed layer once the
        layout is a single window, with the layout already replaced. */
    method DeleteWindow(winId: int) returns (thrown: Option<WindowError>)
      requires Valid()
      modifies this
      ensures Valid()
      ensures thrown == DeleteWindowAsWritten(old(layout), winId).thrown
      ensures layout == DeleteWindowAsWritten(old(layout), winId).layout
    {
      ghost var t := layout;
      DeleteWindowAsWrittenKeeps(t, winId, Fits);
      var found := WindowLayerPath(layout, winId);
      if found.None? {
        return Some(RootWindow(winId));
      }
      var lp := found.value;
      var layer := At(layout, lp);
      var i := WindowIndex(layer, winId);
      EverywhereAt(layout, lp, Fits);
      DeleteLayerOrMergeRatio(lp, i);
      if |layer.children| > 2 {
        UpdateLayerTreeKeys(lp);
        thrown := None;
      } else if layout.Leaf? {
        // getNextLayerKey on a layout without layers
        thrown := Some(TypeError);
      } else {
        // the removed layer takes a key, out of the layout's reach
        thrown := None;
      }
    }

    /** updateContainerRatio (src/components/Layout.js:47-54): the layer's
        ratios shifted and pushed once per new ratio. With no layer of that
        id, the first `shift` throws, so only an empty list gets through. */
    method UpdateContainerRatio(lid: int, news: seq<real>) returns (thrown: Option<WindowError>)
      requires Valid()
      modifies this
      ensures Valid()
      ensures thrown == if RatioUpdateAsWritten(old(layout), lid, news).Failure? then Some(TypeError) else None
      ensures layout == if thrown.Some? then old(layout) else RatioUpdateAsWritten(old(layout), lid, news).value
    {
      var found := ContainerPath(layout, lid);
      if found.None? {
        if news != [] {
          return Some(TypeError);
        }
        return None;
      }
      var p := found.value;
      var layer := At(layout, p);
      RatioUpdateAsWrittenKeeps(layout, lid, news, p);
      var ratios := ShiftPush(layer.ratios, news);
      layout := Replace(layout, p, layer.(ratios := ratios));
      thrown := None;
    }
  }
}
