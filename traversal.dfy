/** Enumeration and lookup over the layout tree (src/Layout.js:27-61, 205-228;
    the same traversals appear in src/components/Layout.js:217-240).

    The source recomputes the list of all containers and searches it with
    `Array.prototype.find`; lookups here are `FindIndex` over that same list,
    and `ContainerPaths` gives the position of each listed container, so that
    a found container can be changed in place by `Replace`. */
module Traversal {
  import opened Wrappers
  import opened LayoutTree

  /** `Array.prototype.find`/`findIndex`: the first element satisfying `p`. */
  function FindIndex<T>(s: seq<T>, p: T -> bool): (r: Option<nat>)
    ensures r.Some? ==> r.value < |s| && p(s[r.value]) && forall k :: 0 <= k < r.value ==> !p(s[k])
    ensures r.None? ==> forall k :: 0 <= k < |s| ==> !p(s[k])
  {
    if s == [] then None
    else if p(s[0]) then Some(0)
    else match FindIndex(s[1..], p)
      case None => None
      case Some(k) => Some(k + 1)
  }

  /** getAreas: the leaf children, in order. */
  function AreasOf(cs: seq<Node>): (r: seq<Node>)
    ensures forall x :: x in r <==> x in cs && x.Leaf?
  {
    if cs == [] then []
    else (if cs[0].Leaf? then [cs[0]] else []) + AreasOf(cs[1..])
  }

  /** getContainers: the container children, in order. */
  function ContainersOf(cs: seq<Node>): (r: seq<Node>)
    ensures forall x :: x in r <==> x in cs && x.Container?
  {
    if cs == [] then []
    else (if cs[0].Container? then [cs[0]] else []) + ContainersOf(cs[1..])
  }

  /** getNestedAreas: a leaf lists itself; a container lists its own leaf
      children first, then the nested areas of its container children. */
  function NestedAreas(t: Node): seq<Node>
  {
    match t
    case Leaf(_) => [t]
    case Container(_, _, _, _, cs) => AreasOf(cs) + NestedAreasOf(cs)
  }

  /** `getContainers(c).map(getNestedAreas).flat()`, with the filter folded
      into the recursion over the children. */
  function NestedAreasOf(cs: seq<Node>): seq<Node>
  {
    if cs == [] then []
    else (if cs[0].Container? then NestedAreas(cs[0]) else []) + NestedAreasOf(cs[1..])
  }

  /** getNestedContainers: pre-order, a container before everything below it.
      Leaf children contribute nothing, exactly as the source's filter to
      container children does. */
  function NestedContainers(t: Node): seq<Node>
  {
    match t
    case Leaf(_) => []
    case Container(_, _, _, _, cs) => [t] + NestedContainersOf(cs)
  }

  function NestedContainersOf(cs: seq<Node>): seq<Node>
  {
    if cs == [] then [] else NestedContainers(cs[0]) + NestedContainersOf(cs[1..])
  }

  /** The positions of the containers that NestedContainers lists, in the same order. */
  function ContainerPaths(t: Node): seq<Path>
  {
    match t
    case Leaf(_) => []
    case Container(_, _, _, _, cs) => [[]] + ContainerPathsOf(cs, 0)
  }

  function ContainerPathsOf(cs: seq<Node>, j: nat): seq<Path>
  {
    if cs == [] then []
    else
      var below := ContainerPaths(cs[0]);
      seq(|below|, k requires 0 <= k < |below| => [j] + below[k]) + ContainerPathsOf(cs[1..], j + 1)
  }

  // ---------------------------------------------------------------------------
  // The enumerations list exactly the nodes of the tree

  /** Every element of getNestedAreas is a leaf of the tree. */
  lemma {:induction false} NestedAreasSound(t: Node, k: nat)
    requires k < |NestedAreas(t)|
    ensures NestedAreas(t)[k].Leaf?
    ensures exists p :: ValidPath(t, p) && At(t, p) == NestedAreas(t)[k]
    decreases t, 1
  {
    match t
    case Leaf(_) =>
      assert ValidPath(t, []) && At(t, []) == t;
    case Container(_, _, _, _, cs) =>
      var x := NestedAreas(t)[k];
      if k < |AreasOf(cs)| {
        assert x in AreasOf(cs);
        var j :| 0 <= j < |cs| && cs[j] == x;
        ChildPath(t, [], j);
      } else {
        NestedAreasOfSound(t, 0, k - |AreasOf(cs)|);
        assert cs[0..] == cs;
      }
  }

  lemma {:induction false} NestedAreasOfSound(t: Node, j: nat, k: nat)
    requires t.Container? && j <= |t.children| && k < |NestedAreasOf(t.children[j..])|
    ensures NestedAreasOf(t.children[j..])[k].Leaf?
    ensures exists p :: ValidPath(t, p) && At(t, p) == NestedAreasOf(t.children[j..])[k]
    decreases t, 0, |t.children| - j
  {
    var cs := t.children[j..];
    assert cs[0] == t.children[j] && cs[1..] == t.children[j + 1..];
    var first := if cs[0].Container? then NestedAreas(cs[0]) else [];
    if k < |first| {
      NestedAreasSound(t.children[j], k);
      var q :| ValidPath(t.children[j], q) && At(t.children[j], q) == first[k];
      ChildPath(t, [], j);
      AtAppend(t, [j], q);
      assert [] + [j] == [j];
    } else {
      NestedAreasOfSound(t, j + 1, k - |first|);
    }
  }

  /** Every leaf of the tree is listed by getNestedAreas. */
  lemma {:induction false} NestedAreasComplete(t: Node, p: Path)
    requires ValidPath(t, p) && At(t, p).Leaf?
    ensures At(t, p) in NestedAreas(t)
    decreases p
  {
    if p != [] {
      var cs := t.children;
      var c := cs[p[0]];
      if c.Leaf? {
        assert At(t, p) == c;
        assert c in AreasOf(cs);
      } else {
        NestedAreasComplete(c, p[1..]);
        NestedAreasOfHas(cs, p[0], At(t, p));
      }
    }
  }

  lemma {:induction false} NestedAreasOfHas(cs: seq<Node>, i: nat, x: Node)
    requires i < |cs| && cs[i].Container? && x in NestedAreas(cs[i])
    ensures x in NestedAreasOf(cs)
  {
    if i > 0 {
      NestedAreasOfHas(cs[1..], i - 1, x);
    }
  }

  /** getNestedContainers lists the container at each position of
      ContainerPaths, one for one. */
  lemma {:induction false} ContainerPathsSound(t: Node)
    ensures |ContainerPaths(t)| == |NestedContainers(t)|
    ensures forall k :: 0 <= k < |ContainerPaths(t)| ==>
      ValidPath(t, ContainerPaths(t)[k]) && At(t, ContainerPaths(t)[k]) == NestedContainers(t)[k]
    decreases t, 1
  {
    if t.Container? {
      ContainerPathsOfSound(t, 0);
      assert t.children[0..] == t.children;
    }
  }

  lemma {:induction false} ContainerPathsOfSound(t: Node, j: nat)
    requires t.Container? && j <= |t.children|
    ensures |ContainerPathsOf(t.children[j..], j)| == |NestedContainersOf(t.children[j..])|
    ensures forall k :: 0 <= k < |ContainerPathsOf(t.children[j..], j)| ==>
      ValidPath(t, ContainerPathsOf(t.children[j..], j)[k])
      && At(t, ContainerPathsOf(t.children[j..], j)[k]) == NestedContainersOf(t.children[j..])[k]
    decreases t, 0, |t.children| - j
  {
    if j < |t.children| {
      var cs := t.children[j..];
      assert cs[0] == t.children[j] && cs[1..] == t.children[j + 1..];
      var c := t.children[j];
      ContainerPathsSound(c);
      ContainerPathsOfSound(t, j + 1);
      var below := ContainerPaths(c);
      var paths := ContainerPathsOf(cs, j);
      forall k | 0 <= k < |paths|
        ensures ValidPath(t, paths[k]) && At(t, paths[k]) == NestedContainersOf(cs)[k]
      {
        if k < |below| {
          assert paths[k] == [j] + below[k];
          ChildPath(t, [], j);
          AtAppend(t, [j], below[k]);
          assert [] + [j] == [j];
        }
      }
    }
  }

  /** Every container of the tree has its position in ContainerPaths. */
  lemma {:induction false} ContainerPathsComplete(t: Node, p: Path)
    requires ValidPath(t, p) && At(t, p).Container?
    ensures p in ContainerPaths(t)
    decreases p
  {
    if p != [] {
      ContainerPathsComplete(t.children[p[0]], p[1..]);
      ContainerPathsOfHas(t.children, 0, p[0], p[1..]);
      assert p == [p[0]] + p[1..];
    }
  }

  lemma {:induction false} ContainerPathsOfHas(cs: seq<Node>, j: nat, i: nat, q: Path)
    requires i < |cs| && q in ContainerPaths(cs[i])
    ensures [j + i] + q in ContainerPathsOf(cs, j)
  {
    if i == 0 {
      var below := ContainerPaths(cs[0]);
      var k :| 0 <= k < |below| && below[k] == q;
      assert ContainerPathsOf(cs, j)[k] == [j] + q;
    } else {
      ContainerPathsOfHas(cs[1..], j + 1, i - 1, q);
    }
  }

  /** Every id in the tree's multiset names a node at some position. */
  lemma {:induction false} IdentsHavePath(t: Node, x: NodeId)
    requires x in Idents(t)
    ensures exists p :: ValidPath(t, p) && IdOf(At(t, p)) == x
    decreases t, 1
  {
    if x == IdOf(t) {
      assert ValidPath(t, []) && At(t, []) == t;
    } else {
      IdentsOfHavePath(t, 0, x);
      assert t.children[0..] == t.children;
    }
  }

  lemma {:induction false} IdentsOfHavePath(t: Node, j: nat, x: NodeId)
    requires t.Container? && j <= |t.children| && x in IdentsOf(t.children[j..])
    ensures exists p :: ValidPath(t, p) && IdOf(At(t, p)) == x
    decreases t, 0, |t.children| - j
  {
    var cs := t.children[j..];
    assert cs[0] == t.children[j] && cs[1..] == t.children[j + 1..];
    if x in Idents(t.children[j]) {
      IdentsHavePath(t.children[j], x);
      var q :| ValidPath(t.children[j], q) && IdOf(At(t.children[j], q)) == x;
      ChildPath(t, [], j);
      AtAppend(t, [j], q);
      assert [] + [j] == [j];
    } else {
      IdentsOfHavePath(t, j + 1, x);
    }
  }

  /** getNestedAreas lists exactly the areas whose ids are in the tree. */
  lemma AreasAreIdents(t: Node, x: int)
    ensures Leaf(x) in NestedAreas(t) <==> LeafId(x) in Idents(t)
  {
    if Leaf(x) in NestedAreas(t) {
      var k :| 0 <= k < |NestedAreas(t)| && NestedAreas(t)[k] == Leaf(x);
      NestedAreasSound(t, k);
      var p :| ValidPath(t, p) && At(t, p) == Leaf(x);
      IdentAt(t, p);
    }
    if LeafId(x) in Idents(t) {
      IdentsHavePath(t, LeafId(x));
      var p :| ValidPath(t, p) && IdOf(At(t, p)) == LeafId(x);
      NestedAreasComplete(t, p);
    }
  }

  // ---------------------------------------------------------------------------
  // Lookups

  /** getContainerParent: the first listed container that has `x` as a child.
      (The source answers `null` when there are no containers at all and
      `undefined` when none matches; both are `None` here.) */
  function ContainerParent(t: Node, x: Node): Option<Node>
  {
    match FindIndex(NestedContainers(t), (c: Node) => c.Container? && x in c.children)
    case None => None
    case Some(i) => Some(NestedContainers(t)[i])
  }

  /** getContainerParent finds the real parent: with unique ids, the container
      one level above the node, and nothing for the root. */
  lemma ContainerParentAt(t: Node, p: Path)
    requires Unique(t) && ValidPath(t, p)
    ensures p != [] ==> ValidPath(t, Parent(p))
    ensures ContainerParent(t, At(t, p)) == if p == [] then None else Some(At(t, Parent(p)))
  {
    var x := At(t, p);
    var pred := (c: Node) => c.Container? && x in c.children;
    var nc := NestedContainers(t);
    ContainerPathsSound(t);
    var cp := ContainerPaths(t);
    if p != [] {
      AtParent(t, p);
    }
    match FindIndex(nc, pred)
    case Some(i) =>
      var c := nc[i];
      var m :| 0 <= m < |c.children| && c.children[m] == x;
      ChildPath(t, cp[i], m);
      UniquePosition(t, cp[i] + [m], p);
      assert Parent(p) == cp[i];
    case None =>
      if p != [] {
        ContainerPathsComplete(t, Parent(p));
      }
  }

  /** The area children's ids of a container include `aid`. */
  predicate HasArea(c: Node, aid: int)
  {
    c.Container? && Leaf(aid) in c.children
  }

  /** getAreaContainer, as the position of the container it returns: the first
      listed container with an area child of id `aid`. */
  function AreaContainerPath(t: Node, aid: int): Option<Path>
  {
    ContainerPathsSound(t);
    match FindIndex(NestedContainers(t), (c: Node) => HasArea(c, aid))
    case None => None
    case Some(i) => Some(ContainerPaths(t)[i])
  }

  /** A path AreaContainerPath returns holds a container with that area child. */
  lemma AreaContainerFound(t: Node, aid: int)
    requires AreaContainerPath(t, aid).Some?
    ensures ValidPath(t, AreaContainerPath(t, aid).value)
    ensures HasArea(At(t, AreaContainerPath(t, aid).value), aid)
  {
    ContainerPathsSound(t);
  }

  /** With unique ids, getAreaContainer finds the parent of the area with that
      id, and nothing when the area is the root. */
  lemma AreaContainerAt(t: Node, p: Path, aid: int)
    requires Unique(t) && ValidPath(t, p) && At(t, p) == Leaf(aid)
    ensures p != [] ==> ValidPath(t, Parent(p))
    ensures AreaContainerPath(t, aid) == if p == [] then None else Some(Parent(p))
  {
    ContainerPathsSound(t);
    var nc, cp := NestedContainers(t), ContainerPaths(t);
    var pred := (c: Node) => HasArea(c, aid);
    if p != [] {
      AtParent(t, p);
    }
    match FindIndex(nc, pred)
    case Some(i) =>
      var c := nc[i];
      var m :| 0 <= m < |c.children| && c.children[m] == Leaf(aid);
      ChildPath(t, cp[i], m);
      UniquePosition(t, cp[i] + [m], p);
      assert Parent(p) == cp[i];
    case None =>
      if p != [] {
        ContainerPathsComplete(t, Parent(p));
      }
  }

  /** An id that names no area anywhere is not found by getAreaContainer. */
  lemma AreaContainerAbsent(t: Node, aid: int)
    requires forall p :: ValidPath(t, p) ==> At(t, p) != Leaf(aid)
    ensures AreaContainerPath(t, aid).None?
  {
    if AreaContainerPath(t, aid).Some? {
      AreaContainerFound(t, aid);
      var pp := AreaContainerPath(t, aid).value;
      var c := At(t, pp);
      var m :| 0 <= m < |c.children| && c.children[m] == Leaf(aid);
      ChildPath(t, pp, m);
    }
  }

  /** getArea: the first area with that id in the list of nested areas.
      The source's `this.areas` is read as the computed list here; the
      injected object of the same name is not part of this model. */
  function GetArea(t: Node, id: int): Option<Node>
  {
    var areas := NestedAreas(t);
    match FindIndex(areas, (a: Node) => a.id == id)
    case None => None
    case Some(k) => Some(areas[k])
  }

  /** getArea finds the area exactly when its id is in the layout. */
  lemma GetAreaFinds(t: Node, id: int)
    ensures GetArea(t, id) == if LeafId(id) in Idents(t) then Some(Leaf(id)) else None
  {
    var areas := NestedAreas(t);
    AreasAreIdents(t, id);
    match FindIndex(areas, (a: Node) => a.id == id)
    case None =>
    case Some(k) =>
      NestedAreasSound(t, k);
  }

  /** Only containers are listed by getNestedContainers. */
  lemma {:induction false} NestedContainersAre(t: Node, c: Node)
    requires c in NestedContainers(t)
    ensures c.Container?
    decreases t, 1
  {
    if t.Container? && c != t {
      NestedContainersOfAre(t.children, c);
    }
  }

  lemma {:induction false} NestedContainersOfAre(cs: seq<Node>, c: Node)
    requires c in NestedContainersOf(cs)
    ensures c.Container?
    decreases cs, 0
  {
    if c in NestedContainers(cs[0]) {
      NestedContainersAre(cs[0], c);
    } else {
      NestedContainersOfAre(cs[1..], c);
    }
  }

  /** getContainer, as the position of the container it returns: the first
      listed container with id `cid`. */
  function ContainerPath(t: Node, cid: int): (r: Option<Path>)
    ensures r.Some? ==> ValidPath(t, r.value) && At(t, r.value).Container? && At(t, r.value).id == cid
  {
    ContainerPathsSound(t);
    var nc := NestedContainers(t);
    match FindIndex(nc, (c: Node) => c.id == cid)
    case None => None
    case Some(k) =>
      NestedContainersAre(t, nc[k]);
      Some(ContainerPaths(t)[k])
  }

  /** getContainer finds a container exactly when its id is in the layout,
      and with unique ids it finds the one at that position. */
  lemma ContainerPathFinds(t: Node, cid: int)
    ensures ContainerPath(t, cid).Some? <==> ContainerId(cid) in Idents(t)
  {
    if ContainerPath(t, cid).Some? {
      IdentAt(t, ContainerPath(t, cid).value);
    }
    if ContainerId(cid) in Idents(t) {
      IdentsHavePath(t, ContainerId(cid));
      var p :| ValidPath(t, p) && IdOf(At(t, p)) == ContainerId(cid);
      ContainerPathsComplete(t, p);
      ContainerPathsSound(t);
      var k :| 0 <= k < |ContainerPaths(t)| && ContainerPaths(t)[k] == p;
      assert NestedContainers(t)[k].id == cid;
    }
  }

  lemma ContainerPathAt(t: Node, p: Path)
    requires Unique(t) && ValidPath(t, p) && At(t, p).Container?
    ensures ContainerPath(t, At(t, p).id) == Some(p)
  {
    ContainerPathFinds(t, At(t, p).id);
    IdentAt(t, p);
    var q := ContainerPath(t, At(t, p).id).value;
    UniquePosition(t, q, p);
  }

  /** The containers above position `p`, nearest first. */
  function Chain(t: Node, p: Path): seq<Node>
    requires ValidPath(t, p)
    decreases |p|
  {
    if p == [] then []
    else
      AtParent(t, p);
      [At(t, Parent(p))] + Chain(t, Parent(p))
  }

  /** The ancestor at depth `i` (the prefix of `p` of length `i`) comes at
      index `|p| - 1 - i` of the chain. */
  lemma {:induction false} ChainAt(t: Node, p: Path)
    requires ValidPath(t, p)
    ensures |Chain(t, p)| == |p|
    ensures forall i :: 0 <= i < |p| ==>
      ValidPath(t, p[..i]) && Chain(t, p)[|p| - 1 - i] == At(t, p[..i])
    decreases |p|
  {
    if p != [] {
      AtParent(t, p);
      var q := Parent(p);
      ChainAt(t, q);
      forall i | 0 <= i < |p|
        ensures ValidPath(t, p[..i]) && Chain(t, p)[|p| - 1 - i] == At(t, p[..i])
      {
        PrefixValid(t, p, i);
        if i < |q| {
          ChainAtStep(t, p, i, At(t, q[..i]));
        } else {
          ChainAtStep(t, p, i, At(t, q));
        }
      }
    }
  }

  /** One step of ChainAt: the entry at depth `i` of the chain of `p` is the
      entry at depth `i` of the chain of its parent, or the parent itself. */
  lemma ChainAtStep(t: Node, p: Path, i: nat, a: Node)
    requires ValidPath(t, p) && p != [] && i < |p| && ValidPath(t, Parent(p))
    requires |Chain(t, Parent(p))| == |p| - 1
    requires i < |p| - 1 ==>
      ValidPath(t, Parent(p)[..i]) && a == At(t, Parent(p)[..i]) && Chain(t, Parent(p))[|p| - 2 - i] == a
    requires i == |p| - 1 ==> a == At(t, Parent(p))
    ensures ValidPath(t, p[..i]) && Chain(t, p)[|p| - 1 - i] == At(t, p[..i])
  {
    var q := Parent(p);
    PrefixValid(t, p, i);
    assert Chain(t, p) == [At(t, q)] + Chain(t, q);
    if i < |q| {
      assert p[..i] == q[..i];
    } else {
      assert p[..i] == q;
    }
  }

  /** getContainerAncestors: the parent chain of `x`, found by asking for the
      parent of the last container found until there is none. */
  method ContainerAncestors(t: Node, x: Node, ghost p: Path) returns (ancestors: seq<Node>)
    requires Unique(t) && ValidPath(t, p) && At(t, p) == x
    ensures ancestors == Chain(t, p)
  {
    ancestors := [];
    ContainerParentAt(t, p);
    var parent := ContainerParent(t, x);
    ghost var q := p;
    while parent.Some?
      invariant ValidPath(t, q) && (q != [] ==> ValidPath(t, Parent(q)))
      invariant parent == if q == [] then None else Some(At(t, Parent(q)))
      invariant ancestors + Chain(t, q) == Chain(t, p)
      decreases |q|
    {
      ChainStep(t, q);
      AppendAssoc(ancestors, [parent.value], Chain(t, Parent(q)));
      ancestors := ancestors + [parent.value];
      q := Parent(q);
      ContainerParentAt(t, q);
      parent := ContainerParent(t, parent.value);
    }
  }

  /** One step up the chain. */
  lemma ChainStep(t: Node, q: Path)
    requires ValidPath(t, q) && q != []
    ensures ValidPath(t, Parent(q)) && Chain(t, q) == [At(t, Parent(q))] + Chain(t, Parent(q))
  {
    AtParent(t, q);
  }

  lemma AppendAssoc<T>(a: seq<T>, b: seq<T>, c: seq<T>)
    ensures a + b + c == a + (b + c)
  {
  }
}
