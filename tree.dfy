/** The layout tree shared by both engines.

    In src/Layout.js a leaf is an area `{type: "area", id}` and an inner node a
    container `{type: "container", id, key, direction, ratios, children}`; in
    src/components/Layout.js a leaf is a window and an inner node a layer whose
    `windows` array plays the part of `children`. The JavaScript objects are
    mutated in place; here the layout is a value, and an in-place change to the
    object at some position becomes `Replace` of the subtree at that path. */
module LayoutTree {
  import opened Wrappers
  import opened Ratios

  datatype Direction = Row | Column

  /** `direction` is `None` when the configuration left it out: the renderer
      then draws a row, but the split operations compare the field as it is. */
  datatype Node =
    | Leaf(id: int)
    | Container(id: int, key: int, direction: Option<Direction>, ratios: seq<real>, children: seq<Node>)

  /** Areas and containers draw ids from separate counters, so an id names a
      node only together with its kind. */
  datatype NodeId = LeafId(id: int) | ContainerId(id: int)

  function IdOf(n: Node): NodeId
  {
    if n.Leaf? then LeafId(n.id) else ContainerId(n.id)
  }

  /** A position in the tree: child indexes from the root. */
  type Path = seq<nat>

  predicate ValidPath(t: Node, p: Path)
    decreases p
  {
    p == [] || (t.Container? && p[0] < |t.children| && ValidPath(t.children[p[0]], p[1..]))
  }

  function At(t: Node, p: Path): Node
    requires ValidPath(t, p)
    decreases p
  {
    if p == [] then t else At(t.children[p[0]], p[1..])
  }

  /** The tree with the subtree at `p` replaced by `n`. */
  function Replace(t: Node, p: Path, n: Node): Node
    requires ValidPath(t, p)
    decreases p
  {
    if p == [] then n
    else t.(children := t.children[p[0] := Replace(t.children[p[0]], p[1..], n)])
  }

  /** `node.key = k` on the container at `p`. */
  function SetKey(t: Node, p: Path, k: int): Node
    requires ValidPath(t, p) && At(t, p).Container?
  {
    Replace(t, p, At(t, p).(key := k))
  }

  function Parent(p: Path): Path
    requires p != []
  {
    p[..|p| - 1]
  }

  // ---------------------------------------------------------------------------
  // Paths

  lemma {:induction false} AtAppend(t: Node, p: Path, q: Path)
    requires ValidPath(t, p)
    ensures ValidPath(t, p + q) <==> ValidPath(At(t, p), q)
    ensures ValidPath(t, p + q) ==> At(t, p + q) == At(At(t, p), q)
    decreases p
  {
    if p == [] {
      assert p + q == q;
    } else {
      assert (p + q)[0] == p[0] && (p + q)[1..] == p[1..] + q;
      AtAppend(t.children[p[0]], p[1..], q);
    }
  }

  /** Every prefix of a valid path is valid, and the child below a prefix is
      found by the next index. */
  lemma AtPrefix(t: Node, p: Path, k: nat)
    requires ValidPath(t, p) && k < |p|
    ensures ValidPath(t, p[..k]) && ValidPath(t, p[..k + 1])
    ensures At(t, p[..k]).Container? && p[k] < |At(t, p[..k]).children|
    ensures At(t, p[..k + 1]) == At(t, p[..k]).children[p[k]]
  {
    PrefixValid(t, p, k + 1);
    PrefixValid(t, p, k);
    assert p[..k + 1] == p[..k] + [p[k]];
    AtAppend(t, p[..k], [p[k]]);
  }

  lemma PrefixValid(t: Node, p: Path, k: nat)
    requires ValidPath(t, p) && k <= |p|
    ensures ValidPath(t, p[..k])
  {
    assert p == p[..k] + p[k..];
    PrefixValidAux(t, p[..k], p[k..]);
  }

  lemma {:induction false} PrefixValidAux(t: Node, p: Path, q: Path)
    requires ValidPath(t, p + q)
    ensures ValidPath(t, p)
    decreases p
  {
    if p != [] {
      assert (p + q)[0] == p[0] && (p + q)[1..] == p[1..] + q;
      PrefixValidAux(t.children[p[0]], p[1..], q);
    }
  }

  /** The node at a non-empty path is a child of the node at its parent path. */
  lemma AtParent(t: Node, p: Path)
    requires ValidPath(t, p) && p != []
    ensures ValidPath(t, Parent(p)) && At(t, Parent(p)).Container?
    ensures p[|p| - 1] < |At(t, Parent(p)).children|
    ensures At(t, p) == At(t, Parent(p)).children[p[|p| - 1]]
  {
    AtPrefix(t, p, |p| - 1);
    assert p[..|p|] == p;
  }

  lemma ChildPath(t: Node, p: Path, j: nat)
    requires ValidPath(t, p) && At(t, p).Container? && j < |At(t, p).children|
    ensures ValidPath(t, p + [j]) && At(t, p + [j]) == At(t, p).children[j]
  {
    AtAppend(t, p, [j]);
  }

  // ---------------------------------------------------------------------------
  // Replacing a subtree

  lemma {:induction false} ReplaceAt(t: Node, p: Path, n: Node)
    requires ValidPath(t, p)
    ensures ValidPath(Replace(t, p, n), p) && At(Replace(t, p, n), p) == n
    decreases p
  {
    if p != [] {
      ReplaceAt(t.children[p[0]], p[1..], n);
    }
  }

  /** Putting back what is there changes nothing. */
  lemma {:induction false} ReplaceSame(t: Node, p: Path)
    requires ValidPath(t, p)
    ensures Replace(t, p, At(t, p)) == t
    decreases p
  {
    if p != [] {
      ReplaceSame(t.children[p[0]], p[1..]);
    }
  }

  /** A second replacement at the same position overrides the first. */
  lemma {:induction false} ReplaceTwice(t: Node, p: Path, x: Node, y: Node)
    requires ValidPath(t, p)
    ensures ValidPath(Replace(t, p, x), p) && Replace(Replace(t, p, x), p, y) == Replace(t, p, y)
    decreases p
  {
    ReplaceAt(t, p, x);
    if p != [] {
      ReplaceTwice(t.children[p[0]], p[1..], x, y);
    }
  }

  /** Replacing below a prefix `q` of `p` leaves `q` valid, and the subtree at
      `q` is the old one with the replacement made inside it. */
  lemma {:induction false} ReplaceBelow(t: Node, q: Path, r: Path, n: Node)
    requires ValidPath(t, q + r)
    ensures ValidPath(t, q) && ValidPath(At(t, q), r)
    ensures ValidPath(Replace(t, q + r, n), q)
    ensures At(Replace(t, q + r, n), q) == Replace(At(t, q), r, n)
    ensures Replace(t, q + r, n) == Replace(t, q, Replace(At(t, q), r, n))
    decreases q
  {
    PrefixValidAux(t, q, r);
    AtAppend(t, q, r);
    if q == [] {
      assert q + r == r;
    } else {
      assert (q + r)[0] == q[0] && (q + r)[1..] == q[1..] + r;
      ReplaceBelow(t.children[q[0]], q[1..], r, n);
    }
  }

  /** Replacing at `p` leaves untouched every path that does not pass through `p`. */
  lemma {:induction false} ReplaceElsewhere(t: Node, p: Path, q: Path, n: Node)
    requires ValidPath(t, p) && ValidPath(t, q)
    requires |q| <= |p| ==> q != p[..|q|]
    requires |p| <= |q| ==> p != q[..|p|]
    ensures ValidPath(Replace(t, p, n), q) && At(Replace(t, p, n), q) == At(t, q)
    decreases p
  {
    if p != [] && q != [] && p[0] == q[0] {
      assert q[1..][..|q| - 1] == q[..|q|][1..] by {
        assert q[..|q|] == q;
      }
      if |q| <= |p| {
        assert q[1..] != p[1..][..|q| - 1];
      }
      if |p| <= |q| {
        assert p[1..] != q[1..][..|p| - 1];
      }
      ReplaceElsewhere(t.children[p[0]], p[1..], q[1..], n);
    }
  }

  /** Replacing one child of the container at `p`. */
  lemma ReplaceChild(t: Node, p: Path, j: nat, n: Node)
    requires ValidPath(t, p) && At(t, p).Container? && j < |At(t, p).children|
    ensures ValidPath(t, p + [j])
    ensures Replace(t, p + [j], n) == Replace(t, p, At(t, p).(children := At(t, p).children[j := n]))
  {
    ChildPath(t, p, j);
    ReplaceBelow(t, p, [j], n);
  }

  // ---------------------------------------------------------------------------
  // The multiset of node ids

  function Idents(t: Node): multiset<NodeId>
  {
    match t
    case Leaf(_) => multiset{IdOf(t)}
    case Container(_, _, _, _, cs) => multiset{IdOf(t)} + IdentsOf(cs)
  }

  function IdentsOf(cs: seq<Node>): multiset<NodeId>
  {
    if cs == [] then multiset{} else Idents(cs[0]) + IdentsOf(cs[1..])
  }

  lemma {:induction false} IdentsOfAppend(a: seq<Node>, b: seq<Node>)
    ensures IdentsOf(a + b) == IdentsOf(a) + IdentsOf(b)
  {
    if a == [] {
      assert a + b == b;
    } else {
      assert (a + b)[1..] == a[1..] + b;
      IdentsOfAppend(a[1..], b);
    }
  }

  /** The ids below one child, and what replacing that child does to them. */
  lemma IdentsOfUpdate(cs: seq<Node>, i: nat, x: Node)
    requires i < |cs|
    ensures Idents(cs[i]) <= IdentsOf(cs)
    ensures IdentsOf(cs[i := x]) == IdentsOf(cs) - Idents(cs[i]) + Idents(x)
  {
    IdentsOfSplit(cs, i);
    IdentsOfSplit(cs[i := x], i);
    assert cs[i := x][..i] == cs[..i] && cs[i := x][i + 1..] == cs[i + 1..];
  }

  lemma {:induction false} IdentsOfSplit(cs: seq<Node>, i: nat)
    requires i < |cs|
    ensures IdentsOf(cs) == IdentsOf(cs[..i]) + Idents(cs[i]) + IdentsOf(cs[i + 1..])
  {
    if i == 0 {
      assert cs[..0] == [] && cs[1..] == cs[i + 1..];
    } else {
      var rest, front := cs[1..], cs[..i];
      IdentsOfSplit(rest, i - 1);
      SliceShift(cs, i);
      assert IdentsOf(front) == Idents(cs[0]) + IdentsOf(cs[1..i]);
      assert IdentsOf(cs) == Idents(cs[0]) + IdentsOf(rest);
      Regroup(Idents(cs[0]), IdentsOf(cs[1..i]), Idents(cs[i]), IdentsOf(cs[i + 1..]));
    }
  }

  lemma TakeDrop<T>(s: seq<T>, k: nat)
    requires k <= |s|
    ensures s[..k] + s[k..] == s
  {
  }

  lemma SliceShift<T>(s: seq<T>, i: nat)
    requires 0 < i < |s|
    ensures s[1..][..i - 1] == s[1..i] && s[1..][i - 1] == s[i] && s[1..][i..] == s[i + 1..]
    ensures s[..i][0] == s[0] && s[..i][1..] == s[1..i]
  {
  }

  lemma Regroup<T>(h: multiset<T>, a: multiset<T>, b: multiset<T>, c: multiset<T>)
    ensures h + (a + b + c) == h + a + b + c
  {
  }

  /** Two different children contribute disjointly to the ids below them. */
  lemma {:induction false} IdentsOfTwo(cs: seq<Node>, i: nat, j: nat)
    requires i < |cs| && j < |cs| && i != j
    ensures Idents(cs[i]) + Idents(cs[j]) <= IdentsOf(cs)
  {
    assert IdentsOf(cs) == Idents(cs[0]) + IdentsOf(cs[1..]);
    if i == 0 || j == 0 {
      var k := if i == 0 then j else i;
      assert cs[1..][k - 1] == cs[k];
      IdentsOfUpdate(cs[1..], k - 1, cs[k]);
      assert Idents(cs[k]) <= IdentsOf(cs[1..]);
    } else {
      assert cs[1..][i - 1] == cs[i] && cs[1..][j - 1] == cs[j];
      IdentsOfTwo(cs[1..], i - 1, j - 1);
    }
  }

  lemma {:induction false} ReplaceIdents(t: Node, p: Path, n: Node)
    requires ValidPath(t, p)
    ensures Idents(At(t, p)) <= Idents(t)
    ensures Idents(Replace(t, p, n)) == Idents(t) - Idents(At(t, p)) + Idents(n)
    decreases p
  {
    if p != [] {
      var cs, m := t.children, multiset{IdOf(t)};
      var c := cs[p[0]];
      var r := Replace(c, p[1..], n);
      ReplaceIdents(c, p[1..], n);
      IdentsOfUpdate(cs, p[0], r);
      assert At(t, p) == At(c, p[1..]);
      assert Idents(t) == m + IdentsOf(cs);
      assert Idents(Replace(t, p, n)) == m + IdentsOf(cs[p[0] := r]);
      SwapPart(m, IdentsOf(cs), Idents(c), Idents(r), Idents(At(t, p)), Idents(n));
    }
  }

  /** Swapping a part `c` of `s` for `r`, where `r` is `c` with `x` swapped
      for `y`, swaps `x` for `y` in the whole. */
  lemma SwapPart<T>(m: multiset<T>, s: multiset<T>, c: multiset<T>, r: multiset<T>, x: multiset<T>, y: multiset<T>)
    requires c <= s && x <= c && r == c - x + y
    ensures x <= m + s && m + (s - c + r) == m + s - x + y
  {
  }

  predicate NoDuplicates<T>(m: multiset<T>)
  {
    forall x :: x in m ==> m[x] == 1
  }

  /** No two areas share an id and no two containers share an id. */
  predicate Unique(t: Node)
  {
    NoDuplicates(Idents(t))
  }

  lemma NoDuplicatesBelow<T>(a: multiset<T>, b: multiset<T>)
    requires NoDuplicates(b) && a <= b
    ensures NoDuplicates(a)
  {
    forall x | x in a ensures a[x] == 1 {
      assert b[x] == 1;
    }
  }

  lemma IdentAt(t: Node, p: Path)
    requires ValidPath(t, p)
    ensures IdOf(At(t, p)) in Idents(t)
  {
    ReplaceIdents(t, p, At(t, p));
    assert IdOf(At(t, p)) in Idents(At(t, p));
  }

  /** A node strictly below the root never has the root's id twice over
      without the id being counted twice. */
  lemma BelowRoot(t: Node, r: Path)
    requires ValidPath(t, r) && r != [] && IdOf(At(t, r)) == IdOf(t)
    ensures Idents(t)[IdOf(t)] >= 2
  {
    var c := t.children[r[0]];
    assert At(t, r) == At(c, r[1..]);
    IdentAt(c, r[1..]);
    IdentsOfUpdate(t.children, r[0], c);
    assert Idents(t) == multiset{IdOf(t)} + IdentsOf(t.children);
  }

  /** Nodes under two different children are counted separately. */
  lemma InTwoBranches(t: Node, p: Path, q: Path)
    requires ValidPath(t, p) && ValidPath(t, q) && p != [] && q != [] && p[0] != q[0]
    requires IdOf(At(t, p)) == IdOf(At(t, q))
    ensures Idents(t)[IdOf(At(t, p))] >= 2
  {
    var ci, cj := t.children[p[0]], t.children[q[0]];
    var x := IdOf(At(t, p));
    assert At(t, p) == At(ci, p[1..]) && At(t, q) == At(cj, q[1..]);
    IdentAt(ci, p[1..]);
    IdentAt(cj, q[1..]);
    IdentsOfTwo(t.children, p[0], q[0]);
    assert (Idents(ci) + Idents(cj))[x] >= 2;
    assert Idents(t) == multiset{IdOf(t)} + IdentsOf(t.children);
  }

  /** With unique ids, a node is at one position only: two valid paths that
      reach nodes with the same id are the same path. This is what lets a
      value stand for the source's object identity. */
  lemma {:induction false} UniquePosition(t: Node, p: Path, q: Path)
    requires Unique(t) && ValidPath(t, p) && ValidPath(t, q)
    requires IdOf(At(t, p)) == IdOf(At(t, q))
    ensures p == q
    decreases p, q
  {
    if p == [] && q != [] {
      BelowRoot(t, q);
    } else if q == [] && p != [] {
      BelowRoot(t, p);
    } else if p != [] && q != [] && p[0] != q[0] {
      InTwoBranches(t, p, q);
    } else if p != [] && q != [] {
      var c := t.children[p[0]];
      UniqueChild(t, p[0]);
      assert At(t, p) == At(c, p[1..]) && At(t, q) == At(c, q[1..]);
      UniquePosition(c, p[1..], q[1..]);
      SameHeadTail(p, q);
    }
  }

  /** The subtree under a child of a tree with unique ids has unique ids. */
  lemma UniqueChild(t: Node, j: nat)
    requires Unique(t) && t.Container? && j < |t.children|
    ensures Unique(t.children[j])
  {
    IdentsOfUpdate(t.children, j, t.children[j]);
    assert Idents(t) == multiset{IdOf(t)} + IdentsOf(t.children);
    NoDuplicatesBelow(Idents(t.children[j]), Idents(t));
  }

  lemma SameHeadTail<T>(p: seq<T>, q: seq<T>)
    requires p != [] && q != [] && p[0] == q[0] && p[1..] == q[1..]
    ensures p == q
  {
    assert p == [p[0]] + p[1..] && q == [q[0]] + q[1..];
  }

  // ---------------------------------------------------------------------------
  // Properties that hold at every container

  /** The two per-container invariants. */
  datatype Property =
    | Shape    // one ratio per child, and at least two children
    | Fits     // at least two children, and a ratio for each of them
    | Full     // the ratios add up to 100

  predicate Holds(n: Node, prop: Property)
    requires n.Container?
  {
    match prop
    case Shape => |n.ratios| == |n.children| >= 2
    case Fits => |n.ratios| >= |n.children| >= 2
    case Full => Sum(n.ratios) == 100.0
  }

  predicate Everywhere(t: Node, prop: Property)
  {
    match t
    case Leaf(_) => true
    case Container(_, _, _, _, cs) => Holds(t, prop) && forall c :: c in cs ==> Everywhere(c, prop)
  }

  lemma {:induction false} EverywhereAt(t: Node, p: Path, prop: Property)
    requires ValidPath(t, p) && Everywhere(t, prop)
    ensures Everywhere(At(t, p), prop)
    decreases p
  {
    if p != [] {
      assert t.children[p[0]] in t.children;
      EverywhereAt(t.children[p[0]], p[1..], prop);
    }
  }

  lemma {:induction false} EverywhereReplace(t: Node, p: Path, n: Node, prop: Property)
    requires ValidPath(t, p) && Everywhere(t, prop) && Everywhere(n, prop)
    ensures Everywhere(Replace(t, p, n), prop)
    decreases p
  {
    if p != [] {
      var cs := t.children;
      assert cs[p[0]] in cs;
      EverywhereReplace(cs[p[0]], p[1..], n, prop);
      var cs' := cs[p[0] := Replace(cs[p[0]], p[1..], n)];
      forall c | c in cs' ensures Everywhere(c, prop) {
        var k :| 0 <= k < |cs'| && cs'[k] == c;
        if k != p[0] {
          assert cs[k] in cs;
        }
      }
    }
  }

  /** The number of container levels: a container at path `p` has
      `|p| < Height(t)`. */
  function Height(t: Node): nat
  {
    match t
    case Leaf(_) => 0
    case Container(_, _, _, _, cs) => 1 + HeightOf(cs)
  }

  function HeightOf(cs: seq<Node>): nat
  {
    if cs == [] then 0 else
      var h, rest := Height(cs[0]), HeightOf(cs[1..]);
      if h < rest then rest else h
  }

  lemma {:induction false} HeightOfChild(cs: seq<Node>, i: nat)
    requires i < |cs|
    ensures Height(cs[i]) <= HeightOf(cs)
  {
    if i > 0 {
      HeightOfChild(cs[1..], i - 1);
    }
  }

  lemma {:induction false} ContainerDepth(t: Node, p: Path)
    requires ValidPath(t, p) && At(t, p).Container?
    ensures |p| < Height(t)
    decreases p
  {
    if p != [] {
      HeightOfChild(t.children, p[0]);
      ContainerDepth(t.children[p[0]], p[1..]);
    }
  }

  /** The tree with every container key set to 0: keys only tell the renderer
      what to redraw, so two layouts that agree here have the same shape. */
  function EraseKeys(t: Node): Node
  {
    match t
    case Leaf(_) => t
    case Container(id, _, d, rs, cs) =>
      Container(id, 0, d, rs, seq(|cs|, i requires 0 <= i < |cs| => EraseKeys(cs[i])))
  }
}
