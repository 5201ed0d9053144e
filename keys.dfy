/** Render keys. A container's `key` tells the renderer to rebuild that
    container; src/Layout.js:62-67 gives a container and each of its ancestors
    a fresh key after a structural change. Keys never affect ids, ratios or
    children, which is what `EraseKeys` captures. */
module TreeKeys {
  import opened LayoutTree

  // ---------------------------------------------------------------------------
  // Trees that differ only in keys

  /** Erasing keys keeps every position and the node kind, id, direction,
      ratios and children found there. */
  lemma {:induction false} EraseKeysAt(a: Node, b: Node, q: Path)
    requires EraseKeys(a) == EraseKeys(b) && ValidPath(a, q)
    ensures ValidPath(b, q) && EraseKeys(At(a, q)) == EraseKeys(At(b, q))
    decreases q
  {
    if q != [] {
      var i := q[0];
      assert EraseKeys(a).children[i] == EraseKeys(a.children[i]);
      assert EraseKeys(b).children[i] == EraseKeys(b.children[i]);
      EraseKeysAt(a.children[i], b.children[i], q[1..]);
    }
  }

  /** Replacing at the same position in two trees that differ only in keys,
      by two subtrees that differ only in keys, gives trees that differ only
      in keys. */
  lemma {:induction false} EraseReplace(a: Node, b: Node, p: Path, x: Node, y: Node)
    requires EraseKeys(a) == EraseKeys(b) && ValidPath(a, p) && EraseKeys(x) == EraseKeys(y)
    ensures ValidPath(b, p) && EraseKeys(Replace(a, p, x)) == EraseKeys(Replace(b, p, y))
    decreases p
  {
    EraseKeysAt(a, b, p);
    if p != [] {
      var i := p[0];
      assert EraseKeys(a).children[i] == EraseKeys(a.children[i]);
      assert EraseKeys(b).children[i] == EraseKeys(b.children[i]);
      EraseReplace(a.children[i], b.children[i], p[1..], x, y);
      var ca := a.children[i := Replace(a.children[i], p[1..], x)];
      var cb := b.children[i := Replace(b.children[i], p[1..], y)];
      forall k | 0 <= k < |ca| ensures EraseKeys(ca[k]) == EraseKeys(cb[k]) {
        if k != i {
          assert EraseKeys(a).children[k] == EraseKeys(a.children[k]);
          assert EraseKeys(b).children[k] == EraseKeys(b.children[k]);
        }
      }
      assert EraseKeys(Replace(a, p, x)).children == EraseKeys(Replace(b, p, y)).children;
    }
  }

  lemma {:induction false} IdentsErase(t: Node)
    ensures Idents(EraseKeys(t)) == Idents(t)
    decreases t, 1
  {
    if t.Container? {
      IdentsOfErase(t.children);
    }
  }

  lemma {:induction false} IdentsOfErase(cs: seq<Node>)
    ensures IdentsOf(seq(|cs|, i requires 0 <= i < |cs| => EraseKeys(cs[i]))) == IdentsOf(cs)
    decreases cs, 0
  {
    if cs != [] {
      var es := seq(|cs|, i requires 0 <= i < |cs| => EraseKeys(cs[i]));
      assert es[1..] == seq(|cs[1..]|, i requires 0 <= i < |cs[1..]| => EraseKeys(cs[1..][i]));
      IdentsErase(cs[0]);
      IdentsOfErase(cs[1..]);
    }
  }

  lemma {:induction false} EverywhereErase(t: Node, prop: Property)
    ensures Everywhere(EraseKeys(t), prop) == Everywhere(t, prop)
    decreases t
  {
    if t.Container? {
      var cs := t.children;
      var es := EraseKeys(t).children;
      forall i | 0 <= i < |cs| ensures Everywhere(es[i], prop) == Everywhere(cs[i], prop) {
        EverywhereErase(cs[i], prop);
      }
      assert (forall c :: c in es ==> Everywhere(c, prop)) == (forall c :: c in cs ==> Everywhere(c, prop)) by {
        if forall c :: c in cs ==> Everywhere(c, prop) {
          forall c | c in es ensures Everywhere(c, prop) {
            var i :| 0 <= i < |es| && es[i] == c;
            assert cs[i] in cs;
          }
        }
        if forall c :: c in es ==> Everywhere(c, prop) {
          forall c | c in cs ensures Everywhere(c, prop) {
            var i :| 0 <= i < |cs| && cs[i] == c;
            assert es[i] in es;
          }
        }
      }
    }
  }

  /** Two trees that differ only in keys have the same ids and the same
      per-container properties. */
  lemma SameButKeys(a: Node, b: Node)
    requires EraseKeys(a) == EraseKeys(b)
    ensures Idents(a) == Idents(b)
    ensures forall prop :: Everywhere(a, prop) == Everywhere(b, prop)
  {
    IdentsErase(a);
    IdentsErase(b);
    forall prop ensures Everywhere(a, prop) == Everywhere(b, prop) {
      EverywhereErase(a, prop);
      EverywhereErase(b, prop);
    }
  }

  // ---------------------------------------------------------------------------
  // Setting one key

  lemma {:induction false} SetKeyErase(t: Node, s: Path, k: int)
    requires ValidPath(t, s) && At(t, s).Container?
    ensures EraseKeys(SetKey(t, s, k)) == EraseKeys(t)
    decreases s
  {
    if s != [] {
      var cs := t.children;
      var c' := SetKey(cs[s[0]], s[1..], k);
      SetKeyErase(cs[s[0]], s[1..], k);
      var cs' := cs[s[0] := c'];
      assert SetKey(t, s, k) == t.(children := cs');
      var e, e' := EraseKeys(t).children, EraseKeys(t.(children := cs')).children;
      assert forall i :: 0 <= i < |cs| ==> e'[i] == EraseKeys(cs'[i]) == EraseKeys(cs[i]) == e[i];
      assert e == e';
    }
  }

  /** Setting the key at `s` changes the key there and no other key. */
  lemma {:induction false} SetKeyAt(t: Node, s: Path, k: int, q: Path)
    requires ValidPath(t, s) && At(t, s).Container?
    requires ValidPath(t, q) && At(t, q).Container?
    ensures ValidPath(SetKey(t, s, k), q) && At(SetKey(t, s, k), q).Container?
    ensures At(SetKey(t, s, k), q).key == if q == s then k else At(t, q).key
    decreases s
  {
    SetKeyErase(t, s, k);
    EraseKeysAt(t, SetKey(t, s, k), q);
    if s != [] && q != [] && q[0] == s[0] {
      var c := t.children[s[0]];
      SetKeyAt(c, s[1..], k, q[1..]);
      assert SetKey(t, s, k).children[s[0]] == SetKey(c, s[1..], k);
      assert q == s <==> q[1..] == s[1..] by {
        assert q == [q[0]] + q[1..] && s == [s[0]] + s[1..];
      }
    }
  }

  // ---------------------------------------------------------------------------
  // Re-keying a container and its ancestors

  /** Positions on the ancestor chain of the container at `p` all hold containers. */
  lemma ChainContainer(t: Node, p: Path, i: nat)
    requires ValidPath(t, p) && At(t, p).Container? && i <= |p|
    ensures ValidPath(t, p[..i]) && At(t, p[..i]).Container?
  {
    if i < |p| {
      AtPrefix(t, p, i);
    } else {
      assert p[..i] == p;
    }
  }

  /** The container at `p` and its ancestors, nearest first, given
      keys[0], keys[1], ...: `n` of them have been re-keyed. */
  function Rekeyed(t: Node, p: Path, keys: seq<int>, n: nat): (r: Node)
    requires ValidPath(t, p) && At(t, p).Container? && n <= |p| + 1 && n <= |keys|
    ensures EraseKeys(r) == EraseKeys(t)
    decreases n
  {
    if n == 0 then t
    else
      var r := Rekeyed(t, p, keys, n - 1);
      var s := p[..|p| - (n - 1)];
      ChainContainer(t, p, |p| - (n - 1));
      EraseKeysAt(t, r, s);
      SetKeyErase(r, s, keys[n - 1]);
      SetKey(r, s, keys[n - 1])
  }

  /** `q` is one of the `n` nearest positions on the chain from `p` to the root. */
  predicate OnChain(p: Path, q: Path, n: nat)
  {
    |q| <= |p| && q == p[..|q|] && |p| - |q| < n
  }

  /** Re-keying sets the key of the ancestor `|p| - |q|` levels up to
      keys[|p| - |q|], and leaves every other key as it was. */
  lemma {:induction false} RekeyedKeys(t: Node, p: Path, keys: seq<int>, n: nat, q: Path)
    requires ValidPath(t, p) && At(t, p).Container? && n <= |p| + 1 && n <= |keys|
    requires ValidPath(t, q) && At(t, q).Container?
    ensures ValidPath(Rekeyed(t, p, keys, n), q) && At(Rekeyed(t, p, keys, n), q).Container?
    ensures At(Rekeyed(t, p, keys, n), q).key == if OnChain(p, q, n) then keys[|p| - |q|] else At(t, q).key
    decreases n
  {
    var r := Rekeyed(t, p, keys, n);
    if n > 0 {
      var r' := Rekeyed(t, p, keys, n - 1);
      var s := p[..|p| - (n - 1)];
      RekeyedKeys(t, p, keys, n - 1, q);
      ChainContainer(t, p, |p| - (n - 1));
      EraseKeysAt(t, r', s);
      SetKeyAt(r', s, keys[n - 1], q);
      assert q == s <==> (|q| <= |p| && q == p[..|q|] && |p| - |q| == n - 1);
    } else {
      EraseKeysAt(t, r, q);
    }
  }

  /** updateContainerTreeKeys in full: the container and all its ancestors. */
  function Rekey(t: Node, p: Path, keys: seq<int>): (r: Node)
    requires ValidPath(t, p) && At(t, p).Container? && |p| < |keys|
    ensures EraseKeys(r) == EraseKeys(t)
  {
    Rekeyed(t, p, keys, |p| + 1)
  }

  /** Exactly the chain from `p` to the root is re-keyed. */
  lemma RekeyChain(t: Node, p: Path, keys: seq<int>, q: Path)
    requires ValidPath(t, p) && At(t, p).Container? && |p| < |keys|
    requires ValidPath(t, q) && At(t, q).Container?
    ensures ValidPath(Rekey(t, p, keys), q) && At(Rekey(t, p, keys), q).Container?
    ensures At(Rekey(t, p, keys), q).key ==
      if |q| <= |p| && q == p[..|q|] then keys[|p| - |q|] else At(t, q).key
  {
    RekeyedKeys(t, p, keys, |p| + 1, q);
  }
}
