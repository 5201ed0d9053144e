/** Sums of ratio arrays. Ratios are JavaScript numbers in the source; they are
    exact reals here, so a share split in two always adds back up exactly. */
module Ratios {

  function Sum(rs: seq<real>): real
  {
    if rs == [] then 0.0 else rs[0] + Sum(rs[1..])
  }

  lemma {:induction false} SumAppend(a: seq<real>, b: seq<real>)
    ensures Sum(a + b) == Sum(a) + Sum(b)
  {
    if a == [] {
      assert a + b == b;
    } else {
      assert (a + b)[1..] == a[1..] + b;
      SumAppend(a[1..], b);
    }
  }

  /** Summing around one slot: the total is the slot plus everything else. */
  lemma SumSlot(rs: seq<real>, i: nat)
    requires i < |rs|
    ensures Sum(rs) == Sum(rs[..i]) + rs[i] + Sum(rs[i + 1..])
  {
    assert rs == rs[..i] + ([rs[i]] + rs[i + 1..]);
    SumAppend(rs[..i], [rs[i]] + rs[i + 1..]);
    SumAppend([rs[i]], rs[i + 1..]);
  }

  /** `ratios.splice(i, 1, a, b)`: slot `i` is replaced by the two shares `a`
      and `b`, which take its place in that order. */
  function SplitSlot(rs: seq<real>, i: nat, a: real, b: real): (r: seq<real>)
    requires i < |rs|
    ensures |r| == |rs| + 1 && r[..i] == rs[..i] && r[i] == a && r[i + 1] == b && r[i + 2..] == rs[i + 1..]
    ensures Sum(r) == Sum(rs) - rs[i] + a + b
  {
    var r := rs[..i] + [a, b] + rs[i + 1..];
    SumSlot(rs, i);
    SumAppend(rs[..i] + [a, b], rs[i + 1..]);
    SumAppend(rs[..i], [a, b]);
    SumAppend([a], [b]);
    assert [a] + [b] == [a, b];
    assert r[i + 2..] == rs[i + 1..];
    r
  }

  /** The shared ratio rule of both `mergeRatios` (src/Layout.js:125-146,
      src/components/Layout.js:122-143): the share of the child at `i` goes to
      its predecessor, or to its successor when it is the first child. */
  function MergeRatios(rs: seq<real>, i: nat): (r: seq<real>)
    requires 2 <= |rs| && i < |rs|
    ensures |r| == |rs| - 1
    ensures Sum(r) == Sum(rs)
    ensures i == 0 ==> r[0] == rs[0] + rs[1] && r[1..] == rs[2..]
    ensures i > 0 ==> r[..i - 1] == rs[..i - 1] && r[i - 1] == rs[i] + rs[i - 1] && r[i..] == rs[i + 1..]
  {
    if i == 0 then
      // shift, shift, unshift(first + second)
      var first, rest := rs[0], rs[1..];
      var second, rest := rest[0], rest[1..];
      assert rs == [first] + ([second] + rest);
      SumAppend([first], [second] + rest);
      SumAppend([second], rest);
      SumAppend([first + second], rest);
      [first + second] + rest
    else
      // splice(i - 1, 2, ratios[i] + ratios[i - 1])
      var r := rs[..i - 1] + [rs[i] + rs[i - 1]] + rs[i + 1..];
      SumSlot(rs, i);
      SumSlot(rs[..i], i - 1);
      assert rs[..i][..i - 1] == rs[..i - 1];
      assert rs[..i][i..] == [];
      SumAppend(rs[..i - 1] + [rs[i] + rs[i - 1]], rs[i + 1..]);
      SumAppend(rs[..i - 1], [rs[i] + rs[i - 1]]);
      assert r[i..] == rs[i + 1..];
      r
  }

  /** `ratios.splice(0, news.length, ...news)` (src/Layout.js:70): the first
      `|news|` entries are overwritten, the rest kept; longer input grows the array. */
  function Overwrite(rs: seq<real>, news: seq<real>): (r: seq<real>)
    ensures |r| == if |news| <= |rs| then |rs| else |news|
    ensures r[..|news|] == news
    ensures |news| <= |rs| ==> r[|news|..] == rs[|news|..]
  {
    if |news| <= |rs| then news + rs[|news|..] else news
  }

  /** The array after `for (r of news) { ratios.shift(); ratios.push(r) }`
      (src/components/Layout.js:50-53): a window sliding over `rs + news` that
      keeps the old length, except that an empty array grows to one entry. */
  function ShiftPushed(rs: seq<real>, news: seq<real>): seq<real>
  {
    var all := rs + news;
    var n := if news == [] || rs != [] then |rs| else 1;
    all[|all| - n..]
  }

  /** The shift/push loop itself. */
  method ShiftPush(rs: seq<real>, news: seq<real>) returns (r: seq<real>)
    ensures r == ShiftPushed(rs, news)
  {
    r := rs;
    var k := 0;
    while k < |news|
      invariant 0 <= k <= |news|
      invariant r == ShiftPushed(rs, news[..k])
    {
      ghost var all := rs + news[..k];
      assert rs + news[..k + 1] == all + [news[k]];
      if r != [] {
        r := r[1..];
      }
      r := r + [news[k]];
      k := k + 1;
    }
    assert news[..k] == news;
  }

  /** No more new ratios than old: the old tail moves to the front and the new
      ratios land at the end. So with as many new ratios as old ones, the new
      ones end up in place element for element; with fewer, they no longer
      line up with the children they were meant for. */
  lemma ShiftPushedShorter(rs: seq<real>, news: seq<real>)
    requires |news| <= |rs|
    ensures ShiftPushed(rs, news) == rs[|news|..] + news
    ensures |news| == |rs| ==> ShiftPushed(rs, news) == news
  {
    assert (rs + news)[|news|..] == rs[|news|..] + news;
  }
}
