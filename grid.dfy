/** The reveal grid: cells as locations, the full list a round starts
    with, and what the reveal loop does to that list. */
module Grid {
  import opened RandomDraw

  /** A grid cell `{x, y}`. */
  datatype Location = Location(x: int, y: int)

  predicate InBounds(l: Location, n: nat) {
    0 <= l.x < n && 0 <= l.y < n
  }

  predicate Distinct(s: seq<Location>) {
    forall a, b :: 0 <= a < b < |s| ==> s[a] != s[b]
  }

  /** Column `i` as the inner loop pushes it: `{x: i, y: 0}` .. `{x: i, y: n - 1}`. */
  function Column(i: int, n: nat): seq<Location>
  {
    seq(n, j => Location(i, j))
  }

  /** The first `i` columns of the list the nested loops build. */
  function Columns(i: nat, n: nat): seq<Location>
  {
    if i == 0 then [] else Columns(i - 1, n) + Column(i - 1, n)
  }

  /** The list a round starts with: every cell of the `n` by `n` grid. */
  function FullGrid(n: nat): seq<Location>
  {
    Columns(n, n)
  }

  /** The first `i` columns hold exactly the cells with `0 <= x < i`, each once. */
  lemma {:induction false} ColumnsShape(i: nat, n: nat)
    ensures |Columns(i, n)| == i * n
    ensures Distinct(Columns(i, n))
    ensures forall l :: l in Columns(i, n) <==> 0 <= l.x < i && 0 <= l.y < n
  {
    if i > 0 {
      ColumnsShape(i - 1, n);
      var front, col := Columns(i - 1, n), Column(i - 1, n);
      var s := front + col;
      forall l: Location ensures l in s <==> 0 <= l.x < i && 0 <= l.y < n {
        assert l in s <==> l in front || l in col;
        if 0 <= l.y < n && l.x == i - 1 {
          assert col[l.y] == l;
        }
      }
      forall a, b | 0 <= a < b < |s| ensures s[a] != s[b] {
        if b >= |front| && a < |front| {
          assert s[a] in front;
        }
      }
      assert |s| == (i - 1) * n + n;
    }
  }

  /** The full grid has `n * n` cells, no cell twice, and holds exactly the
      in-bounds cells. */
  lemma FullGridShape(n: nat)
    ensures |FullGrid(n)| == n * n
    ensures Distinct(FullGrid(n))
    ensures forall l :: l in FullGrid(n) <==> InBounds(l, n)
  {
    ColumnsShape(n, n);
  }

  /** `s.splice(k, 1)`: the list without its element at `k`. */
  function Splice(s: seq<Location>, k: nat): seq<Location>
    requires k < |s|
  {
    s[..k] + s[k + 1..]
  }

  /** Splicing removes exactly the element at `k`: the list is one shorter,
      the elements before `k` stay in place, the later ones move down by
      one, and as multisets the element at `k` is what went. */
  lemma SpliceRemovesOne(s: seq<Location>, k: nat)
    requires k < |s|
    ensures |Splice(s, k)| == |s| - 1
    ensures forall j :: 0 <= j < k ==> Splice(s, k)[j] == s[j]
    ensures forall j :: k <= j < |s| - 1 ==> Splice(s, k)[j] == s[j + 1]
    ensures multiset(Splice(s, k)) + multiset{s[k]} == multiset(s)
  {
    assert s == s[..k] + [s[k]] + s[k + 1..];
  }

  /** Splicing a duplicate-free list keeps it duplicate-free, and what is
      left is the old set of cells less the removed one. */
  lemma SpliceDistinct(s: seq<Location>, k: nat)
    requires k < |s| && Distinct(s)
    ensures Distinct(Splice(s, k))
    ensures s[k] !in Splice(s, k)
    ensures forall l :: l in Splice(s, k) <==> l in s && l != s[k]
  {
    SpliceRemovesOne(s, k);
    var r := Splice(s, k);
    forall a, b | 0 <= a < b < |r| ensures r[a] != r[b] {
      var a', b' := if a < k then a else a + 1, if b < k then b else b + 1;
      assert r[a] == s[a'] && r[b] == s[b'];
    }
    forall l: Location ensures l in r <==> l in s && l != s[k] {
      if l in r {
        var j :| 0 <= j < |r| && r[j] == l;
        var j' := if j < k then j else j + 1;
        assert s[j'] == l && j' != k;
      }
      if l in s && l != s[k] {
        var j :| 0 <= j < |s| && s[j] == l;
        assert r[if j < k then j else j - 1] == l;
      }
    }
  }

  /** What one pass of the reveal loop does: the cells in the order they
      are revealed and the list left behind. */
  datatype RevealResult = RevealResult(revealed: seq<Location>, rest: seq<Location>)

  /** The draws from step `step` on fit a list of `n` cells: the index of
      each later step lies within the list that step faces, which is one
      cell shorter each time, and every step has a flag value. */
  predicate Fits(picks: seq<nat>, stopSeen: seq<bool>, step: nat, n: nat) {
    |picks| >= step + n && |stopSeen| >= step + n &&
    forall j :: step <= j < step + n ==> picks[j] < step + n - j
  }

  /** The indices the reveal loop draws, `Math.floor(draws[k] * length)`
      with the length `n - k` the list has at step `k`; each lies within
      its list. */
  function PicksOf(draws: seq<real>, n: nat): (picks: seq<nat>)
    requires AllUnit(draws) && |draws| >= n
    ensures |picks| == n
    ensures forall k :: 0 <= k < n ==> picks[k] < n - k
    ensures forall k :: 0 <= k < n ==> picks[k] == Below(draws[k], n - k)
  {
    seq(n, k requires 0 <= k < n => Below(draws[k], n - k))
  }

  /** The reveal loop from step `step` on, over the list `locs`. The step
      splices out the cell at `picks[step]`; `stopSeen[step]` is the value
      of `stop_arrow_gen` when the loop checks it after that step, and a
      true value ends the loop. */
  function Reveal(locs: seq<Location>, picks: seq<nat>, stopSeen: seq<bool>, step: nat): RevealResult
    requires Fits(picks, stopSeen, step, |locs|)
    decreases |locs|
  {
    if |locs| == 0 then RevealResult([], [])
    else
      var k := picks[step];
      var after := Splice(locs, k);
      if stopSeen[step] then RevealResult([locs[k]], after)
      else
        var more := Reveal(after, picks, stopSeen, step + 1);
        RevealResult([locs[k]] + more.revealed, more.rest)
  }

  /** After a step that does not stop, the draws still fit the shorter list. */
  lemma FitsNext(picks: seq<nat>, stopSeen: seq<bool>, step: nat, n: nat)
    requires Fits(picks, stopSeen, step, n) && n > 0
    ensures picks[step] < n
    ensures Fits(picks, stopSeen, step + 1, n - 1)
  {
  }

  /** One step of the reveal loop seen from the start: if `cur` is the list
      left after the cells `done`, splicing out `picks[step]` either ends
      the reveal (the flag is found set) or leaves a shorter list to go on
      with. */
  lemma RevealAdvance(start: seq<Location>, picks: seq<nat>, stopSeen: seq<bool>,
                      done: seq<Location>, cur: seq<Location>, step: nat)
    requires Fits(picks, stopSeen, 0, |start|) && Fits(picks, stopSeen, step, |cur|) && |cur| > 0
    requires var o := Reveal(cur, picks, stopSeen, step);
      Reveal(start, picks, stopSeen, 0) == RevealResult(done + o.revealed, o.rest)
    ensures picks[step] < |cur|
    ensures Fits(picks, stopSeen, step + 1, |cur| - 1)
    ensures var next := Splice(cur, picks[step]);
      if stopSeen[step] then Reveal(start, picks, stopSeen, 0) == RevealResult(done + [cur[picks[step]]], next)
      else
        var o := Reveal(next, picks, stopSeen, step + 1);
        Reveal(start, picks, stopSeen, 0) == RevealResult(done + [cur[picks[step]]] + o.revealed, o.rest)
  {
    FitsNext(picks, stopSeen, step, |cur|);
    if !stopSeen[step] {
      var o := Reveal(Splice(cur, picks[step]), picks, stopSeen, step + 1);
      assert done + ([cur[picks[step]]] + o.revealed) == done + [cur[picks[step]]] + o.revealed;
    }
  }

  /** The reveal loop neither loses nor invents cells: the revealed cells and
      the rest together are the starting list, as a multiset. */
  lemma {:induction false} RevealPartitions(locs: seq<Location>, picks: seq<nat>, stopSeen: seq<bool>, step: nat)
    requires Fits(picks, stopSeen, step, |locs|)
    ensures var o := Reveal(locs, picks, stopSeen, step);
      multiset(o.revealed) + multiset(o.rest) == multiset(locs)
    decreases |locs|
  {
    if |locs| > 0 {
      FitsNext(picks, stopSeen, step, |locs|);
      SpliceRemovesOne(locs, picks[step]);
      if !stopSeen[step] {
        RevealPartitions(Splice(locs, picks[step]), picks, stopSeen, step + 1);
      }
    }
  }

  /** The loop runs at most `|locs|` steps and at least one on a non-empty
      list, and it ends either with the list empty or right after the first
      step whose check found `stop_arrow_gen` set. */
  lemma {:induction false} RevealExit(locs: seq<Location>, picks: seq<nat>, stopSeen: seq<bool>, step: nat)
    requires Fits(picks, stopSeen, step, |locs|)
    ensures var o := Reveal(locs, picks, stopSeen, step);
      |o.revealed| + |o.rest| == |locs| &&
      (|locs| > 0 ==> |o.revealed| > 0) &&
      (forall k :: step <= k < step + |o.revealed| - 1 ==> !stopSeen[k]) &&
      (o.rest == [] || stopSeen[step + |o.revealed| - 1])
    decreases |locs|
  {
    if |locs| > 0 {
      FitsNext(picks, stopSeen, step, |locs|);
      SpliceRemovesOne(locs, picks[step]);
      if !stopSeen[step] {
        RevealExit(Splice(locs, picks[step]), picks, stopSeen, step + 1);
      }
    }
  }

  /** The list left behind stays duplicate-free and holds only cells of the
      starting list. */
  lemma {:induction false} RevealKeepsDistinct(locs: seq<Location>, picks: seq<nat>, stopSeen: seq<bool>, step: nat)
    requires Fits(picks, stopSeen, step, |locs|) && Distinct(locs)
    ensures Distinct(Reveal(locs, picks, stopSeen, step).rest)
    ensures forall l :: l in Reveal(locs, picks, stopSeen, step).rest ==> l in locs
    decreases |locs|
  {
    if |locs| > 0 {
      FitsNext(picks, stopSeen, step, |locs|);
      SpliceDistinct(locs, picks[step]);
      if !stopSeen[step] {
        RevealKeepsDistinct(Splice(locs, picks[step]), picks, stopSeen, step + 1);
      }
    }
  }

  /** With the flag never found set, every cell is revealed and none is left. */
  lemma RevealAllWithoutStop(locs: seq<Location>, picks: seq<nat>, stopSeen: seq<bool>, step: nat)
    requires Fits(picks, stopSeen, step, |locs|)
    requires forall k :: step <= k < step + |locs| ==> !stopSeen[k]
    ensures Reveal(locs, picks, stopSeen, step).rest == []
    ensures multiset(Reveal(locs, picks, stopSeen, step).revealed) == multiset(locs)
  {
    RevealExit(locs, picks, stopSeen, step);
    RevealPartitions(locs, picks, stopSeen, step);
  }

  /** A reveal of the full grid: revealed and left together are exactly the
      in-bounds cells; with no stop every in-bounds cell is revealed, and a
      stop found before the last step leaves some cell hidden. */
  lemma RevealFullGrid(n: nat, picks: seq<nat>, stopSeen: seq<bool>)
    requires Fits(picks, stopSeen, 0, |FullGrid(n)|)
    ensures |FullGrid(n)| == n * n
    ensures var o := Reveal(FullGrid(n), picks, stopSeen, 0);
      (forall l :: l in o.revealed || l in o.rest <==> InBounds(l, n)) &&
      ((forall k :: 0 <= k < n * n ==> !stopSeen[k]) ==>
         (forall l :: l in o.revealed <==> InBounds(l, n))) &&
      ((exists k :: 0 <= k < n * n - 1 && stopSeen[k]) ==> o.rest != [])
  {
    FullGridShape(n);
    var g := FullGrid(n);
    var o := Reveal(g, picks, stopSeen, 0);
    RevealPartitions(g, picks, stopSeen, 0);
    RevealExit(g, picks, stopSeen, 0);
    forall l: Location ensures l in o.revealed || l in o.rest <==> l in g {
      assert l in g <==> l in multiset(g);
      assert l in o.revealed <==> l in multiset(o.revealed);
      assert l in o.rest <==> l in multiset(o.rest);
    }
    if forall k :: 0 <= k < n * n ==> !stopSeen[k] {
      RevealAllWithoutStop(g, picks, stopSeen, 0);
    }
  }
}
