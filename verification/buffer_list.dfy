/** The list bookkeeping inside the controller's handlers, with the widgets taken
    away: removing adjacent duplicate lines, deleting the selected buffers, and
    moving the selected buffers up or down one place. */
module BufferList {
  import opened Wrappers
  import opened Sequences

  // ---------------------------------------------------------------------------
  // Adjacent duplicates
  // ---------------------------------------------------------------------------

  /** No two neighbours are equal. */
  predicate NoAdjacentDuplicates<T(==)>(s: seq<T>)
  {
    forall i :: 0 < i < |s| ==> s[i - 1] != s[i]
  }

  /** The loop of `onBtnListUniq` from the point where `prev` was the last line kept
      (`None` before the first line): a line is kept when it differs from `prev`. */
  function UniqAfter(lines: seq<string>, prev: Option<string>): (r: seq<string>)
    decreases |lines|
  {
    if |lines| == 0 then []
    else if prev == Some(lines[0]) then UniqAfter(lines[1..], prev)
    else [lines[0]] + UniqAfter(lines[1..], Some(lines[0]))
  }

  /** `onBtnListUniq`'s filter: keep each line unless it equals the line kept just
      before it.  The first line is always kept. */
  function Uniq(lines: seq<string>): (r: seq<string>)
    ensures IsSubsequence(r, lines)
    ensures NoAdjacentDuplicates(r)
    ensures |lines| > 0 ==> |r| > 0 && r[0] == lines[0]
    ensures forall i :: 0 <= i < |lines| ==> lines[i] in r
    ensures NoAdjacentDuplicates(lines) ==> r == lines
  {
    UniqAfterSubsequence(lines, None);
    UniqAfterShape(lines, None);
    UniqAfterKeepsAll(lines, None);
    UniqAfterIdentity(lines, None);
    UniqAfter(lines, None)
  }

  /** The loop only drops lines. */
  lemma {:induction false} UniqAfterSubsequence(lines: seq<string>, prev: Option<string>)
    ensures IsSubsequence(UniqAfter(lines, prev), lines)
    decreases |lines|
  {
    if |lines| > 0 {
      UniqAfterSubsequence(lines[1..], if prev == Some(lines[0]) then prev else Some(lines[0]));
      if prev == Some(lines[0]) {
        SubsequenceDropFront(UniqAfter(lines[1..], prev), lines);
      } else {
        var r := [lines[0]] + UniqAfter(lines[1..], Some(lines[0]));
        assert r[1..] == UniqAfter(lines[1..], Some(lines[0]));
      }
    }
  }

  /** The kept lines have no equal neighbours, do not start with `prev`, and start
      with the first line when that differs from `prev`. */
  lemma {:induction false} UniqAfterShape(lines: seq<string>, prev: Option<string>)
    ensures var r := UniqAfter(lines, prev);
      && NoAdjacentDuplicates(r)
      && (|r| > 0 ==> prev != Some(r[0]))
      && (|lines| > 0 && prev != Some(lines[0]) ==> |r| > 0 && r[0] == lines[0])
    decreases |lines|
  {
    if |lines| > 0 {
      if prev == Some(lines[0]) {
        UniqAfterShape(lines[1..], prev);
      } else {
        UniqAfterShape(lines[1..], Some(lines[0]));
        var r' := UniqAfter(lines[1..], Some(lines[0]));
        var r := [lines[0]] + r';
        forall i | 0 < i < |r|
          ensures r[i - 1] != r[i]
        {
          if i > 1 {
            assert r[i - 1] == r'[i - 2] && r[i] == r'[i - 1];
          }
        }
      }
    }
  }

  /** Every line is kept, unless it equals `prev`. */
  lemma {:induction false} UniqAfterKeepsAll(lines: seq<string>, prev: Option<string>)
    ensures forall i :: 0 <= i < |lines| ==> lines[i] in UniqAfter(lines, prev) || Some(lines[i]) == prev
    decreases |lines|
  {
    if |lines| > 0 {
      var tail := lines[1..];
      var next := if prev == Some(lines[0]) then prev else Some(lines[0]);
      UniqAfterKeepsAll(tail, next);
      var r := UniqAfter(lines, prev);
      forall i | 0 < i < |lines|
        ensures lines[i] in r || Some(lines[i]) == prev
      {
        assert lines[i] == tail[i - 1];
      }
    }
  }

  /** A list without adjacent duplicates, not starting with `prev`, is kept whole. */
  lemma {:induction false} UniqAfterIdentity(lines: seq<string>, prev: Option<string>)
    ensures NoAdjacentDuplicates(lines) && (|lines| > 0 ==> prev != Some(lines[0])) ==>
              UniqAfter(lines, prev) == lines
    decreases |lines|
  {
    if |lines| > 0 && NoAdjacentDuplicates(lines) && prev != Some(lines[0]) {
      var tail := lines[1..];
      assert NoAdjacentDuplicates(tail) by {
        forall i | 0 < i < |tail|
          ensures tail[i - 1] != tail[i]
        {
          assert tail[i - 1] == lines[i] && tail[i] == lines[i + 1];
        }
      }
      if |tail| > 0 {
        assert tail[0] == lines[1];
      }
      UniqAfterIdentity(tail, Some(lines[0]));
      assert lines == [lines[0]] + tail;
    }
  }

  /** An independent description of the same filter: keep a line when the NEXT line
      differs from it (or there is none).  This keeps the last line of every run of
      equal lines where `Uniq` keeps the first, which is the same text. */
  function RunTails(lines: seq<string>): seq<string>
    decreases |lines|
  {
    if |lines| <= 1 then lines
    else if lines[0] == lines[1] then RunTails(lines[1..])
    else [lines[0]] + RunTails(lines[1..])
  }

  /** Comparing each line with the last one kept is comparing it with its neighbour. */
  lemma UniqIsRunTails(lines: seq<string>)
    ensures Uniq(lines) == RunTails(lines)
  {
    UniqAfterIsRunTails(lines, None);
  }

  lemma {:induction false} UniqAfterIsRunTails(lines: seq<string>, prev: Option<string>)
    ensures |lines| > 0 ==> |RunTails(lines)| > 0 && RunTails(lines)[0] == lines[0]
    ensures UniqAfter(lines, prev)
            == if |lines| > 0 && prev == Some(lines[0]) then RunTails(lines)[1..] else RunTails(lines)
    decreases |lines|
  {
    if |lines| > 1 {
      var tail := lines[1..];
      assert tail[0] == lines[1];
      if prev == Some(lines[0]) {
        UniqAfterIsRunTails(tail, prev);
      } else {
        UniqAfterIsRunTails(tail, Some(lines[0]));
        if lines[0] == lines[1] {
          var h := RunTails(tail);
          assert h == [h[0]] + h[1..];
        }
      }
    }
  }

  // ---------------------------------------------------------------------------
  // Deleting the selected buffers
  // ---------------------------------------------------------------------------

  /** The elements of `s` whose positions, counted from `base`, are not in `drop`,
      in their original order. */
  function Without<T>(s: seq<T>, drop: set<int>, base: int): seq<T>
    decreases |s|
  {
    if |s| == 0 then []
    else (if base in drop then [] else [s[0]]) + Without(s[1..], drop, base + 1)
  }

  /** `list.remove(m)`: the element at `m` taken out, the rest closing up. */
  function RemoveAt<T>(s: seq<T>, m: nat): (r: seq<T>)
    requires m < |s|
    ensures |r| == |s| - 1
    ensures forall k :: 0 <= k < m ==> r[k] == s[k]
    ensures forall k :: m <= k < |r| ==> r[k] == s[k + 1]
  {
    s[..m] + s[m + 1..]
  }

  /** Positions strictly increasing, as the selection model lists them. */
  predicate StrictlyIncreasing(idxs: seq<int>)
  {
    forall a, b :: 0 <= a < b < |idxs| ==> idxs[a] < idxs[b]
  }

  /** The positions listed from `from` on. */
  function Listed(idxs: seq<int>, from: nat): set<int>
    requires from <= |idxs|
  {
    set k | from <= k < |idxs| :: idxs[k]
  }

  /** The DELETE key in the buffer list: remove the selected positions one by one,
      highest first, so that no removal shifts a position still to be removed. */
  method DeleteSelected<T>(clips: seq<T>, idxs: seq<int>) returns (r: seq<T>)
    requires StrictlyIncreasing(idxs)
    requires forall k :: 0 <= k < |idxs| ==> 0 <= idxs[k] < |clips|
    ensures r == Without(clips, Listed(idxs, 0), 0)
    ensures |r| == |clips| - |idxs|
  {
    r := clips;
    var i := |idxs| - 1;
    WithoutNothing(clips, Listed(idxs, |idxs|), 0);
    while i >= 0
      invariant -1 <= i < |idxs|
      invariant r == Without(clips, Listed(idxs, i + 1), 0)
      invariant |r| == |clips| - (|idxs| - (i + 1))
    {
      var m := idxs[i];
      assert Listed(idxs, i) == Listed(idxs, i + 1) + {m};
      WithoutOneMore(clips, Listed(idxs, i + 1), m);
      r := RemoveAt(r, m);
      i := i - 1;
    }
  }

  /** With nothing to drop in range, `Without` keeps everything. */
  lemma {:induction false} WithoutNothing<T>(s: seq<T>, drop: set<int>, base: int)
    requires forall d :: d in drop ==> d < base || d >= base + |s|
    ensures Without(s, drop, base) == s
    decreases |s|
  {
    if |s| > 0 {
      WithoutNothing(s[1..], drop, base + 1);
      assert s == [s[0]] + s[1..];
    }
  }

  /** `Without` only looks at the positions that are in range. */
  lemma {:induction false} WithoutInRange<T>(s: seq<T>, d1: set<int>, d2: set<int>, base: int)
    requires forall k :: base <= k < base + |s| ==> (k in d1 <==> k in d2)
    ensures Without(s, d1, base) == Without(s, d2, base)
    decreases |s|
  {
    if |s| > 0 {
      WithoutInRange(s[1..], d1, d2, base + 1);
    }
  }

  /** `Without` over a concatenation is the concatenation of the two parts. */
  lemma {:induction false} WithoutAppend<T>(a: seq<T>, b: seq<T>, drop: set<int>, base: int)
    ensures Without(a + b, drop, base) == Without(a, drop, base) + Without(b, drop, base + |a|)
    decreases |a|
  {
    if |a| == 0 {
      assert a + b == b;
    } else {
      assert (a + b)[1..] == a[1..] + b;
      WithoutAppend(a[1..], b, drop, base + 1);
    }
  }

  /** `Without` split around the position `m`: what is kept before it, the element
      at `m` unless it is dropped, and what is kept after it. */
  lemma WithoutAround<T>(s: seq<T>, drop: set<int>, m: int)
    requires 0 <= m < |s|
    ensures Without(s, drop, 0)
            == Without(s[..m], drop, 0) + ((if m in drop then [] else [s[m]]) + Without(s[m + 1..], drop, m + 1))
  {
    var front, x, back := s[..m], s[m], s[m + 1..];
    assert s == front + ([x] + back);
    WithoutAppend(front, [x] + back, drop, 0);
    assert |front| == m;
    WithoutCons(x, back, drop, m);
  }

  /** `Without` on a sequence that starts with `x`. */
  lemma WithoutCons<T>(x: T, rest: seq<T>, drop: set<int>, base: int)
    ensures Without([x] + rest, drop, base) == (if base in drop then [] else [x]) + Without(rest, drop, base + 1)
  {
    assert ([x] + rest)[1..] == rest;
  }

  /** Dropping one more position `m`, below every position already dropped, is
      removing the element at `m` from what was left. */
  lemma WithoutOneMore<T>(s: seq<T>, drop: set<int>, m: int)
    requires 0 <= m < |s|
    requires forall d :: d in drop ==> m < d
    ensures m < |Without(s, drop, 0)|
    ensures Without(s, drop + {m}, 0) == RemoveAt(Without(s, drop, 0), m)
  {
    assert m !in drop && m in drop + {m};
    var front := s[..m];
    var w := Without(s[m + 1..], drop, m + 1);
    WithoutAround(s, drop, m);
    WithoutNothing(front, drop, 0);
    var kept := front + ([s[m]] + w);
    assert Without(s, drop, 0) == kept;
    WithoutAround(s, drop + {m}, m);
    WithoutNothing(front, drop + {m}, 0);
    WithoutInRange(s[m + 1..], drop, drop + {m}, m + 1);
    assert [] + w == w;
    assert Without(s, drop + {m}, 0) == front + w;
    assert kept[..m] == front;
    assert kept[m + 1..] == w;
  }

  // ---------------------------------------------------------------------------
  // Moving the selected buffers
  // ---------------------------------------------------------------------------

  /** One entry of the buffer list together with its selection state; the list view
      keeps the two side by side. */
  datatype Row<T> = Row(item: T, selected: bool)

  /** `idxs` is the selection model's list of selected positions for `rows`. */
  predicate IsSelection<T>(rows: seq<Row<T>>, idxs: seq<int>)
  {
    && StrictlyIncreasing(idxs)
    && (forall k :: 0 <= k < |idxs| ==> 0 <= idxs[k] < |rows|)
    && (forall p :: 0 <= p < |rows| ==> (rows[p].selected <==> p in idxs))
  }

  /** `swapBuffers(i, j)`: the two buffers trade places and each keeps its selection
      state, which therefore trades places too. */
  function SwapBuffers<T>(rows: seq<Row<T>>, i: nat, j: nat): (r: seq<Row<T>>)
    requires i < |rows| && j < |rows|
    ensures |r| == |rows|
    ensures r[i] == rows[j] && r[j] == rows[i]
    ensures forall k :: 0 <= k < |rows| && k != i && k != j ==> r[k] == rows[k]
    ensures multiset(r) == multiset(rows)
  {
    rows[i := rows[j]][j := rows[i]]
  }

  /** Neighbouring selected positions are at least as far apart as their ranks. */
  lemma {:induction false} IncreasingGap(idxs: seq<int>, a: int, b: int)
    requires StrictlyIncreasing(idxs)
    requires 0 <= a <= b < |idxs|
    ensures idxs[b] - idxs[a] >= b - a
    decreases b - a
  {
    if a < b {
      IncreasingGap(idxs, a + 1, b);
    }
  }

  /** The `t`-th selected position of `n` rows is at least `t`, and leaves room below
      it for the `|idxs| - 1 - t` selected positions after it. */
  lemma SelectionBounds(idxs: seq<int>, n: int)
    requires StrictlyIncreasing(idxs)
    requires forall k :: 0 <= k < |idxs| ==> 0 <= idxs[k] < n
    ensures forall t :: 0 <= t < |idxs| ==> t <= idxs[t] <= n - |idxs| + t
  {
    forall t | 0 <= t < |idxs|
      ensures t <= idxs[t] <= n - |idxs| + t
    {
      IncreasingGap(idxs, 0, t);
      IncreasingGap(idxs, t, |idxs| - 1);
    }
  }

  /** The rows that are not selected, in order. */
  function Unselected<T>(rows: seq<Row<T>>): seq<Row<T>>
    decreases |rows|
  {
    if |rows| == 0 then []
    else if rows[0].selected then Unselected(rows[1..])
    else [rows[0]] + Unselected(rows[1..])
  }

  lemma {:induction false} UnselectedAppend<T>(a: seq<Row<T>>, b: seq<Row<T>>)
    ensures Unselected(a + b) == Unselected(a) + Unselected(b)
    decreases |a|
  {
    if |a| == 0 {
      assert a + b == b;
    } else {
      assert (a + b)[1..] == a[1..] + b;
      UnselectedAppend(a[1..], b);
    }
  }

  /** Trading two neighbours, one of them selected, keeps the unselected rows in order. */
  lemma UnselectedSwapPieces<T>(front: seq<Row<T>>, x: Row<T>, y: Row<T>, back: seq<Row<T>>)
    requires x.selected || y.selected
    ensures Unselected(front + ([x, y] + back)) == Unselected(front + ([y, x] + back))
  {
    UnselectedAppend(front, [x, y] + back);
    UnselectedAppend(front, [y, x] + back);
    UnselectedAppend([x, y], back);
    UnselectedAppend([y, x], back);
    UnselectedPair(x, y);
    UnselectedPair(y, x);
  }

  lemma UnselectedPair<T>(x: Row<T>, y: Row<T>)
    ensures Unselected([x, y]) == (if x.selected then [] else [x]) + (if y.selected then [] else [y])
  {
    assert [x, y][1..] == [y];
    assert [y][1..] == [];
    assert Unselected([y]) == (if y.selected then [] else [y]);
  }

  /** A sequence cut around the neighbours at `lo` and `lo + 1`. */
  lemma AroundPair<T>(s: seq<T>, lo: nat)
    requires lo + 1 < |s|
    ensures s == s[..lo] + ([s[lo], s[lo + 1]] + s[lo + 2..])
  {
  }

  /** Swapping two neighbours of which at least one is selected leaves the order of
      the unselected rows alone. */
  lemma UnselectedSwapNeighbours<T>(r: seq<Row<T>>, i: nat, j: nat)
    requires i < |r| && j < |r| && (j == i + 1 || i == j + 1)
    requires r[i].selected || r[j].selected
    ensures Unselected(SwapBuffers(r, i, j)) == Unselected(r)
  {
    var lo := if i < j then i else j;
    var s := SwapBuffers(r, i, j);
    AroundPair(r, lo);
    AroundPair(s, lo);
    assert s[..lo] == r[..lo];
    assert s[lo + 2..] == r[lo + 2..];
    UnselectedSwapPieces(r[..lo], r[lo], r[lo + 1], r[lo + 2..]);
  }

  /** `onBtnUp` handling the selected position `i`: the buffer there swaps with the
      one above it unless it is at the top or the one above it is (by now) selected. */
  function UpStep<T>(r: seq<Row<T>>, i: int): (next: seq<Row<T>>)
    requires 0 <= i < |r|
    ensures |next| == |r|
  {
    if i <= 0 || r[i - 1].selected then r else SwapBuffers(r, i, i - 1)
  }

  /** Where `onBtnUp` stands after handling the selected positions above `b`: the
      rows from `b` on are untouched, and every selected row above `b` holds the row
      that was there or the one just below it. */
  ghost predicate MovedUpAbove<T>(rows: seq<Row<T>>, r: seq<Row<T>>, b: int)
  {
    && |r| == |rows|
    && 0 <= b <= |rows|
    && (forall k {:trigger r[k]} :: b <= k < |rows| ==> r[k] == rows[k])
    && (forall k {:trigger r[k]} :: 0 <= k < b && r[k].selected ==>
          r[k] == rows[k] || (k + 1 < |rows| && r[k] == rows[k + 1]))
  }

  /** Where `onBtnUp` leaves the selected row of rank `t`: in place when the `t`
      rows above it are all selected (they then fill the top), otherwise one place
      higher. */
  ghost predicate PlacedUp<T>(rows: seq<Row<T>>, idxs: seq<int>, r: seq<Row<T>>, t: int)
  {
    && |r| == |rows|
    && 0 <= t < |idxs|
    && 0 <= idxs[t] < |rows|
    && var i := idxs[t];
       if i == t then r[i] == rows[i] else 0 < i && r[i - 1] == rows[i]
  }

  /** After the first `j` selected positions: each of them is placed, and the row at
      the last one handled is selected exactly when that row stayed. */
  ghost predicate UpPlaced<T>(rows: seq<Row<T>>, idxs: seq<int>, r: seq<Row<T>>, j: int)
  {
    && |r| == |rows|
    && 0 <= j <= |idxs|
    && (forall t :: 0 <= t < j ==> PlacedUp(rows, idxs, r, t))
    && (0 < j ==> 0 <= idxs[j - 1] < |r| && (r[idxs[j - 1]].selected <==> idxs[j - 1] == j - 1))
  }

  /** What `onBtnUp` keeps true after handling the first `j` selected positions. */
  ghost predicate UpInvariant<T>(rows: seq<Row<T>>, idxs: seq<int>, r: seq<Row<T>>, j: int)
  {
    && 0 <= j <= |idxs|
    && MovedUpAbove(rows, r, if j == 0 then 0 else idxs[j - 1] + 1)
    && UpPlaced(rows, idxs, r, j)
    && Unselected(r) == Unselected(rows)
    && multiset(r) == multiset(rows)
    && ((forall t :: 0 <= t < |idxs| ==> idxs[t] == t) ==> r == rows)
  }

  /** Handling the selected position `i`, the first one at or after `b`, extends the
      stretch handled down to `i`. */
  lemma MoveUpStep<T>(rows: seq<Row<T>>, r: seq<Row<T>>, b: int, i: int)
    requires MovedUpAbove(rows, r, b)
    requires b <= i < |rows| && rows[i].selected
    requires forall k :: b <= k < i ==> !rows[k].selected
    ensures MovedUpAbove(rows, UpStep(r, i), i + 1)
  {
    if !(i <= 0 || r[i - 1].selected) {
      var next := SwapBuffers(r, i, i - 1);
      forall k | 0 <= k < i + 1 && next[k].selected
        ensures next[k] == rows[k] || (k + 1 < |rows| && next[k] == rows[k + 1])
      {
        if k == i - 1 {
          assert next[k] == rows[i];
        }
      }
    }
  }

  /** The `j`-th selected row is blocked (at the top, or below a selected row)
      exactly when the `j` rows above it are all selected. */
  lemma MoveUpDecision<T>(rows: seq<Row<T>>, idxs: seq<int>, r: seq<Row<T>>, j: int)
    requires 0 <= j < |idxs|
    requires j <= idxs[j] < |r|
    requires j > 0 ==> j - 1 <= idxs[j - 1] < idxs[j]
    requires UpPlaced(rows, idxs, r, j)
    requires var i := idxs[j]; 0 < i && (j == 0 || idxs[j - 1] < i - 1) ==> !r[i - 1].selected
    ensures var i := idxs[j]; (i <= 0 || r[i - 1].selected) <==> i == j
  {
  }

  /** A blocked selected row stays where it is; one that is not blocked trades places
      with the unselected row above it, and the rows handled before it all lie higher
      up and are left alone. */
  lemma MoveUpPlaces<T>(rows: seq<Row<T>>, idxs: seq<int>, r: seq<Row<T>>, j: int)
    requires 0 <= j < |idxs|
    requires UpPlaced(rows, idxs, r, j)
    requires j <= idxs[j] < |rows|
    requires r[idxs[j]] == rows[idxs[j]] && rows[idxs[j]].selected
    requires var i := idxs[j]; (i <= 0 || r[i - 1].selected) <==> i == j
    requires forall t :: 0 <= t < j ==> t <= idxs[t] < idxs[j]
    ensures UpPlaced(rows, idxs, UpStep(r, idxs[j]), j + 1)
  {
    var i := idxs[j];
    if !(i <= 0 || r[i - 1].selected) {
      var next := SwapBuffers(r, i, i - 1);
      forall t | 0 <= t < j
        ensures PlacedUp(rows, idxs, next, t)
      {
        assert PlacedUp(rows, idxs, r, t);
      }
    }
  }

  /** Moving a selected row up keeps the unselected rows in order. */
  lemma UnselectedUpStep<T>(r: seq<Row<T>>, i: int)
    requires 0 <= i < |r| && r[i].selected
    ensures Unselected(UpStep(r, i)) == Unselected(r)
  {
    if !(i <= 0 || r[i - 1].selected) {
      UnselectedSwapNeighbours(r, i, i - 1);
    }
  }

  /** What the selection model says about its `j`-th entry: the row there is
      selected, the entries around it leave room for their ranks, and the rows
      strictly between it and its neighbouring entries are not selected. */
  ghost predicate SelectedAmong<T>(rows: seq<Row<T>>, idxs: seq<int>, j: int)
    requires 0 <= j < |idxs|
  {
    && 0 <= idxs[j] < |rows|
    && rows[idxs[j]].selected
    && (forall t :: 0 <= t < |idxs| ==> t <= idxs[t] <= |rows| - |idxs| + t)
    && (forall t :: 0 <= t < j ==> idxs[t] < idxs[j])
    && (forall t :: j < t < |idxs| ==> idxs[j] < idxs[t])
    && (forall k :: (if j == 0 then 0 else idxs[j - 1] + 1) <= k < idxs[j] ==> !rows[k].selected)
    && (forall k :: idxs[j] < k < (if j + 1 == |idxs| then |rows| else idxs[j + 1]) ==> !rows[k].selected)
  }

  /** Every entry of a selection model satisfies `SelectedAmong`. */
  lemma SelectionEntry<T>(rows: seq<Row<T>>, idxs: seq<int>, j: int)
    requires IsSelection(rows, idxs)
    requires 0 <= j < |idxs|
    ensures SelectedAmong(rows, idxs, j)
  {
    SelectionBounds(idxs, |rows|);
    forall k | (if j == 0 then 0 else idxs[j - 1] + 1) <= k < idxs[j]
      ensures !rows[k].selected
    {
      NotListedBetween(idxs, j, k);
    }
    forall k | idxs[j] < k < (if j + 1 == |idxs| then |rows| else idxs[j + 1])
      ensures !rows[k].selected
    {
      NotListedBetween(idxs, j + 1, k);
    }
  }

  /** Handling the `j`-th selected position keeps the invariant of `onBtnUp`. */
  lemma MoveUpAdvance<T>(rows: seq<Row<T>>, idxs: seq<int>, r: seq<Row<T>>, h: int, next: seq<Row<T>>)
    requires 0 < h <= |idxs|
    requires UpInvariant(rows, idxs, r, h - 1)
    requires SelectedAmong(rows, idxs, h - 1)
    requires next == UpStep(r, idxs[h - 1])
    ensures UpInvariant(rows, idxs, next, h)
  {
    var j := h - 1;
    var i := idxs[j];
    var b := if j == 0 then 0 else idxs[j - 1] + 1;
    MoveUpStep(rows, r, b, i);
    MoveUpDecision(rows, idxs, r, j);
    MoveUpPlaces(rows, idxs, r, j);
    UnselectedUpStep(r, i);
    if i != j {
      assert !(forall t :: 0 <= t < |idxs| ==> idxs[t] == t);
    }
  }

  /** The rows once `onBtnUp` has handled the first `j` selected positions. */
  function UpPass<T>(rows: seq<Row<T>>, idxs: seq<int>, j: int): (r: seq<Row<T>>)
    requires 0 <= j <= |idxs|
    requires forall t :: 0 <= t < |idxs| ==> 0 <= idxs[t] < |rows|
    ensures |r| == |rows|
  {
    if j == 0 then rows else UpStep(UpPass(rows, idxs, j - 1), idxs[j - 1])
  }

  /** Handling the selected positions one by one keeps the invariant of `onBtnUp`. */
  lemma {:induction false} UpPassKeeps<T>(rows: seq<Row<T>>, idxs: seq<int>, j: int)
    requires IsSelection(rows, idxs)
    requires 0 <= j <= |idxs|
    ensures UpInvariant(rows, idxs, UpPass(rows, idxs, j), j)
  {
    if j == 0 {
      assert UpPass(rows, idxs, j) == rows;
      UpInvariantStart(rows, idxs);
    } else {
      assert UpPass(rows, idxs, j) == UpStep(UpPass(rows, idxs, j - 1), idxs[j - 1]);
      UpPassKeeps(rows, idxs, j - 1);
      MoveUpIteration(rows, idxs, UpPass(rows, idxs, j - 1), j);
    }
  }

  /** Handling the selected position of rank `h - 1` keeps the invariant of
      `onBtnUp`. */
  lemma MoveUpIteration<T>(rows: seq<Row<T>>, idxs: seq<int>, r: seq<Row<T>>, h: int)
    requires IsSelection(rows, idxs)
    requires 0 < h <= |idxs|
    requires UpInvariant(rows, idxs, r, h - 1)
    ensures UpInvariant(rows, idxs, UpStep(r, idxs[h - 1]), h)
  {
    SelectionEntry(rows, idxs, h - 1);
    MoveUpAdvance(rows, idxs, r, h, UpStep(r, idxs[h - 1]));
  }

  /** Before `onBtnUp` handles anything, its invariant holds of the rows as given. */
  lemma UpInvariantStart<T>(rows: seq<Row<T>>, idxs: seq<int>)
    ensures UpInvariant(rows, idxs, rows, 0)
  {
  }

  /** Once every selected position is handled, the rows meet the contract of
      `onBtnUp`. */
  lemma MoveUpFinish<T>(rows: seq<Row<T>>, idxs: seq<int>, r: seq<Row<T>>)
    requires IsSelection(rows, idxs)
    requires r == UpPass(rows, idxs, |idxs|)
    ensures |r| == |rows|
    ensures multiset(r) == multiset(rows)
    ensures forall k {:trigger r[k]} :: 0 <= k < |r| && r[k].selected ==>
              r[k] == rows[k] || (k + 1 < |rows| && r[k] == rows[k + 1])
    ensures (forall t :: 0 <= t < |idxs| ==> idxs[t] == t) ==> r == rows
    ensures forall t :: 0 <= t < |idxs| ==>
              if idxs[t] == t then r[idxs[t]] == rows[idxs[t]]
              else 0 < idxs[t] && r[idxs[t] - 1] == rows[idxs[t]]
    ensures Unselected(r) == Unselected(rows)
  {
    UpPassKeeps(rows, idxs, |idxs|);
    var b := if |idxs| == 0 then 0 else idxs[|idxs| - 1] + 1;
    forall k | 0 <= k < |r| && r[k].selected
      ensures r[k] == rows[k] || (k + 1 < |rows| && r[k] == rows[k + 1])
    {
      if k >= b {
        assert r[k] == rows[k];
      }
    }
    forall t | 0 <= t < |idxs|
      ensures if idxs[t] == t then r[idxs[t]] == rows[idxs[t]]
              else 0 < idxs[t] && r[idxs[t] - 1] == rows[idxs[t]]
    {
      assert PlacedUp(rows, idxs, r, t);
    }
  }

  /** `onBtnUp`: walk the selected positions from the top; a selected buffer swaps
      with the one above it unless it is already at the top or the one above it is
      (by now) selected. A selected buffer with unselected rows above it ends one
      place higher, the others stay, and the unselected buffers keep their order. */
  method MoveUp<T>(rows: seq<Row<T>>, idxs: seq<int>) returns (r: seq<Row<T>>)
    requires IsSelection(rows, idxs)
    ensures |r| == |rows|
    ensures multiset(r) == multiset(rows)
    ensures forall k {:trigger r[k]} :: 0 <= k < |r| && r[k].selected ==>
              r[k] == rows[k] || (k + 1 < |rows| && r[k] == rows[k + 1])
    ensures (forall t :: 0 <= t < |idxs| ==> idxs[t] == t) ==> r == rows
    ensures forall t :: 0 <= t < |idxs| ==>
              if idxs[t] == t then r[idxs[t]] == rows[idxs[t]]
              else 0 < idxs[t] && r[idxs[t] - 1] == rows[idxs[t]]
    ensures Unselected(r) == Unselected(rows)
  {
    r := rows;
    var j := 0;
    while j < |idxs|
      invariant 0 <= j <= |idxs|
      invariant r == UpPass(rows, idxs, j)
    {
      r := UpStep(r, idxs[j]);
      j := j + 1;
    }
    MoveUpFinish(rows, idxs, r);
  }

  /** `onBtnDown` handling the selected position `i`: the buffer there swaps with
      the one below it unless it is at the bottom or the one below it is (by now)
      selected. */
  function DownStep<T>(r: seq<Row<T>>, i: int): (next: seq<Row<T>>)
    requires 0 <= i < |r|
    ensures |next| == |r|
  {
    if i >= |r| - 1 || r[i + 1].selected then r else SwapBuffers(r, i, i + 1)
  }

  /** Where `onBtnDown` stands after handling the selected positions from `b` on: the
      rows above `b` are untouched, and every selected row from `b` on holds the row
      that was there or the one just above it. */
  ghost predicate MovedDownFrom<T>(rows: seq<Row<T>>, r: seq<Row<T>>, b: int)
  {
    && |r| == |rows|
    && 0 <= b <= |rows|
    && (forall k {:trigger r[k]} :: 0 <= k < b ==> r[k] == rows[k])
    && (forall k {:trigger r[k]} :: b <= k < |rows| && r[k].selected ==>
          r[k] == rows[k] || (k > 0 && r[k] == rows[k - 1]))
  }

  /** Where `onBtnDown` leaves the selected row of rank `t`: in place when the rows
      below it are all selected (they then fill the bottom), otherwise one place
      lower. */
  ghost predicate PlacedDown<T>(rows: seq<Row<T>>, idxs: seq<int>, r: seq<Row<T>>, t: int)
  {
    && |r| == |rows|
    && 0 <= t < |idxs|
    && 0 <= idxs[t] < |rows|
    && var i := idxs[t];
       if i == |rows| - |idxs| + t then r[i] == rows[i] else i + 1 < |rows| && r[i + 1] == rows[i]
  }

  /** After the selected positions from the `j`-th on: each of them is placed, and
      the row at the last one handled is selected exactly when that row stayed. */
  ghost predicate DownPlaced<T>(rows: seq<Row<T>>, idxs: seq<int>, r: seq<Row<T>>, j: int)
  {
    && |r| == |rows|
    && 0 <= j <= |idxs|
    && (forall t :: j <= t < |idxs| ==> PlacedDown(rows, idxs, r, t))
    && (j < |idxs| ==> 0 <= idxs[j] < |r| && (r[idxs[j]].selected <==> idxs[j] == |rows| - |idxs| + j))
  }

  /** What `onBtnDown` keeps true after handling the selected positions from the
      `j`-th on. */
  ghost predicate DownInvariant<T>(rows: seq<Row<T>>, idxs: seq<int>, r: seq<Row<T>>, j: int)
  {
    && 0 <= j <= |idxs|
    && MovedDownFrom(rows, r, if j == |idxs| then |rows| else idxs[j])
    && DownPlaced(rows, idxs, r, j)
    && Unselected(r) == Unselected(rows)
    && multiset(r) == multiset(rows)
    && ((forall t :: 0 <= t < |idxs| ==> idxs[t] == |rows| - |idxs| + t) ==> r == rows)
  }

  /** Handling the selected position `i`, the last one before `b`, extends the
      stretch handled up to `i`. */
  lemma MoveDownStep<T>(rows: seq<Row<T>>, r: seq<Row<T>>, b: int, i: int)
    requires MovedDownFrom(rows, r, b)
    requires 0 <= i < b && rows[i].selected
    requires forall k :: i < k < b ==> !rows[k].selected
    ensures MovedDownFrom(rows, DownStep(r, i), i)
  {
    if !(i >= |rows| - 1 || r[i + 1].selected) {
      var next := SwapBuffers(r, i, i + 1);
      forall k | i <= k < |rows| && next[k].selected
        ensures next[k] == rows[k] || (k > 0 && next[k] == rows[k - 1])
      {
        if k == i + 1 {
          assert next[k] == rows[i];
        }
      }
    }
  }

  /** The `j`-th selected row is blocked (at the bottom, or above a selected row)
      exactly when the rows below it are all selected. */
  lemma MoveDownDecision<T>(rows: seq<Row<T>>, idxs: seq<int>, r: seq<Row<T>>, j: int)
    requires 0 <= j < |idxs|
    requires 0 <= idxs[j] <= |rows| - |idxs| + j
    requires |r| == |rows|
    requires j + 1 < |idxs| ==> idxs[j] < idxs[j + 1] <= |rows| - |idxs| + j + 1
    requires DownPlaced(rows, idxs, r, j + 1)
    requires var i := idxs[j];
      i + 1 < |rows| && (j + 1 == |idxs| || i + 1 < idxs[j + 1]) ==> !r[i + 1].selected
    ensures var i := idxs[j];
      (i >= |rows| - 1 || r[i + 1].selected) <==> i == |rows| - |idxs| + j
  {
  }

  /** A blocked selected row stays where it is; one that is not blocked trades places
      with the unselected row below it, and the rows handled before it all lie lower
      down and are left alone. */
  lemma MoveDownPlaces<T>(rows: seq<Row<T>>, idxs: seq<int>, r: seq<Row<T>>, j: int)
    requires 0 <= j < |idxs|
    requires DownPlaced(rows, idxs, r, j + 1)
    requires 0 <= idxs[j] <= |rows| - |idxs| + j
    requires r[idxs[j]] == rows[idxs[j]] && rows[idxs[j]].selected
    requires var i := idxs[j];
      (i >= |rows| - 1 || r[i + 1].selected) <==> i == |rows| - |idxs| + j
    requires forall t :: j < t < |idxs| ==> idxs[j] < idxs[t] <= |rows| - |idxs| + t
    ensures DownPlaced(rows, idxs, DownStep(r, idxs[j]), j)
  {
    var i := idxs[j];
    if !(i >= |rows| - 1 || r[i + 1].selected) {
      var next := SwapBuffers(r, i, i + 1);
      forall t | j < t < |idxs|
        ensures PlacedDown(rows, idxs, next, t)
      {
        assert PlacedDown(rows, idxs, r, t);
      }
      assert PlacedDown(rows, idxs, next, j);
    }
  }

  /** Moving a selected row down keeps the unselected rows in order. */
  lemma UnselectedDownStep<T>(r: seq<Row<T>>, i: int)
    requires 0 <= i < |r| && r[i].selected
    ensures Unselected(DownStep(r, i)) == Unselected(r)
  {
    if !(i >= |r| - 1 || r[i + 1].selected) {
      UnselectedSwapNeighbours(r, i, i + 1);
    }
  }

  /** Handling the selected position of rank `h - 1` keeps the invariant of
      `onBtnDown`. */
  lemma MoveDownAdvance<T>(rows: seq<Row<T>>, idxs: seq<int>, r: seq<Row<T>>, j: int, next: seq<Row<T>>)
    requires 0 <= j < |idxs|
    requires DownInvariant(rows, idxs, r, j + 1)
    requires SelectedAmong(rows, idxs, j)
    requires next == DownStep(r, idxs[j])
    ensures DownInvariant(rows, idxs, next, j)
  {
    var i := idxs[j];
    var b := if j + 1 == |idxs| then |rows| else idxs[j + 1];
    MoveDownStep(rows, r, b, i);
    MoveDownDecision(rows, idxs, r, j);
    MoveDownPlaces(rows, idxs, r, j);
    UnselectedDownStep(r, i);
    if i != |rows| - |idxs| + j {
      assert !(forall t :: 0 <= t < |idxs| ==> idxs[t] == |rows| - |idxs| + t);
    }
  }

  /** The rows once `onBtnDown` has handled the selected positions from rank `j`
      on. */
  function DownPass<T>(rows: seq<Row<T>>, idxs: seq<int>, j: int): (r: seq<Row<T>>)
    requires 0 <= j <= |idxs|
    requires forall t :: 0 <= t < |idxs| ==> 0 <= idxs[t] < |rows|
    ensures |r| == |rows|
    decreases |idxs| - j
  {
    if j == |idxs| then rows else DownStep(DownPass(rows, idxs, j + 1), idxs[j])
  }

  /** Handling the selected positions one by one keeps the invariant of
      `onBtnDown`. */
  lemma {:induction false} DownPassKeeps<T>(rows: seq<Row<T>>, idxs: seq<int>, j: int)
    requires IsSelection(rows, idxs)
    requires 0 <= j <= |idxs|
    ensures DownInvariant(rows, idxs, DownPass(rows, idxs, j), j)
    decreases |idxs| - j
  {
    if j == |idxs| {
      assert DownPass(rows, idxs, j) == rows;
      DownInvariantStart(rows, idxs);
    } else {
      assert DownPass(rows, idxs, j) == DownStep(DownPass(rows, idxs, j + 1), idxs[j]);
      DownPassKeeps(rows, idxs, j + 1);
      MoveDownIteration(rows, idxs, DownPass(rows, idxs, j + 1), j);
    }
  }

  /** Handling the selected position of rank `j` keeps the invariant of
      `onBtnDown`. */
  lemma MoveDownIteration<T>(rows: seq<Row<T>>, idxs: seq<int>, r: seq<Row<T>>, j: int)
    requires IsSelection(rows, idxs)
    requires 0 <= j < |idxs|
    requires DownInvariant(rows, idxs, r, j + 1)
    ensures DownInvariant(rows, idxs, DownStep(r, idxs[j]), j)
  {
    SelectionEntry(rows, idxs, j);
    MoveDownAdvance(rows, idxs, r, j, DownStep(r, idxs[j]));
  }

  /** Before `onBtnDown` handles anything, its invariant holds of the rows as given. */
  lemma DownInvariantStart<T>(rows: seq<Row<T>>, idxs: seq<int>)
    ensures DownInvariant(rows, idxs, rows, |idxs|)
  {
  }

  /** Once every selected position is handled, the rows meet the contract of
      `onBtnDown`. */
  lemma MoveDownFinish<T>(rows: seq<Row<T>>, idxs: seq<int>, r: seq<Row<T>>)
    requires IsSelection(rows, idxs)
    requires r == DownPass(rows, idxs, 0)
    ensures |r| == |rows|
    ensures multiset(r) == multiset(rows)
    ensures forall k {:trigger r[k]} :: 0 <= k < |r| && r[k].selected ==>
              r[k] == rows[k] || (k > 0 && r[k] == rows[k - 1])
    ensures (forall t :: 0 <= t < |idxs| ==> idxs[t] == |rows| - |idxs| + t) ==> r == rows
    ensures forall t :: 0 <= t < |idxs| ==>
              if idxs[t] == |rows| - |idxs| + t then r[idxs[t]] == rows[idxs[t]]
              else idxs[t] + 1 < |rows| && r[idxs[t] + 1] == rows[idxs[t]]
    ensures Unselected(r) == Unselected(rows)
  {
    DownPassKeeps(rows, idxs, 0);
    var b := if |idxs| == 0 then |rows| else idxs[0];
    forall k | 0 <= k < |r| && r[k].selected
      ensures r[k] == rows[k] || (k > 0 && r[k] == rows[k - 1])
    {
      if k < b {
        assert r[k] == rows[k];
      }
    }
    forall t | 0 <= t < |idxs|
      ensures if idxs[t] == |rows| - |idxs| + t then r[idxs[t]] == rows[idxs[t]]
              else idxs[t] + 1 < |rows| && r[idxs[t] + 1] == rows[idxs[t]]
    {
      assert PlacedDown(rows, idxs, r, t);
    }
  }

  /** `onBtnDown`: walk the selected positions from the bottom; a selected buffer
      swaps with the one below it unless it is already at the bottom or the one
      below it is (by now) selected. A selected buffer with unselected rows below it
      ends one place lower, the others stay, and the unselected buffers keep their
      order. */
  method MoveDown<T>(rows: seq<Row<T>>, idxs: seq<int>) returns (r: seq<Row<T>>)
    requires IsSelection(rows, idxs)
    ensures |r| == |rows|
    ensures multiset(r) == multiset(rows)
    ensures forall k {:trigger r[k]} :: 0 <= k < |r| && r[k].selected ==>
              r[k] == rows[k] || (k > 0 && r[k] == rows[k - 1])
    ensures (forall t :: 0 <= t < |idxs| ==> idxs[t] == |rows| - |idxs| + t) ==> r == rows
    ensures forall t :: 0 <= t < |idxs| ==>
              if idxs[t] == |rows| - |idxs| + t then r[idxs[t]] == rows[idxs[t]]
              else idxs[t] + 1 < |rows| && r[idxs[t] + 1] == rows[idxs[t]]
    ensures Unselected(r) == Unselected(rows)
  {
    r := rows;
    var j := |idxs|;
    while j > 0
      invariant 0 <= j <= |idxs|
      invariant r == DownPass(rows, idxs, j)
    {
      r := DownStep(r, idxs[j - 1]);
      j := j - 1;
    }
    MoveDownFinish(rows, idxs, r);
  }

  /** A position strictly between two neighbouring entries of an increasing list is
      not in the list. */
  lemma NotListedBetween(idxs: seq<int>, j: nat, k: int)
    requires StrictlyIncreasing(idxs)
    requires j <= |idxs|
    requires j > 0 ==> idxs[j - 1] < k
    requires j < |idxs| ==> k < idxs[j]
    ensures k !in idxs
  {
    forall t | 0 <= t < |idxs|
      ensures idxs[t] != k
    {
      if t < j {
        assert idxs[t] <= idxs[j - 1];
      } else {
        assert idxs[j] <= idxs[t];
      }
    }
  }
}
