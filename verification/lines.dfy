/** Full rows and their removal: the specification the line-clearing loop of the board
    is proved against. All full rows leave at once, the remaining rows keep their
    order, and as many empty rows as were removed are added on top. */
module Lines {
  import opened Wrappers
  import opened Grids

  /** Every cell of the row holds a colour. A row of width 0 is full. */
  predicate Full(row: Row)
  {
    forall x :: 0 <= x < |row| ==> row[x].Some?
  }

  /** A row is full exactly when no cell of it is empty. */
  lemma FullHasNoGap(row: Row)
    ensures Full(row) <==> None !in row
  {
  }

  /** The indices of the full rows among the first `n`, ascending: what the scanning
      loop has collected after `n` iterations. */
  function FullRowsBelow(g: Grid, n: nat): (f: seq<nat>)
    requires n <= |g|
    ensures forall j :: 0 <= j < |f| ==> f[j] < n
  {
    if n == 0 then [] else FullRowsBelow(g, n - 1) + (if Full(g[n - 1]) then [n - 1] else [])
  }

  function FullRows(g: Grid): seq<nat>
  {
    FullRowsBelow(g, |g|)
  }

  /** The rows among the first `n` that are not full, in their original order. */
  function KeptBelow(g: Grid, n: nat): seq<Row>
    requires n <= |g|
  {
    if n == 0 then [] else KeptBelow(g, n - 1) + (if Full(g[n - 1]) then [] else [g[n - 1]])
  }

  /** The rows that are not full, in their original order. */
  function NonFull(g: Grid): seq<Row>
  {
    KeptBelow(g, |g|)
  }

  function Empties(n: nat, width: nat): (rows: seq<Row>)
    ensures |rows| == n
    ensures forall y :: 0 <= y < n ==> rows[y] == EmptyRow(width)
  {
    if n == 0 then [] else [EmptyRow(width)] + Empties(n - 1, width)
  }

  /** The grid after removing every full row at once: one empty row per removed row on
      top, followed by the other rows in their original order. */
  function Cleared(g: Grid, width: nat): Grid
  {
    Empties(|FullRows(g)|, width) + NonFull(g)
  }

  /** The indices ascend strictly. */
  predicate Ascending(f: seq<nat>)
  {
    forall j, k :: 0 <= j < k < |f| ==> f[j] < f[k]
  }

  /** What the scan collects: ascending indices below `n`, exactly those of full rows,
      and together with the kept rows they account for every row. */
  lemma FullRowsBelowFacts(g: Grid, n: nat)
    requires n <= |g|
    ensures var f := FullRowsBelow(g, n);
      && Ascending(f)
      && (forall j :: 0 <= j < |f| ==> Full(g[f[j]]))
      && (forall m :: 0 <= m < n && Full(g[m]) ==> m in f)
      && |f| + |KeptBelow(g, n)| == n
  {
    FullRowsBelowAscend(g, n);
    FullRowsBelowExact(g, n);
    FullRowsBelowCount(g, n);
    var f := FullRowsBelow(g, n);
    forall j | 0 <= j < |f|
      ensures Full(g[f[j]])
    {
      assert f[j] in f;
    }
  }

  lemma {:induction false} FullRowsBelowAscend(g: Grid, n: nat)
    requires n <= |g|
    ensures Ascending(FullRowsBelow(g, n))
  {
    if n > 0 {
      FullRowsBelowAscend(g, n - 1);
      var f, f' := FullRowsBelow(g, n), FullRowsBelow(g, n - 1);
      if Full(g[n - 1]) {
        assert f == f' + [n - 1];
        assert forall j :: 0 <= j < |f'| ==> f[j] == f'[j] < n - 1;
        assert f[|f'|] == n - 1;
      } else {
        assert f == f';
      }
    }
  }

  /** A row index is collected from the first `n` rows exactly when it is below `n`
      and its row is full. */
  lemma {:induction false} FullRowsBelowExact(g: Grid, n: nat)
    requires n <= |g|
    ensures forall y: nat :: y in FullRowsBelow(g, n) <==> y < n && Full(g[y])
  {
    if n > 0 {
      FullRowsBelowExact(g, n - 1);
    }
  }

  lemma {:induction false} FullRowsBelowCount(g: Grid, n: nat)
    requires n <= |g|
    ensures |FullRowsBelow(g, n)| + |KeptBelow(g, n)| == n
  {
    if n > 0 {
      FullRowsBelowCount(g, n - 1);
    }
  }

  /** Rows `lo` to `hi` that are all not full are kept as a block. */
  lemma {:induction false} KeptRun(g: Grid, lo: nat, hi: nat)
    requires lo <= hi <= |g|
    requires forall m :: lo <= m < hi ==> !Full(g[m])
    ensures KeptBelow(g, hi) == KeptBelow(g, lo) + g[lo..hi]
    decreases hi - lo
  {
    if lo < hi {
      KeptRun(g, lo, hi - 1);
      assert g[lo..hi] == g[lo..hi - 1] + [g[hi - 1]];
    }
  }

  /** Without full rows the kept rows are the whole grid. */
  lemma NonFullKeepsAll(g: Grid)
    requires forall y :: 0 <= y < |g| ==> !Full(g[y])
    ensures NonFull(g) == g
  {
    KeptRun(g, 0, |g|);
    assert g[0..|g|] == g;
  }

  /** No kept row is full, and kept rows keep their width. */
  lemma {:induction false} KeptRowsFacts(g: Grid, n: nat, width: nat)
    requires n <= |g|
    ensures forall j :: 0 <= j < |KeptBelow(g, n)| ==> !Full(KeptBelow(g, n)[j])
    ensures (forall y :: 0 <= y < |g| ==> |g[y]| == width) ==>
      forall j :: 0 <= j < |KeptBelow(g, n)| ==> |KeptBelow(g, n)[j]| == width
  {
    if n > 0 {
      KeptRowsFacts(g, n - 1, width);
    }
  }

  /** Clearing keeps the grid's dimensions. */
  lemma ClearedShaped(g: Grid, width: nat, height: nat)
    requires Shaped(g, width, height)
    ensures Shaped(Cleared(g, width), width, height)
  {
    FullRowsBelowFacts(g, |g|);
    KeptRowsFacts(g, |g|, width);
  }

  /** Without full rows among the first `n`, the scan collects nothing. */
  lemma {:induction false} NoFullRowsFound(g: Grid, n: nat)
    requires n <= |g|
    requires forall y :: 0 <= y < n ==> !Full(g[y])
    ensures FullRowsBelow(g, n) == []
  {
    if n > 0 {
      NoFullRowsFound(g, n - 1);
    }
  }

  /** When the first `n` rows are all full, the scan collects all of them and none is kept. */
  lemma {:induction false} AllRowsFound(g: Grid, n: nat)
    requires n <= |g|
    requires forall y :: 0 <= y < n ==> Full(g[y])
    ensures |FullRowsBelow(g, n)| == n
    ensures KeptBelow(g, n) == []
  {
    if n > 0 {
      AllRowsFound(g, n - 1);
    }
  }

  /** On a board at least one column wide, a cleared grid has no full row left, so
      clearing it again changes nothing. */
  lemma ClearingTwiceClearsNothing(g: Grid, width: nat, height: nat)
    requires Shaped(g, width, height)
    requires 1 <= width
    ensures FullRows(Cleared(g, width)) == []
    ensures Cleared(Cleared(g, width), width) == Cleared(g, width)
  {
    var c := Cleared(g, width);
    var k := |FullRows(g)|;
    ClearedShaped(g, width, height);
    KeptRowsFacts(g, |g|, width);
    forall y | 0 <= y < |c|
      ensures !Full(c[y])
    {
      if y < k {
        assert c[y][0] == None;
      } else {
        assert c[y] == NonFull(g)[y - k];
      }
    }
    NoFullRowsFound(c, |c|);
    NonFullKeepsAll(c);
  }

  /** On a board zero columns wide every row counts as full, so every clearing removes
      all `height` rows (and the board adds their score) however often it runs. */
  lemma ZeroWidthRowsAreAllFull(g: Grid, height: nat)
    requires Shaped(g, 0, height)
    ensures |FullRows(g)| == height
    ensures Cleared(g, 0) == g
  {
    AllRowsFound(g, |g|);
    assert forall y :: 0 <= y < height ==> g[y] == EmptyRow(0);
  }

  /** The collected indices ascend strictly and name full rows. */
  lemma FullRowsAscend(g: Grid)
    ensures Ascending(FullRows(g))
    ensures forall j :: 0 <= j < |FullRows(g)| ==> Full(g[FullRows(g)[j]])
  {
    FullRowsBelowFacts(g, |g|);
  }

  /** Between two consecutive collected indices, and after the last one, no row is full. */
  lemma GapsAreNotFull(g: Grid, i: nat, lo: nat, hi: nat)
    requires i <= |FullRows(g)|
    requires lo == if i == 0 then 0 else FullRows(g)[i - 1] + 1
    requires hi == if i < |FullRows(g)| then FullRows(g)[i] else |g|
    ensures lo <= hi
    ensures forall m :: lo <= m < hi ==> !Full(g[m])
  {
    var f := FullRows(g);
    FullRowsBelowFacts(g, |g|);
    forall m | lo <= m < hi
      ensures !Full(g[m])
    {
      forall k | 0 <= k < |f|
        ensures f[k] != m
      {
        if k < i {
          assert f[k] <= f[i - 1];
        } else {
          assert f[i] <= f[k];
        }
      }
    }
  }

  /** Deletes row `idx` and inserts an empty row on top: the rows above `idx` move one
      down, the rows below it stay where they are. */
  function DeleteInsert(g: Grid, idx: nat, width: nat): (r: Grid)
    requires idx < |g|
    ensures |r| == |g|
    ensures r[0] == EmptyRow(width)
    ensures forall y :: 0 <= y < idx ==> r[y + 1] == g[y]
    ensures forall y :: idx < y < |g| ==> r[y] == g[y]
  {
    [EmptyRow(width)] + (g[..idx] + g[idx + 1..])
  }

  /** The grid part way through the deleting loop: `i` inserted empty rows, the kept
      rows above `cut`, and the original rows from `cut` on. */
  function Stage(orig: Grid, width: nat, i: nat, cut: nat): Grid
    requires cut <= |orig|
  {
    Empties(i, width) + KeptBelow(orig, cut) + orig[cut..]
  }

  /** One iteration of the deleting loop. Before it the grid is the `i` rows inserted so
      far, the kept rows above `cut`, and the untouched original from `cut` on; deleting
      the full row `idx` (not yet moved, since every change so far was above it) and
      inserting an empty row on top restores that shape with `idx + 1` as the new cut. */
  lemma DeleteInsertStep(orig: Grid, width: nat, i: nat, cut: nat, idx: nat, g: Grid)
    requires i < |FullRows(orig)| && idx == FullRows(orig)[i]
    requires cut == if i == 0 then 0 else FullRows(orig)[i - 1] + 1
    requires |KeptBelow(orig, cut)| + i == cut
    requires g == Stage(orig, width, i, cut)
    ensures cut <= idx < |orig|
    ensures DeleteInsert(g, idx, width) == Stage(orig, width, i + 1, idx + 1)
    ensures |KeptBelow(orig, idx + 1)| + i + 1 == idx + 1
  {
    assert cut <= idx < |orig| && Full(orig[idx]) by {
      GapsAreNotFull(orig, i, cut, idx);
      FullRowsAscend(orig);
    }
    assert KeptBelow(orig, idx + 1) == KeptBelow(orig, cut) + orig[cut..idx] by {
      GapsAreNotFull(orig, i, cut, idx);
      KeptRun(orig, cut, idx);
    }
    StageAfterDelete(orig, width, i, cut, idx, g);
  }

  /** The sequence arithmetic of one deleting step: removing entry `idx`, which lies in
      the untouched tail, and putting an empty row on top. */
  lemma StageAfterDelete(orig: Grid, width: nat, i: nat, cut: nat, idx: nat, g: Grid)
    requires cut <= idx < |orig|
    requires |KeptBelow(orig, cut)| + i == cut
    requires KeptBelow(orig, idx + 1) == KeptBelow(orig, cut) + orig[cut..idx]
    requires g == Stage(orig, width, i, cut)
    ensures DeleteInsert(g, idx, width) == Stage(orig, width, i + 1, idx + 1)
  {
    var tail := orig[cut..];
    DeleteFromTail(EmptyRow(width), Empties(i, width), KeptBelow(orig, cut), tail, idx - cut);
    assert tail[..idx - cut] == orig[cut..idx];
    assert tail[idx - cut + 1..] == orig[idx + 1..];
    assert [EmptyRow(width)] + Empties(i, width) == Empties(i + 1, width);
  }

  /** Deleting entry `k` of the tail of `front + kept + tail` and putting `e` on top. */
  lemma DeleteFromTail<A>(e: A, front: seq<A>, kept: seq<A>, tail: seq<A>, k: nat)
    requires k < |tail|
    ensures var g := front + kept + tail;
      var n := |front| + |kept| + k;
      [e] + (g[..n] + g[n + 1..]) == ([e] + front) + (kept + tail[..k]) + tail[k + 1..]
  {
    var g := front + kept + tail;
    var n := |front| + |kept| + k;
    assert g[..n] == front + kept + tail[..k];
    assert g[n + 1..] == tail[k + 1..];
  }

  /** After the last full row the rest of the original grid is kept as it is. */
  lemma DeleteInsertDone(orig: Grid, width: nat, i: nat, cut: nat)
    requires i == |FullRows(orig)|
    requires cut == if i == 0 then 0 else FullRows(orig)[i - 1] + 1
    ensures cut <= |orig|
    ensures Stage(orig, width, i, cut) == Empties(i, width) + NonFull(orig)
  {
    GapsAreNotFull(orig, i, cut, |orig|);
    KeptRun(orig, cut, |orig|);
    assert orig[cut..] == orig[cut..|orig|];
  }
}
