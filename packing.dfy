/**
 * Multiplexing of activation columns into bins (`get_conflict_score` and
 * `first_fit` in evaluate_activation.py). The conflict matrix is given: it
 * is the square matrix of real conflict rates between columns. Float
 * rounding is not modelled; scores are exact sums of reals.
 */
module Packing {

  /** A square matrix. */
  predicate Square(m: seq<seq<real>>)
  {
    forall i :: 0 <= i < |m| ==> |m[i]| == |m|
  }

  /** Every column named is a valid index of an n x n matrix. */
  predicate InRange(cols: seq<int>, n: int)
  {
    forall i :: 0 <= i < |cols| ==> 0 <= cols[i] < n
  }

  /** Conflicts of column c with each column of `rest`: the sum of m[c][rest[b]] over b. */
  function RowSum(m: seq<seq<real>>, c: int, rest: seq<int>): real
    requires Square(m) && 0 <= c < |m| && InRange(rest, |m|)
  {
    if |rest| == 0 then 0.0
    else RowSum(m, c, rest[..|rest| - 1]) + m[c][rest[|rest| - 1]]
  }

  /**
   * The conflict score of a bin: m[cols[a]][cols[b]] summed over every
   * index pair a < b, grouped by a as itertools.combinations(cols, 2)
   * enumerates them.
   */
  function PairSum(m: seq<seq<real>>, cols: seq<int>): real
    requires Square(m) && InRange(cols, |m|)
  {
    if |cols| == 0 then 0.0
    else RowSum(m, cols[0], cols[1..]) + PairSum(m, cols[1..])
  }

  /** Conflicts of every column of `cols` with column c: the sum of m[cols[a]][c] over a. */
  function ColumnSum(m: seq<seq<real>>, cols: seq<int>, c: int): real
    requires Square(m) && InRange(cols, |m|) && 0 <= c < |m|
  {
    if |cols| == 0 then 0.0
    else m[cols[0]][c] + ColumnSum(m, cols[1..], c)
  }

  /** `get_conflict_score`: a nested loop over the pairs of columns, accumulating their conflicts. */
  method ConflictScore(m: seq<seq<real>>, cols: seq<int>) returns (score: real)
    requires Square(m) && InRange(cols, |m|)
    ensures score == PairSum(m, cols)
    ensures |cols| <= 1 ==> score == 0.0
  {
    score := 0.0;
    var i := 0;
    while i < |cols|
      invariant 0 <= i <= |cols|
      invariant score + PairSum(m, cols[i..]) == PairSum(m, cols)
    {
      ghost var before := score;
      var j := i + 1;
      while j < |cols|
        invariant i + 1 <= j <= |cols|
        invariant score == before + RowSum(m, cols[i], cols[i + 1..j])
      {
        RowSumStep(m, cols, i, j);
        score := score + m[cols[i]][cols[j]];
        j := j + 1;
      }
      assert cols[i + 1..j] == cols[i + 1..];
      PairSumStep(m, cols, i);
      i := i + 1;
    }
    assert cols[|cols|..] == [];
  }

  /** One more step of the inner loop adds the conflict of cols[i] with cols[j]. */
  lemma RowSumStep(m: seq<seq<real>>, cols: seq<int>, i: nat, j: nat)
    requires Square(m) && InRange(cols, |m|) && i < j < |cols|
    ensures RowSum(m, cols[i], cols[i + 1..j + 1]) == RowSum(m, cols[i], cols[i + 1..j]) + m[cols[i]][cols[j]]
  {
    assert cols[i + 1..j + 1] == cols[i + 1..j] + [cols[j]];
    RowSumSnoc(m, cols[i], cols[i + 1..j], cols[j]);
  }

  /** Appending column x to `rest` adds the conflict of c with x. */
  lemma RowSumSnoc(m: seq<seq<real>>, c: int, rest: seq<int>, x: int)
    requires Square(m) && 0 <= c < |m| && InRange(rest, |m|) && 0 <= x < |m|
    ensures RowSum(m, c, rest + [x]) == RowSum(m, c, rest) + m[c][x]
  {
    assert (rest + [x])[..|rest|] == rest;
  }

  /** The pairs of cols[i..] are those led by cols[i] and those of cols[i + 1..]. */
  lemma PairSumStep(m: seq<seq<real>>, cols: seq<int>, i: nat)
    requires Square(m) && InRange(cols, |m|) && i < |cols|
    ensures PairSum(m, cols[i..]) == RowSum(m, cols[i], cols[i + 1..]) + PairSum(m, cols[i + 1..])
  {
    assert cols[i..][1..] == cols[i + 1..];
  }

  /**
   * Adding column c to a bin adds the conflicts of c with every column
   * already there: this is how a candidate bin `bin_elems + [column]` is scored.
   */
  lemma {:induction false} PairSumAppend(m: seq<seq<real>>, cols: seq<int>, c: int)
    requires Square(m) && InRange(cols, |m|) && 0 <= c < |m|
    ensures PairSum(m, cols + [c]) == PairSum(m, cols) + ColumnSum(m, cols, c)
  {
    if |cols| > 0 {
      var rest := cols[1..];
      assert (cols + [c])[1..] == rest + [c];
      assert (rest + [c])[..|rest|] == rest;
      PairSumAppend(m, rest, c);
    } else {
      assert cols + [c] == [c];
    }
  }

  /** A bin of fewer than two columns has no pairs and scores 0. */
  lemma PairSumOfSmallBin(m: seq<seq<real>>, cols: seq<int>)
    requires Square(m) && InRange(cols, |m|) && |cols| <= 1
    ensures PairSum(m, cols) == 0.0
  {
    if |cols| == 1 {
      assert cols[1..] == [];
    }
  }

  /** The two keyword parameters of `first_fit`. */
  datatype Limits = Limits(maxConflictScore: real, maxColumns: int)

  /** Every bin holds valid column indices. */
  predicate BinsInRange(bins: seq<seq<int>>, n: int)
  {
    forall k :: 0 <= k < |bins| ==> InRange(bins[k], n)
  }

  /**
   * Whether a bin accepts column c: it is not at the multiplexing limit
   * (the source tests `len(bin_elems) == max_columns`) and the bin with c
   * added scores strictly below the threshold.
   */
  predicate Admits(m: seq<seq<real>>, bin: seq<int>, c: int, lim: Limits)
    requires Square(m) && InRange(bin, |m|) && 0 <= c < |m|
  {
    |bin| != lim.maxColumns && PairSum(m, bin + [c]) < lim.maxConflictScore
  }

  /** The first bin at index `from` or later that admits c, or |bins| when none does. */
  function FirstAdmitting(m: seq<seq<real>>, bins: seq<seq<int>>, c: int, lim: Limits, from: nat): (k: nat)
    requires Square(m) && BinsInRange(bins, |m|) && 0 <= c < |m|
    requires from <= |bins|
    ensures from <= k <= |bins|
    ensures k < |bins| ==> Admits(m, bins[k], c, lim)
    ensures forall j :: from <= j < k ==> !Admits(m, bins[j], c, lim)
    decreases |bins| - from
  {
    if from == |bins| then from
    else if Admits(m, bins[from], c, lim) then from
    else FirstAdmitting(m, bins, c, lim, from + 1)
  }

  /**
   * One step of first fit: column c joins the earliest bin that admits it;
   * a new bin holding only c is opened exactly when no bin admits it.
   */
  function Place(m: seq<seq<real>>, bins: seq<seq<int>>, c: int, lim: Limits): (r: seq<seq<int>>)
    requires Square(m) && BinsInRange(bins, |m|) && 0 <= c < |m|
    ensures BinsInRange(r, |m|)
    ensures |r| == |bins| || |r| == |bins| + 1
    ensures |r| == |bins| + 1 <==> forall j :: 0 <= j < |bins| ==> !Admits(m, bins[j], c, lim)
    ensures |r| == |bins| + 1 ==> r == bins + [[c]]
    ensures forall k ::
              (0 <= k < |bins| && Admits(m, bins[k], c, lim) &&
               (forall j :: 0 <= j < k ==> !Admits(m, bins[j], c, lim)))
              ==> r == bins[k := bins[k] + [c]]
  {
    var k := FirstAdmitting(m, bins, c, lim, 0);
    if k < |bins| then bins[k := bins[k] + [c]] else bins + [[c]]
  }

  /** The bins `first_fit` builds from the columns of `order`, placed one by one. */
  function Pack(m: seq<seq<real>>, order: seq<int>, lim: Limits): (bins: seq<seq<int>>)
    requires Square(m) && InRange(order, |m|)
    ensures BinsInRange(bins, |m|)
  {
    if |order| == 0 then []
    else Place(m, Pack(m, order[..|order| - 1], lim), order[|order| - 1], lim)
  }

  /** Packing one more column of `order` is one more Place. */
  lemma PackStep(m: seq<seq<real>>, order: seq<int>, i: nat, lim: Limits)
    requires Square(m) && InRange(order, |m|) && i < |order|
    ensures Pack(m, order[..i + 1], lim) == Place(m, Pack(m, order[..i], lim), order[i], lim)
  {
    assert order[..i + 1][..i] == order[..i];
  }

  /** The last step of Pack: the last column joins bin FirstAdmitting, or opens a new bin. */
  lemma PackLast(m: seq<seq<real>>, order: seq<int>, lim: Limits)
    requires Square(m) && InRange(order, |m|) && |order| > 0
    ensures var before := Pack(m, order[..|order| - 1], lim);
      var c := order[|order| - 1];
      var k0 := FirstAdmitting(m, before, c, lim, 0);
      && (k0 < |before| ==> Admits(m, before[k0], c, lim) && Pack(m, order, lim) == before[k0 := before[k0] + [c]])
      && (k0 == |before| ==> Pack(m, order, lim) == before + [[c]])
  {
  }

  /** For each position of `order`, the index of the bin its column was placed in. */
  function Owners(m: seq<seq<real>>, order: seq<int>, lim: Limits): (o: seq<nat>)
    requires Square(m) && InRange(order, |m|)
    ensures |o| == |order|
    ensures forall i :: 0 <= i < |o| ==> o[i] < |Pack(m, order, lim)|
  {
    if |order| == 0 then []
    else
      var prefix := order[..|order| - 1];
      var o := Owners(m, prefix, lim) + [FirstAdmitting(m, Pack(m, prefix, lim), order[|order| - 1], lim, 0)];
      o
  }

  /** The columns of `order` whose owner is bin k, in `order`'s order. */
  function Members(order: seq<int>, owners: seq<nat>, k: nat): seq<int>
    requires |order| == |owners|
  {
    if |order| == 0 then []
    else
      Members(order[..|order| - 1], owners[..|owners| - 1], k)
        + (if owners[|owners| - 1] == k then [order[|order| - 1]] else [])
  }

  /** A bin nobody was assigned to has no members. */
  lemma {:induction false} MembersOfUnused(order: seq<int>, owners: seq<nat>, k: nat)
    requires |order| == |owners|
    requires forall i :: 0 <= i < |owners| ==> owners[i] != k
    ensures Members(order, owners, k) == []
  {
    if |order| > 0 {
      MembersOfUnused(order[..|order| - 1], owners[..|owners| - 1], k);
    }
  }

  /**
   * The bins partition `order`: position i is placed in exactly one bin,
   * Owners[i], and each bin lists its columns in `order`'s order.
   */
  lemma {:induction false} PackPartition(m: seq<seq<real>>, order: seq<int>, lim: Limits)
    requires Square(m) && InRange(order, |m|)
    ensures var bins, o := Pack(m, order, lim), Owners(m, order, lim);
      forall k :: 0 <= k < |bins| ==> bins[k] == Members(order, o, k)
  {
    if |order| > 0 {
      var n := |order|;
      var prefix, c := order[..n - 1], order[n - 1];
      var before := Pack(m, prefix, lim);
      var bins, o := Pack(m, order, lim), Owners(m, order, lim);
      PackPartition(m, prefix, lim);
      var k0 := FirstAdmitting(m, before, c, lim, 0);
      assert o[..n - 1] == Owners(m, prefix, lim);
      assert o[n - 1] == k0;
      forall k | 0 <= k < |bins| ensures bins[k] == Members(order, o, k) {
        if k == |before| {
          MembersOfUnused(prefix, Owners(m, prefix, lim), k);
        }
      }
    }
  }

  /** No bin is empty. */
  lemma {:induction false} PackBinsNonEmpty(m: seq<seq<real>>, order: seq<int>, lim: Limits)
    requires Square(m) && InRange(order, |m|)
    ensures var bins := Pack(m, order, lim);
      forall k :: 0 <= k < |bins| ==> |bins[k]| >= 1
  {
    if |order| > 0 {
      PackLast(m, order, lim);
      PackBinsNonEmpty(m, order[..|order| - 1], lim);
    }
  }

  /**
   * With a limit of at least one column, no bin grows beyond the limit:
   * a bin at the limit is skipped and a new bin starts with one column.
   */
  lemma {:induction false} PackBinsBounded(m: seq<seq<real>>, order: seq<int>, lim: Limits)
    requires Square(m) && InRange(order, |m|)
    requires lim.maxColumns >= 1
    ensures var bins := Pack(m, order, lim);
      forall k :: 0 <= k < |bins| ==> |bins[k]| <= lim.maxColumns
  {
    if |order| > 0 {
      PackLast(m, order, lim);
      PackBinsBounded(m, order[..|order| - 1], lim);
    }
  }

  /** Every bin of two or more columns scores strictly below the threshold. */
  lemma {:induction false} PackBinsBelowThreshold(m: seq<seq<real>>, order: seq<int>, lim: Limits)
    requires Square(m) && InRange(order, |m|)
    ensures var bins := Pack(m, order, lim);
      forall k :: 0 <= k < |bins| && |bins[k]| >= 2 ==> PairSum(m, bins[k]) < lim.maxConflictScore
  {
    if |order| > 0 {
      PackLast(m, order, lim);
      PackBinsBelowThreshold(m, order[..|order| - 1], lim);
    }
  }

  /**
   * The body of `first_fit`'s outer loop: scan the bins in order, skip full
   * ones, and put the column into the first whose conflict score stays below
   * the threshold; open a new bin if the scan finds none.
   */
  method PlaceColumn(m: seq<seq<real>>, bins: seq<seq<int>>, column: int, maxConflictScore: real, maxColumns: int)
    returns (r: seq<seq<int>>)
    requires Square(m) && BinsInRange(bins, |m|) && 0 <= column < |m|
    ensures r == Place(m, bins, column, Limits(maxConflictScore, maxColumns))
  {
    var lim := Limits(maxConflictScore, maxColumns);
    var j := 0;
    while j < |bins|
      invariant 0 <= j <= |bins|
      invariant forall l :: 0 <= l < j ==> !Admits(m, bins[l], column, lim)
    {
      if |bins[j]| == maxColumns {
        j := j + 1;
        continue;
      }
      var score := ConflictScore(m, bins[j] + [column]);
      if score < maxConflictScore {
        assert Admits(m, bins[j], column, lim);
        return bins[j := bins[j] + [column]];
      }
      j := j + 1;
    }
    r := bins + [[column]];
  }

  /**
   * `first_fit`: every column in `sizeIdxs` order goes to the first bin that
   * admits it (the inner loop with `continue` and `break`), or to a new bin
   * (the loop's `else`).
   */
  method FirstFit(m: seq<seq<real>>, sizeIdxs: seq<int>, maxConflictScore: real := 0.01, maxColumns: int := 8)
    returns (bins: seq<seq<int>>)
    requires Square(m) && InRange(sizeIdxs, |m|)
    ensures bins == Pack(m, sizeIdxs, Limits(maxConflictScore, maxColumns))
    ensures var o := Owners(m, sizeIdxs, Limits(maxConflictScore, maxColumns));
      forall k :: 0 <= k < |bins| ==> bins[k] == Members(sizeIdxs, o, k)
    ensures forall k :: 0 <= k < |bins| ==> |bins[k]| >= 1
    ensures maxColumns >= 1 ==> forall k :: 0 <= k < |bins| ==> |bins[k]| <= maxColumns
    ensures forall k :: 0 <= k < |bins| && |bins[k]| >= 2 ==> PairSum(m, bins[k]) < maxConflictScore
  {
    var lim := Limits(maxConflictScore, maxColumns);
    bins := [];
    var i := 0;
    while i < |sizeIdxs|
      invariant 0 <= i <= |sizeIdxs|
      invariant bins == Pack(m, sizeIdxs[..i], lim)
    {
      bins := PlaceColumn(m, bins, sizeIdxs[i], maxConflictScore, maxColumns);
      PackStep(m, sizeIdxs, i, lim);
      i := i + 1;
    }
    assert sizeIdxs[..i] == sizeIdxs;
    PackPartition(m, sizeIdxs, lim);
    PackBinsNonEmpty(m, sizeIdxs, lim);
    if maxColumns >= 1 {
      PackBinsBounded(m, sizeIdxs, lim);
    }
    PackBinsBelowThreshold(m, sizeIdxs, lim);
  }
}
