/**
 * Run-length encoding of a one-dimensional array (`rle` in
 * evaluate_activation.py), built from the same vectorised steps as the
 * source: a mask of where neighbours differ (Unequal), the indices of
 * those break points followed by the last index (RunEnds), differences of
 * the run ends against -1 (Diff, giving Lengths), prefix sums of the
 * lengths (CumSum, giving Positions), and the input read at each run end
 * (Values). The lemmas below state what the three returned vectors mean.
 */
module RunLength {
  import opened Wrappers

  /** The triple (run lengths, start positions, run values). */
  datatype Encoding<T> = Encoding(lengths: seq<int>, positions: seq<int>, values: seq<T>)

  /** Sum of a vector of integers. */
  function Sum(a: seq<int>): int
  {
    if |a| == 0 then 0 else Sum(a[..|a| - 1]) + a[|a| - 1]
  }

  /** Neighbour inequality: entry j says whether elements j and j+1 differ. */
  function Unequal<T(==)>(s: seq<T>): (y: seq<bool>)
    requires |s| > 0
    ensures |y| == |s| - 1
    ensures forall j :: 0 <= j < |y| ==> (y[j] <==> s[j] != s[j + 1])
  {
    seq(|s| - 1, j requires 0 <= j < |s| - 1 => s[j] != s[j + 1])
  }

  /** `np.where` on a boolean vector: the indices holding true, in ascending order. */
  function Where(y: seq<bool>): (w: seq<int>)
    ensures forall k :: 0 <= k < |w| ==> 0 <= w[k] < |y| && y[w[k]]
    ensures forall j :: 0 <= j < |y| && y[j] ==> j in w
    ensures forall a, b :: 0 <= a < b < |w| ==> w[a] < w[b]
  {
    if |y| == 0 then []
    else Where(y[..|y| - 1]) + (if y[|y| - 1] then [|y| - 1] else [])
  }

  /** `np.diff`: differences of consecutive entries. */
  function Diff(a: seq<int>): (d: seq<int>)
    requires |a| > 0
    ensures |d| == |a| - 1
    ensures forall k :: 0 <= k < |d| ==> d[k] == a[k + 1] - a[k]
  {
    seq(|a| - 1, k requires 0 <= k < |a| - 1 => a[k + 1] - a[k])
  }

  /** `np.cumsum`: entry k is the sum of the first k+1 entries. */
  function CumSum(a: seq<int>): (c: seq<int>)
    ensures |c| == |a|
    ensures forall k :: 0 <= k < |c| ==> c[k] == Sum(a[..k + 1])
  {
    seq(|a|, k requires 0 <= k < |a| => Sum(a[..k + 1]))
  }

  /** Index of the last element of every run: the break points, then n - 1. */
  function RunEnds<T(==)>(s: seq<T>): seq<int>
    requires |s| > 0
  {
    Where(Unequal(s)) + [|s| - 1]
  }

  /** The run lengths, by `np.diff` of the run ends with -1 in front. */
  function Lengths<T(==)>(s: seq<T>): (z: seq<int>)
    requires |s| > 0
    ensures |z| == |RunEnds(s)|
    ensures forall k :: 0 <= k < |z| ==> z[k] >= 1
  {
    var z := Diff([-1] + RunEnds(s));
    forall k | 0 <= k < |z| ensures z[k] >= 1 {
      LengthAt(s, k);
      RunEndAt(s, k);
    }
    z
  }

  /** The run start positions, by `np.cumsum` of the lengths with 0 in front, last entry dropped. */
  function Positions<T(==)>(s: seq<T>): (p: seq<int>)
    requires |s| > 0
    ensures |p| == |Lengths(s)|
  {
    CumSum([0] + Lengths(s))[..|Lengths(s)|]
  }

  /** The value of each run, read at its last index. */
  function Values<T(==)>(s: seq<T>): (v: seq<T>)
    requires |s| > 0
    ensures |v| == |RunEnds(s)|
  {
    RunEndsFacts(s);
    seq(|RunEnds(s)|, k requires 0 <= k < |RunEnds(s)| => s[RunEnds(s)[k]])
  }

  /** The model of `rle(inarray)`; `None` stands for the source's `(None, None, None)`. */
  function Rle<T(==)>(s: seq<T>): (r: Option<Encoding<T>>)
    ensures r.None? <==> |s| == 0
    ensures r.Some? ==> |r.value.lengths| == |r.value.positions| == |r.value.values| > 0
    ensures r.Some? ==> forall k :: 0 <= k < |r.value.lengths| ==> r.value.lengths[k] >= 1
  {
    if |s| == 0 then None
    else
      Some(Encoding(Lengths(s), Positions(s), Values(s)))
  }

  /** First index of run k (0 for the first run, one past the previous end otherwise). */
  function Start(e: seq<int>, k: nat): int
    requires k <= |e|
  {
    if k == 0 then 0 else e[k - 1] + 1
  }

  /** The run ends are strictly increasing, end at n - 1, and mark exactly the places where neighbours differ. */
  lemma RunEndsFacts<T>(s: seq<T>)
    requires |s| > 0
    ensures var e := RunEnds(s);
      && |e| > 0 && e[|e| - 1] == |s| - 1
      && (forall k :: 0 <= k < |e| ==> 0 <= e[k] < |s|)
      && (forall a, b :: 0 <= a < b < |e| ==> e[a] < e[b])
      && (forall k :: 0 <= k < |e| - 1 ==> s[e[k]] != s[e[k] + 1])
      && (forall j :: 0 <= j < |s| - 1 && s[j] != s[j + 1] ==> j in e)
  {
    var w := Where(Unequal(s));
    var e := RunEnds(s);
    assert e == w + [|s| - 1];
    forall j | 0 <= j < |s| - 1 && s[j] != s[j + 1] ensures j in e {
      assert j in w;
    }
  }

  /** In a strictly increasing sequence, nothing strictly inside run k is an end. */
  lemma NotAnEnd(e: seq<int>, k: nat, x: int)
    requires forall a, b :: 0 <= a < b < |e| ==> e[a] < e[b]
    requires k < |e| && Start(e, k) <= x < e[k]
    ensures x !in e
  {
    forall m | 0 <= m < |e| ensures e[m] != x {
      if m >= k {
        assert m == k || e[k] < e[m];
      } else {
        assert m == k - 1 || e[m] < e[k - 1];
      }
    }
  }

  /** Run k starts no later than it ends, and ends inside the input. */
  lemma RunEndAt<T>(s: seq<T>, k: nat)
    requires |s| > 0 && k < |RunEnds(s)|
    ensures Start(RunEnds(s), k) <= RunEnds(s)[k] < |s|
  {
    RunEndsFacts(s);
    if k > 0 {
      assert RunEnds(s)[k - 1] < RunEnds(s)[k];
    }
  }

  /** The last run ends at the last element. */
  lemma RunEndsLast<T>(s: seq<T>)
    requires |s| > 0
    ensures |RunEnds(s)| > 0 && RunEnds(s)[|RunEnds(s)| - 1] == |s| - 1
  {
  }

  /** Every run but the last ends where the next element differs. */
  lemma RunBreak<T>(s: seq<T>, k: nat)
    requires |s| > 0 && k + 1 < |RunEnds(s)|
    ensures RunEnds(s)[k] + 1 < |s| && s[RunEnds(s)[k]] != s[RunEnds(s)[k] + 1]
  {
    RunEndsFacts(s);
  }

  /** Strictly inside a run, an element equals its successor. */
  lemma InsideRunNoBreak<T>(s: seq<T>, k: nat, x: int)
    requires |s| > 0 && k < |RunEnds(s)|
    requires Start(RunEnds(s), k) <= x < RunEnds(s)[k]
    ensures 0 <= x && x + 1 < |s| && s[x] == s[x + 1]
  {
    var e := RunEnds(s);
    RunEndsFacts(s);
    NotAnEnd(e, k, x);
  }

  /** Within run k every element equals the run's last element. */
  lemma {:induction false} RunConstant<T>(s: seq<T>, k: nat, x: int)
    requires |s| > 0
    requires k < |RunEnds(s)|
    requires Start(RunEnds(s), k) <= x <= RunEnds(s)[k]
    ensures s[x] == s[RunEnds(s)[k]]
    decreases RunEnds(s)[k] - x
  {
    var e := RunEnds(s);
    RunEndAt(s, k);
    if x < e[k] {
      RunConstant(s, k, x + 1);
      InsideRunNoBreak(s, k, x);
    }
  }

  /** The lengths vector is the run-end vector differenced against the previous end. */
  lemma LengthAt<T>(s: seq<T>, k: nat)
    requires |s| > 0
    requires k < |RunEnds(s)|
    ensures Diff([-1] + RunEnds(s))[k] == RunEnds(s)[k] + 1 - Start(RunEnds(s), k)
  {
    var e := RunEnds(s);
    assert ([-1] + e)[k + 1] == e[k];
    if k > 0 {
      assert ([-1] + e)[k] == e[k - 1];
    }
  }

  /** The decoder: `values[k]` repeated `lengths[k]` times, for k in order (numpy's `repeat`). */
  function Expand<T>(lengths: seq<int>, values: seq<T>): (s: seq<T>)
    requires |lengths| == |values|
    requires forall k :: 0 <= k < |lengths| ==> lengths[k] >= 0
  {
    if |lengths| == 0 then []
    else seq(lengths[0], _ => values[0]) + Expand(lengths[1..], values[1..])
  }

  /** Run k, decoded, is the slice of the input it covers. */
  lemma RunIsRepeat<T>(s: seq<T>, k: nat)
    requires |s| > 0
    requires k < |RunEnds(s)|
    ensures seq(Lengths(s)[k], _ => Values(s)[k]) == s[Start(RunEnds(s), k)..RunEnds(s)[k] + 1]
  {
    var e := RunEnds(s);
    RunEndAt(s, k);
    LengthAt(s, k);
    forall x | Start(e, k) <= x <= e[k] ensures s[x] == Values(s)[k] {
      RunConstant(s, k, x);
    }
  }

  /** Decoding the runs from k on gives back the input from the start of run k on. */
  lemma {:induction false} ExpandSuffix<T>(s: seq<T>, k: nat)
    requires |s| > 0
    requires k <= |RunEnds(s)|
    ensures Expand(Lengths(s)[k..], Values(s)[k..]) == s[Start(RunEnds(s), k)..]
    decreases |RunEnds(s)| - k
  {
    var e := RunEnds(s);
    var z, v := Lengths(s), Values(s);
    if k == |e| {
      RunEndsLast(s);
      assert Start(e, k) == |s|;
    } else {
      RunEndAt(s, k);
      ExpandSuffix(s, k + 1);
      RunIsRepeat(s, k);
      var lo, hi := Start(e, k), e[k] + 1;
      assert z[k..][1..] == z[k + 1..];
      assert v[k..][1..] == v[k + 1..];
      assert Start(e, k + 1) == hi;
      assert s[lo..] == s[lo..hi] + s[hi..];
    }
  }

  /** Round trip: expanding the returned runs reconstructs the input. */
  lemma RleRoundTrip<T>(s: seq<T>)
    requires |s| > 0
    ensures Expand(Rle(s).value.lengths, Rle(s).value.values) == s
  {
    ExpandSuffix(s, 0);
    var z, v := Lengths(s), Values(s);
    assert z[0..] == z && v[0..] == v;
  }

  /** The returned runs are maximal: adjacent run values differ. */
  lemma RleAdjacentValuesDiffer<T>(s: seq<T>)
    requires |s| > 0
    ensures var v := Rle(s).value.values;
      forall k :: 0 <= k < |v| - 1 ==> v[k] != v[k + 1]
  {
    var v := Values(s);
    forall k | 0 <= k < |v| - 1 ensures v[k] != v[k + 1] {
      AdjacentRunsDiffer(s, k);
    }
  }

  /** Run k ends on a value different from the one run k + 1 holds. */
  lemma AdjacentRunsDiffer<T>(s: seq<T>, k: nat)
    requires |s| > 0 && k + 1 < |RunEnds(s)|
    ensures Values(s)[k] != Values(s)[k + 1]
  {
    var e := RunEnds(s);
    RunBreak(s, k);
    RunEndAt(s, k + 1);
    RunConstant(s, k + 1, e[k] + 1);
  }

  /** The sum of the first k run lengths is the start of run k. */
  lemma PrefixSumIsStart<T>(s: seq<T>, k: nat)
    requires |s| > 0
    requires k <= |RunEnds(s)|
    ensures Sum(Lengths(s)[..k]) == Start(RunEnds(s), k)
  {
    var z, e := Lengths(s), RunEnds(s);
    forall i | 0 <= i < k ensures z[i] == Start(e, i + 1) - Start(e, i) {
      LengthIs(s, i);
    }
    Telescope(z, e, k);
  }

  /** Summing successive differences of starts gives the k-th start. */
  lemma {:induction false} Telescope(z: seq<int>, e: seq<int>, k: nat)
    requires k <= |z| && k <= |e|
    requires forall i :: 0 <= i < k ==> z[i] == Start(e, i + 1) - Start(e, i)
    ensures Sum(z[..k]) == Start(e, k)
  {
    if k > 0 {
      Telescope(z, e, k - 1);
      assert z[..k][..k - 1] == z[..k - 1];
    }
  }

  /** Run k is as long as the distance from its start to the next run's start. */
  lemma LengthIs<T>(s: seq<T>, k: nat)
    requires |s| > 0
    requires k < |RunEnds(s)|
    ensures Lengths(s)[k] == Start(RunEnds(s), k + 1) - Start(RunEnds(s), k)
  {
    LengthAt(s, k);
  }

  /** Prepending x adds x to the sum. */
  lemma {:induction false} SumCons(x: int, a: seq<int>)
    ensures Sum([x] + a) == x + Sum(a)
  {
    if |a| > 0 {
      SumCons(x, a[..|a| - 1]);
      assert ([x] + a)[..|a|] == [x] + a[..|a| - 1];
    }
  }

  /** Each position is the sum of the lengths of the runs before it. */
  lemma PositionIsPrefixSum<T>(s: seq<T>, k: nat)
    requires |s| > 0
    requires k < |Lengths(s)|
    ensures Positions(s)[k] == Sum(Lengths(s)[..k])
  {
    var z := Lengths(s);
    assert ([0] + z)[..k + 1] == [0] + z[..k];
    SumCons(0, z[..k]);
  }

  /** Run lengths sum to n; positions start at 0 and each is the previous position plus the previous length. */
  lemma RleLengthsAndPositions<T>(s: seq<T>)
    requires |s| > 0
    ensures var enc := Rle(s).value;
      && Sum(enc.lengths) == |s|
      && enc.positions[0] == 0
      && (forall k :: 0 <= k < |enc.positions| - 1 ==>
            enc.positions[k + 1] == enc.positions[k] + enc.lengths[k])
  {
    var e := RunEnds(s);
    var z, p := Lengths(s), Positions(s);
    RunEndsLast(s);
    PrefixSumIsStart(s, |e|);
    assert z[..|e|] == z;
    PositionIsPrefixSum(s, 0);
    forall k | 0 <= k < |p| - 1 ensures p[k + 1] == p[k] + z[k] {
      PositionStep(s, k);
    }
  }

  /** The next run starts where this one starts plus its length. */
  lemma PositionStep<T>(s: seq<T>, k: nat)
    requires |s| > 0 && k + 1 < |Lengths(s)|
    ensures |Positions(s)| == |Lengths(s)|
    ensures Positions(s)[k + 1] == Positions(s)[k] + Lengths(s)[k]
  {
    PositionIsPrefixSum(s, k);
    PositionIsPrefixSum(s, k + 1);
    PrefixSumIsStart(s, k);
    PrefixSumIsStart(s, k + 1);
    LengthIs(s, k);
  }
}
