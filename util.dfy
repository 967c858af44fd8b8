/**
 * `AverageMeter` of util.py: a running weighted sum, count and average of
 * reported values. Values are reals; float rounding is not modelled.
 */
module Util {

  /** One call `update(val, n)`. */
  datatype Report = Report(val: real, n: int)

  /** The sum of val * n over a sequence of updates. */
  function WeightedSum(us: seq<Report>): real
  {
    if |us| == 0 then 0.0
    else WeightedSum(us[..|us| - 1]) + us[|us| - 1].val * (us[|us| - 1].n as real)
  }

  /** The sum of n over a sequence of updates. */
  function TotalCount(us: seq<Report>): int
  {
    if |us| == 0 then 0 else TotalCount(us[..|us| - 1]) + us[|us| - 1].n
  }

  /** When every update reports the same value v, the weighted sum is v times the count. */
  lemma {:induction false} WeightedSumOfConstant(us: seq<Report>, v: real)
    requires forall i :: 0 <= i < |us| ==> us[i].val == v
    ensures WeightedSum(us) == v * (TotalCount(us) as real)
  {
    if |us| > 0 {
      WeightedSumOfConstant(us[..|us| - 1], v);
    }
  }

  /** With non-negative weights and values in [lo, hi], the weighted sum lies between lo and hi times the count. */
  lemma {:induction false} WeightedSumBounds(us: seq<Report>, lo: real, hi: real)
    requires forall i :: 0 <= i < |us| ==> us[i].n >= 0 && lo <= us[i].val <= hi
    ensures lo * (TotalCount(us) as real) <= WeightedSum(us) <= hi * (TotalCount(us) as real)
    ensures TotalCount(us) >= 0
  {
    if |us| > 0 {
      var last := us[|us| - 1];
      WeightedSumBounds(us[..|us| - 1], lo, hi);
      var n := last.n as real;
      assert lo * n <= last.val * n <= hi * n by {
        assert (last.val - lo) * n >= 0.0;
        assert (hi - last.val) * n >= 0.0;
      }
    }
  }

  /** With non-negative weights and a positive count, the average lies between the smallest and largest value. */
  lemma AverageBounds(us: seq<Report>, lo: real, hi: real)
    requires forall i :: 0 <= i < |us| ==> us[i].n >= 0 && lo <= us[i].val <= hi
    requires TotalCount(us) > 0
    ensures lo <= WeightedSum(us) / (TotalCount(us) as real) <= hi
  {
    WeightedSumBounds(us, lo, hi);
    QuotientBounds(WeightedSum(us), TotalCount(us) as real, lo, hi);
  }

  /** Dividing by a positive c keeps lo * c <= s <= hi * c between lo and hi. */
  lemma QuotientBounds(s: real, c: real, lo: real, hi: real)
    requires c > 0.0 && lo * c <= s <= hi * c
    ensures lo <= s / c <= hi
  {
    var a := s / c;
    assert a * c == s;
    if a < lo {
      assert false;
    }
    if a > hi {
      assert false;
    }
  }

  /** Computes and stores the average and the current value. */
  class AverageMeter {
    var val: real
    var avg: real
    var sum: real
    var count: int
    /** The updates since the last reset. */
    ghost var updates: seq<Report>

    /** sum and count are the totals of the updates since the last reset; avg is sum / count whenever count is not 0. */
    ghost predicate Valid()
      reads this
    {
      && sum == WeightedSum(updates)
      && count == TotalCount(updates)
      && (updates == [] ==> val == 0.0 && avg == 0.0)
      && (updates != [] ==> val == updates[|updates| - 1].val)
      && (count != 0 ==> avg == sum / (count as real))
    }

    /** `__init__` calls `reset`. */
    constructor ()
      ensures Valid()
      ensures val == 0.0 && avg == 0.0 && sum == 0.0 && count == 0 && updates == []
    {
      val, avg, sum, count := 0.0, 0.0, 0.0, 0;
      updates := [];
    }

    /** `reset`: every statistic back to 0. */
    method Reset()
      modifies this
      ensures Valid()
      ensures val == 0.0 && avg == 0.0 && sum == 0.0 && count == 0 && updates == []
    {
      val := 0.0;
      avg := 0.0;
      sum := 0.0;
      count := 0;
      updates := [];
    }

    /**
     * `update(val, n=1)`. When the new count is 0 the source raises
     * ZeroDivisionError after val, sum and count have already changed; the
     * model returns ok == false in that case and leaves avg as it was.
     */
    method Update(v: real, n: int := 1) returns (ok: bool)
      requires Valid()
      modifies this
      ensures Valid()
      ensures val == v
      ensures sum == old(sum) + v * (n as real)
      ensures count == old(count) + n
      ensures updates == old(updates) + [Report(v, n)]
      ensures ok <==> count != 0
      ensures ok ==> avg == sum / (count as real)
      ensures !ok ==> avg == old(avg)
    {
      val := v;
      sum := sum + v * (n as real);
      count := count + n;
      updates := updates + [Report(v, n)];
      assert updates[..|updates| - 1] == old(updates);
      ok := count != 0;
      if ok {
        avg := sum / (count as real);
      }
    }
  }
}
