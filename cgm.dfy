/**
 * The CPU path of the CGM ("group max") operator of cgm.py.
 *
 * A (B, C, W, H) tensor is stored row-major as B*C*W*H reals. Its
 * `permute(2, 3, 0, 1)` is the (W, H, B, C) tensor, which is the transpose
 * of the same storage read as a (B*C) x (W*H) matrix (lemma
 * PermuteIsTranspose). Forward copies the input into that order, views it
 * as rows of `groupSize` entries, zeroes every entry that differs from its
 * row's maximum, and copies the result back into (B, C, W, H) order.
 * Backward zeroes the incoming gradient wherever the saved input is negative.
 */
module Cgm {
  import opened Wrappers
  import opened Arith

  /** Row-major index of entry (i, j) of a rows x cols matrix. */
  function Flat(i: nat, j: nat, rows: nat, cols: nat): (k: nat)
    requires i < rows && j < cols
    ensures k < rows * cols
  {
    FlatBound(i, j, rows, cols);
    i * cols + j
  }

  lemma FlatBound(i: nat, j: nat, rows: nat, cols: nat)
    requires i < rows && j < cols
    ensures i * cols + j < rows * cols
  {
    MulMono(i + 1, rows, cols, cols);
    assert (i + 1) * cols == i * cols + cols;
  }

  /** Row and column are recovered from a row-major index by division and remainder. */
  lemma FlatDivMod(i: nat, j: nat, cols: nat)
    requires j < cols
    ensures (i * cols + j) / cols == i && (i * cols + j) % cols == j
  {
    var k := i * cols + j;
    var q, r := k / cols, k % cols;
    assert (i - q) * cols == r - j;
    if i > q {
      MulMono(1, i - q, cols, cols);
      assert false;
    }
    if i < q {
      MulMono(1, q - i, cols, cols);
      assert false;
    }
  }

  /** Every index below rows * cols has a row below rows and a column below cols. */
  lemma DivBound(k: nat, rows: nat, cols: nat)
    requires k < rows * cols
    ensures cols > 0 && k / cols < rows && k % cols < cols
    ensures k == Flat(k / cols, k % cols, rows, cols)
  {
    if cols == 0 {
      assert false;
    }
    var q := k / cols;
    if q >= rows {
      MulMono(rows, q, cols, cols);
      assert false;
    }
  }

  /** The transpose of a rows x cols matrix stored row-major, itself stored row-major. */
  function Transposed(s: seq<real>, rows: nat, cols: nat): (t: seq<real>)
    requires |s| == rows * cols
    ensures |t| == |s|
    ensures forall i, j :: 0 <= i < rows && 0 <= j < cols ==>
              t[Flat(j, i, cols, rows)] == s[Flat(i, j, rows, cols)]
  {
    var t := seq(rows * cols, k requires 0 <= k < rows * cols =>
                   DivBound(k, cols, rows); s[Flat(k % rows, k / rows, rows, cols)]);
    forall i, j | 0 <= i < rows && 0 <= j < cols
      ensures t[Flat(j, i, cols, rows)] == s[Flat(i, j, rows, cols)]
    {
      FlatDivMod(j, i, rows);
    }
    t
  }

  /** Transposing back restores position k. */
  lemma TransposeTwiceAt(s: seq<real>, rows: nat, cols: nat, k: nat)
    requires |s| == rows * cols && k < |s|
    ensures Transposed(Transposed(s, rows, cols), cols, rows)[k] == s[k]
  {
    var t1 := Transposed(s, rows, cols);
    DivBound(k, rows, cols);
    var i, j := k / cols, k % cols;
    assert t1[Flat(j, i, cols, rows)] == s[Flat(i, j, rows, cols)];
  }

  /** Transposing back restores every position. */
  lemma TransposeTwice(s: seq<real>, rows: nat, cols: nat)
    requires |s| == rows * cols
    ensures Transposed(Transposed(s, rows, cols), cols, rows) == s
  {
    var t := Transposed(Transposed(s, rows, cols), cols, rows);
    forall k | 0 <= k < |s| ensures t[k] == s[k] {
      TransposeTwiceAt(s, rows, cols, k);
    }
  }

  /** The dimensions (B, C, W, H) of the input tensor. */
  datatype Shape = Shape(b: nat, c: nat, w: nat, h: nat)
  {
    /** B * C: one row per (batch, channel) pair. */
    function Rows(): nat { b * c }
    /** W * H: one column per pixel. */
    function Cols(): nat { w * h }
    /** The number of elements. */
    function Size(): nat { Rows() * Cols() }
  }

  /**
   * `permute(2, 3, 0, 1)` of a row-major (B, C, W, H) tensor is the
   * transpose of its (B*C) x (W*H) matrix: element (b, c, w, h) sits at row
   * b*C + c, column w*H + h of the input, and at the mirrored place of the
   * row-major (W, H, B, C) tensor.
   */
  lemma PermuteIsTranspose(sh: Shape, b: nat, c: nat, w: nat, h: nat)
    requires b < sh.b && c < sh.c && w < sh.w && h < sh.h
    ensures sh.b * sh.c * sh.w * sh.h == sh.Size()
    ensures ((b * sh.c + c) * sh.w + w) * sh.h + h
            == Flat(Flat(b, c, sh.b, sh.c), Flat(w, h, sh.w, sh.h), sh.Rows(), sh.Cols())
    ensures ((w * sh.h + h) * sh.b + b) * sh.c + c
            == Flat(Flat(w, h, sh.w, sh.h), Flat(b, c, sh.b, sh.c), sh.Cols(), sh.Rows())
  {
    var r, q := b * sh.c + c, w * sh.h + h;
    assert (r * sh.w + w) * sh.h + h == r * (sh.w * sh.h) + q;
    assert (q * sh.b + b) * sh.c + c == q * (sh.b * sh.c) + r;
  }

  /** The largest entry of a non-empty vector. */
  function Max(s: seq<real>): (mx: real)
    requires |s| > 0
    ensures mx in s
    ensures forall i :: 0 <= i < |s| ==> s[i] <= mx
  {
    if |s| == 1 then s[0]
    else
      var m := Max(s[..|s| - 1]);
      if s[|s| - 1] > m then s[|s| - 1] else m
  }

  /** `x.max(dim=1)` of the (-1, g) view: the maximum of entries grp*g .. grp*g + g - 1. */
  function GroupMax(s: seq<real>, g: nat, grp: nat): real
    requires g > 0 && |s| % g == 0 && grp < |s| / g
  {
    FlatBound(grp, g - 1, |s| / g, g);
    Max(s[grp * g..grp * g + g])
  }

  /** The row of the (-1, g) view that holds entry f: f / g. */
  function GroupOf(f: nat, n: nat, g: nat): (grp: nat)
    requires g > 0 && n % g == 0 && f < n
    ensures grp < n / g
  {
    DivBound(f, n / g, g);
    f / g
  }

  /** The mask on the rows of g entries: entries unequal to their group's maximum become 0. */
  function Masked(s: seq<real>, g: nat): (t: seq<real>)
    requires g > 0 && |s| % g == 0
    ensures |t| == |s|
  {
    seq(|s|, f requires 0 <= f < |s| =>
          if s[f] == GroupMax(s, g, GroupOf(f, |s|, g)) then s[f] else 0.0)
  }

  /** The value `cgm.forward` returns on the CPU, in (B, C, W, H) order. */
  function ForwardOutput(x: seq<real>, sh: Shape, g: nat): (y: seq<real>)
    requires |x| == sh.Size() && g > 0 && |x| % g == 0
    ensures |y| == |x|
  {
    Transposed(Masked(Transposed(x, sh.Rows(), sh.Cols()), g), sh.Cols(), sh.Rows())
  }

  /**
   * Element (r, q) of the output, with r = b*C + c and q = w*H + h, is the
   * input element at the same place if that element equals the maximum of
   * its group in (W, H, B, C) order, and 0 otherwise.
   */
  lemma ForwardAt(x: seq<real>, sh: Shape, g: nat, r: nat, q: nat)
    requires |x| == sh.Size() && g > 0 && |x| % g == 0
    requires r < sh.Rows() && q < sh.Cols()
    ensures var p := Transposed(x, sh.Rows(), sh.Cols());
      var grp := GroupOf(Flat(q, r, sh.Cols(), sh.Rows()), |x|, g);
      ForwardOutput(x, sh, g)[Flat(r, q, sh.Rows(), sh.Cols())]
        == if x[Flat(r, q, sh.Rows(), sh.Cols())] == GroupMax(p, g, grp)
           then x[Flat(r, q, sh.Rows(), sh.Cols())] else 0.0
  {
  }

  /** Every output element is either the input element at the same place or 0. */
  lemma ForwardKeepsOrZeroes(x: seq<real>, sh: Shape, g: nat)
    requires |x| == sh.Size() && g > 0 && |x| % g == 0
    ensures var y := ForwardOutput(x, sh, g);
      forall k :: 0 <= k < |y| ==> y[k] == x[k] || y[k] == 0.0
  {
    var y := ForwardOutput(x, sh, g);
    forall k | 0 <= k < |y| ensures y[k] == x[k] || y[k] == 0.0 {
      ForwardKeepsOrZeroesAt(x, sh, g, k);
    }
  }

  lemma ForwardKeepsOrZeroesAt(x: seq<real>, sh: Shape, g: nat, k: nat)
    requires |x| == sh.Size() && g > 0 && |x| % g == 0 && k < |x|
    ensures ForwardOutput(x, sh, g)[k] == x[k] || ForwardOutput(x, sh, g)[k] == 0.0
  {
    var rows, cols := sh.Rows(), sh.Cols();
    DivBound(k, rows, cols);
    var r, q := k / cols, k % cols;
    ForwardAt(x, sh, g, r, q);
  }

  /** Within a group, exactly the entries equal to the maximum survive; ties keep every maximal entry. */
  lemma MaskedKeepsExactlyMaxima(s: seq<real>, g: nat, f: nat)
    requires g > 0 && |s| % g == 0 && f < |s|
    ensures var grp := GroupOf(f, |s|, g);
      && (s[f] == GroupMax(s, g, grp) ==> Masked(s, g)[f] == s[f])
      && (s[f] != GroupMax(s, g, grp) ==> Masked(s, g)[f] == 0.0)
      && s[f] <= GroupMax(s, g, grp)
  {
    var grp := GroupOf(f, |s|, g);
    EntryInGroup(s, g, f);
    GroupMaxIsMaxOfSlice(s, g, grp);
    var lo := grp * g;
    assert s[lo..lo + g][f - lo] == s[f];
  }

  /** Entry f lies in the slice of its group. */
  lemma EntryInGroup(s: seq<real>, g: nat, f: nat)
    requires g > 0 && |s| % g == 0 && f < |s|
    ensures var grp := GroupOf(f, |s|, g);
      grp * g <= f < grp * g + g <= |s|
  {
    var rows := |s| / g;
    DivBound(f, rows, g);
    var grp := f / g;
    assert f == grp * g + f % g;
    FlatBound(grp, g - 1, rows, g);
  }

  /** Every group keeps at least one entry unchanged: one holding the group's maximum. */
  lemma MaskedKeepsGroupMax(s: seq<real>, g: nat, grp: nat)
    requires g > 0 && |s| % g == 0 && grp < |s| / g
    ensures exists j :: (0 <= j < g &&
      Masked(s, g)[Flat(grp, j, |s| / g, g)] == s[Flat(grp, j, |s| / g, g)] == GroupMax(s, g, grp))
  {
    var j := MaskedGroupHoldsMax(s, g, grp);
    assert Flat(grp, j, |s| / g, g) == grp * g + j;
  }

  /** A value in s that no entry of s exceeds is the maximum. */
  lemma MaxUnique(s: seq<real>, m: real)
    requires m in s && forall i :: 0 <= i < |s| ==> s[i] <= m
    ensures Max(s) == m
  {
    var i :| 0 <= i < |s| && s[i] == Max(s);
  }

  /** Entry j of group grp, after masking: kept if it equals the group's maximum, 0 otherwise. */
  lemma MaskedAt(s: seq<real>, g: nat, grp: nat, j: nat)
    requires g > 0 && |s| % g == 0 && grp < |s| / g && j < g
    ensures grp * g + j < |s|
    ensures var f := grp * g + j;
      Masked(s, g)[f] == (if s[f] == GroupMax(s, g, grp) then s[f] else 0.0)
      && s[f] <= GroupMax(s, g, grp)
  {
    var f := Flat(grp, j, |s| / g, g);
    FlatDivMod(grp, j, g);
    MaskedKeepsExactlyMaxima(s, g, f);
  }

  /** After masking, no entry of a group with a non-negative maximum exceeds that maximum. */
  lemma MaskedGroupDominated(s: seq<real>, g: nat, grp: nat)
    requires g > 0 && |s| % g == 0 && grp < |s| / g
    requires GroupMax(s, g, grp) >= 0.0
    ensures grp * g + g <= |s|
    ensures forall i :: grp * g <= i < grp * g + g ==> Masked(s, g)[i] <= GroupMax(s, g, grp)
  {
    GroupMaxIsMaxOfSlice(s, g, grp);
    var lo, m := grp * g, GroupMax(s, g, grp);
    forall i | lo <= i < lo + g ensures Masked(s, g)[i] <= m {
      MaskedAt(s, g, grp, i - lo);
      assert grp * g + (i - lo) == i;
      assert s[i] <= m;
    }
  }

  /** After masking, a group still holds its maximum. */
  lemma MaskedGroupHoldsMax(s: seq<real>, g: nat, grp: nat) returns (j: nat)
    requires g > 0 && |s| % g == 0 && grp < |s| / g
    ensures j < g && grp * g + j < |s|
    ensures Masked(s, g)[grp * g + j] == s[grp * g + j] == GroupMax(s, g, grp)
  {
    GroupMaxIsMaxOfSlice(s, g, grp);
    var lo := grp * g;
    j :| 0 <= j < g && s[lo..lo + g][j] == GroupMax(s, g, grp);
    assert s[lo + j] == s[lo..lo + g][j];
    MaskedAt(s, g, grp, j);
  }

  /** Masking a group whose maximum is non-negative leaves that maximum unchanged. */
  lemma MaskedGroupMax(s: seq<real>, g: nat, grp: nat)
    requires g > 0 && |s| % g == 0 && grp < |s| / g
    requires GroupMax(s, g, grp) >= 0.0
    ensures GroupMax(Masked(s, g), g, grp) == GroupMax(s, g, grp)
  {
    MaskedGroupDominated(s, g, grp);
    var j := MaskedGroupHoldsMax(s, g, grp);
    GroupMaxOfDominated(Masked(s, g), g, grp, GroupMax(s, g, grp), j);
  }

  /** A group containing m, none of whose entries exceeds m, has maximum m. */
  lemma GroupMaxOfDominated(t: seq<real>, g: nat, grp: nat, m: real, j: nat)
    requires g > 0 && |t| % g == 0 && grp < |t| / g
    requires j < g && grp * g + j < |t| && t[grp * g + j] == m
    requires grp * g + g <= |t|
    requires forall i :: grp * g <= i < grp * g + g ==> t[i] <= m
    ensures GroupMax(t, g, grp) == m
  {
    GroupMaxIsMaxOfSlice(t, g, grp);
    MaxOfDominatedSlice(t, grp * g, g, m, j);
  }

  /** A slice containing m, none of whose entries exceeds m, has maximum m. */
  lemma MaxOfDominatedSlice(t: seq<real>, lo: nat, g: nat, m: real, j: nat)
    requires lo + g <= |t| && j < g && t[lo + j] == m
    requires forall i :: lo <= i < lo + g ==> t[i] <= m
    ensures Max(t[lo..lo + g]) == m
  {
    var group := t[lo..lo + g];
    assert group[j] == m;
    MaxUnique(group, m);
  }

  lemma GroupMaxIsMaxOfSlice(s: seq<real>, g: nat, grp: nat)
    requires g > 0 && |s| % g == 0 && grp < |s| / g
    ensures grp * g + g <= |s|
    ensures GroupMax(s, g, grp) == Max(s[grp * g..grp * g + g])
  {
    FlatBound(grp, g - 1, |s| / g, g);
  }

  /** On non-negative entries the mask is a projection: applying it twice changes nothing more. */
  lemma MaskedIdempotent(s: seq<real>, g: nat)
    requires g > 0 && |s| % g == 0
    requires forall i :: 0 <= i < |s| ==> s[i] >= 0.0
    ensures Masked(Masked(s, g), g) == Masked(s, g)
  {
    var t := Masked(s, g);
    forall f | 0 <= f < |s| ensures Masked(t, g)[f] == t[f] {
      var grp := GroupOf(f, |s|, g);
      MaskedKeepsExactlyMaxima(s, g, f);
      assert GroupMax(s, g, grp) >= s[f] >= 0.0;
      MaskedGroupMax(s, g, grp);
    }
  }

  /** On a non-negative input, applying the forward operator twice equals applying it once. */
  lemma ForwardIdempotent(x: seq<real>, sh: Shape, g: nat)
    requires |x| == sh.Size() && g > 0 && |x| % g == 0
    requires forall i :: 0 <= i < |x| ==> x[i] >= 0.0
    ensures ForwardOutput(ForwardOutput(x, sh, g), sh, g) == ForwardOutput(x, sh, g)
  {
    var r, c := sh.Rows(), sh.Cols();
    var p := Transposed(x, r, c);
    forall f | 0 <= f < |p| ensures p[f] >= 0.0 {
      DivBound(f, c, r);
    }
    var mp := Masked(p, g);
    MaskedIdempotent(p, g);
    TransposeTwice(mp, c, r);
  }

  /** Extending a vector by x raises its maximum to x exactly when x exceeds it. */
  lemma MaxSnoc(s: seq<real>, x: real)
    requires |s| > 0
    ensures Max(s + [x]) == if x > Max(s) then x else Max(s)
  {
    assert (s + [x])[..|s|] == s;
  }

  /** The maximum of s[lo..hi], by a scan. */
  method RangeMax(a: array<real>, lo: nat, hi: nat) returns (mx: real)
    requires lo < hi <= a.Length
    ensures mx == Max(a[lo..hi])
    ensures forall i :: lo <= i < hi ==> a[i] <= mx
  {
    mx := a[lo];
    var i := lo + 1;
    while i < hi
      invariant lo < i <= hi
      invariant mx == Max(a[lo..i])
    {
      MaxSnoc(a[lo..i], a[i]);
      assert a[lo..i] + [a[i]] == a[lo..i + 1];
      if a[i] > mx {
        mx := a[i];
      }
      i := i + 1;
    }
    forall i | lo <= i < hi ensures a[i] <= mx {
      assert a[lo..hi][i - lo] == a[i];
    }
  }

  /** `x.max(dim=1)` of the (-1, g) view: one maximum per group. */
  method GroupMaxima(a: array<real>, g: nat) returns (maxes: array<real>)
    requires g > 0 && a.Length % g == 0
    ensures fresh(maxes)
    ensures maxes.Length == a.Length / g
    ensures forall j :: 0 <= j < maxes.Length ==> maxes[j] == GroupMax(a[..], g, j)
  {
    var groups := a.Length / g;
    maxes := new real[groups];
    var grp := 0;
    while grp < groups
      invariant 0 <= grp <= groups
      invariant forall j :: 0 <= j < grp ==> maxes[j] == GroupMax(a[..], g, j)
    {
      FlatBound(grp, g - 1, groups, g);
      maxes[grp] := RangeMax(a, grp * g, grp * g + g);
      assert a[grp * g..grp * g + g] == a[..][grp * g..grp * g + g];
      grp := grp + 1;
    }
  }

  /**
   * The masked assignment of the forward pass, in place: all group maxima
   * are taken first, then every entry unequal to its group's maximum is
   * overwritten with 0.
   */
  method MaskNonMax(a: array<real>, g: nat)
    requires g > 0 && a.Length % g == 0
    modifies a
    ensures a[..] == Masked(old(a[..]), g)
  {
    var maxes := GroupMaxima(a, g);
    ghost var s := a[..];
    var f := 0;
    while f < a.Length
      invariant 0 <= f <= a.Length
      invariant forall j :: 0 <= j < f ==> a[j] == Masked(s, g)[j]
      invariant forall j :: f <= j < a.Length ==> a[j] == s[j]
      invariant forall j :: 0 <= j < maxes.Length ==> maxes[j] == GroupMax(s, g, j)
    {
      var grp := GroupOf(f, a.Length, g);
      if a[f] != maxes[grp] {
        a[f] := 0.0;
      }
      assert a[f] == Masked(s, g)[f];
      f := f + 1;
    }
    assert a[..] == Masked(s, g);
  }

  /** `.contiguous()` after a permutation: a fresh row-major copy of the transpose. */
  method Transpose(src: array<real>, rows: nat, cols: nat) returns (dst: array<real>)
    requires src.Length == rows * cols
    ensures fresh(dst)
    ensures dst[..] == Transposed(src[..], rows, cols)
  {
    dst := new real[src.Length];
    var k := 0;
    while k < src.Length
      invariant 0 <= k <= src.Length
      invariant forall j :: 0 <= j < k ==> dst[j] == Transposed(src[..], rows, cols)[j]
    {
      DivBound(k, cols, rows);
      dst[k] := src[Flat(k % rows, k / rows, rows, cols)];
      k := k + 1;
    }
  }

  /**
   * `cgm.forward` on the CPU. The `view(-1, group_size)` fails unless the
   * group size is positive and divides the element count; that failure is
   * the result None.
   */
  method CgmForward(x: array<real>, sh: Shape, groupSize: int) returns (y: Option<array<real>>)
    requires x.Length == sh.Size()
    ensures y.None? <==> groupSize <= 0 || x.Length % groupSize != 0
    ensures y.Some? ==> fresh(y.value) && y.value[..] == ForwardOutput(x[..], sh, groupSize as nat)
  {
    if groupSize <= 0 || x.Length % groupSize != 0 {
      return None;
    }
    var buf := Transpose(x, sh.Rows(), sh.Cols());
    MaskNonMax(buf, groupSize as nat);
    var out := Transpose(buf, sh.Cols(), sh.Rows());
    y := Some(out);
  }

  /**
   * `cgm.backward` on the CPU: the incoming gradient is zeroed in place
   * wherever the saved input is negative; the gradient for `group_size`
   * is `None`.
   */
  method CgmBackward(gradOutput: array<real>, x: seq<real>) returns (gradGroupSize: Option<real>)
    requires gradOutput.Length == |x|
    modifies gradOutput
    ensures forall i :: 0 <= i < |x| ==>
              gradOutput[i] == if x[i] < 0.0 then 0.0 else old(gradOutput[i])
    ensures gradGroupSize == None
  {
    ghost var g := gradOutput[..];
    var i := 0;
    while i < gradOutput.Length
      invariant 0 <= i <= gradOutput.Length
      invariant forall j :: 0 <= j < i ==> gradOutput[j] == if x[j] < 0.0 then 0.0 else g[j]
      invariant forall j :: i <= j < gradOutput.Length ==> gradOutput[j] == g[j]
    {
      if x[i] < 0.0 {
        gradOutput[i] := 0.0;
      }
      i := i + 1;
    }
    gradGroupSize := None;
  }

  /** The `CGM` layer: stores its group size at construction and applies the operator with it. */
  class CGM {
    const groupSize: int

    constructor (groupSize: int)
      ensures this.groupSize == groupSize
    {
      this.groupSize := groupSize;
    }

    /** `CGM.forward`: the operator with the stored group size, which stays unchanged. */
    method Forward(x: array<real>, sh: Shape) returns (y: Option<array<real>>)
      requires x.Length == sh.Size()
      ensures y.None? <==> groupSize <= 0 || x.Length % groupSize != 0
      ensures y.Some? ==> fresh(y.value) && y.value[..] == ForwardOutput(x[..], sh, groupSize as nat)
    {
      y := CgmForward(x, sh, groupSize);
    }
  }
}
