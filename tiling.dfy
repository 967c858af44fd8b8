/**
 * The tile count of one convolution layer on a square systolic array of
 * side `sa` (the expression inside `test_packing` in
 * evaluate_activation.py): the smaller of the data matrix and the weight
 * matrix, by area, is the one cut into sa x sa tiles.
 */
module Tiling {
  import opened Arith

  /** `math.ceil(a / b)` for a non-negative a and a positive b (float rounding is not modelled). */
  function CeilDiv(a: nat, b: nat): (q: nat)
    requires b > 0
    ensures q * b >= a
    ensures q == 0 || (q - 1) * b < a
  {
    var q := (a + b - 1) / b;
    var r := (a + b - 1) % b;
    assert a + b - 1 == q * b + r;
    assert q * b - b == (q - 1) * b;
    q
  }

  /** CeilDiv is the least number of b-wide tiles that covers a. */
  lemma CeilDivLeast(a: nat, b: nat, t: nat)
    requires b > 0 && t * b >= a
    ensures CeilDiv(a, b) <= t
  {
    var q := CeilDiv(a, b);
    if q > t {
      MulMono(t, q - 1, b, b);
      assert false;
    }
  }

  /**
   * Tiles needed to cover a w x h matrix with sa x sa tiles: a grid of
   * CeilDiv(w, sa) by CeilDiv(h, sa) tiles, whose sides reach w and h.
   */
  function Tiles(w: nat, h: nat, sa: nat): (r: nat)
    requires sa > 0
    ensures r == CeilDiv(w, sa) * CeilDiv(h, sa)
    ensures CeilDiv(w, sa) * sa >= w && CeilDiv(h, sa) * sa >= h
    ensures r * (sa * sa) >= w * h
    ensures w > 0 && h > 0 ==> r >= 1
    ensures w == 0 || h == 0 ==> r == 0
  {
    var cw, ch := CeilDiv(w, sa), CeilDiv(h, sa);
    GridCoversArea(cw, ch, sa, w, h);
    GridNonEmpty(cw, ch, sa, w, h);
    cw * ch
  }

  /** A grid whose sides reach w and h covers the area w * h. */
  lemma GridCoversArea(cw: nat, ch: nat, sa: nat, w: nat, h: nat)
    requires cw * sa >= w && ch * sa >= h
    ensures cw * ch * (sa * sa) >= w * h
  {
    MulMono(w, cw * sa, h, ch * sa);
    Rearrange(cw, ch, sa);
  }

  /** The grid of ceilings has a tile exactly when both sides are non-empty. */
  lemma GridNonEmpty(cw: nat, ch: nat, sa: nat, w: nat, h: nat)
    requires sa > 0 && cw == CeilDiv(w, sa) && ch == CeilDiv(h, sa)
    ensures w > 0 && h > 0 ==> cw * ch >= 1
    ensures w == 0 || h == 0 ==> cw * ch == 0
  {
    if w > 0 && h > 0 {
      MulMono(1, cw, 1, ch);
    }
  }

  /** No smaller grid of sa x sa tiles covers both sides of the matrix. */
  lemma TilesLeast(w: nat, h: nat, sa: nat, tw: nat, th: nat)
    requires sa > 0 && tw * sa >= w && th * sa >= h
    ensures tw * th >= Tiles(w, h, sa)
  {
    CeilDivLeast(w, sa, tw);
    CeilDivLeast(h, sa, th);
    MulMono(CeilDiv(w, sa), tw, CeilDiv(h, sa), th);
  }

  /** (cw * ch) * (sa * sa) == (cw * sa) * (ch * sa). */
  lemma Rearrange(cw: nat, ch: nat, sa: nat)
    ensures cw * ch * (sa * sa) == (cw * sa) * (ch * sa)
  {
  }

  /**
   * The tile count of a layer: the data matrix is tiled when its area is
   * strictly smaller than the weight matrix's, otherwise the weight matrix is.
   */
  function TileCount(dataW: nat, dataH: nat, weightW: nat, weightH: nat, sa: nat): (r: nat)
    requires sa > 0
    ensures dataW * dataH < weightW * weightH ==> r == Tiles(dataW, dataH, sa)
    ensures dataW * dataH >= weightW * weightH ==> r == Tiles(weightW, weightH, sa)
    ensures r * (sa * sa) >= if dataW * dataH < weightW * weightH then dataW * dataH else weightW * weightH
    ensures dataW > 0 && dataH > 0 && weightW > 0 && weightH > 0 ==> r >= 1
  {
    if dataW * dataH < weightW * weightH then Tiles(dataW, dataH, sa) else Tiles(weightW, weightH, sa)
  }
}
