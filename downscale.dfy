/**
 * The size computation of `compress_image_data`: when either side exceeds
 * `maxDim`, both sides are scaled by `ratio = min(maxDim/width, maxDim/height)`
 * and truncated with `int(...)`.
 *
 * The model computes the ratio as an exact rational and truncates with floor
 * division (equal to `int` on non-negative values). Python computes it in
 * binary floating point, so `int(width * (maxDim / width))` may come out one
 * below the exact value; the exact model does not capture that rounding.
 */
module Downscale {
  import opened Base

  datatype Dims = Dims(width: nat, height: nat)

  predicate Within(d: Dims, maxDim: nat) {
    d.width <= maxDim && d.height <= maxDim
  }

  /**
   * The new image size, or None when the computation raises, which the caller
   * catches and reports as an image that could not be recoded: the division
   * `maxDim / 0` raises when a side is 0 while the other exceeds the bound, and
   * `resize` rejects a size whose scaled side truncates to 0.
   */
  function FitWithin(d: Dims, maxDim: nat): (r: Option<Dims>)
    ensures Within(d, maxDim) ==> r == Some(d)
    ensures !Within(d, maxDim) && (d.width == 0 || d.height == 0) ==> r.None?
    ensures !Within(d, maxDim) && d.width > 0 && d.height > 0 ==>
              (r.None? <==> Scaled(d, maxDim).width == 0 || Scaled(d, maxDim).height == 0)
    ensures r.Some? ==> Within(r.value, maxDim) || r.value == d
    ensures r.Some? ==> r.value.width <= d.width && r.value.height <= d.height
    ensures r.Some? && !Within(d, maxDim) ==>
              && Within(r.value, maxDim) && (r.value.width == maxDim || r.value.height == maxDim)
              && r.value.width > 0 && r.value.height > 0
  {
    if Within(d, maxDim) then Some(d)
    else if d.width == 0 || d.height == 0 then None
    else
      var s := Scaled(d, maxDim);
      if s.width == 0 || s.height == 0 then None else Some(s)
  }

  /** A very flat image loses its short side: 5000 by 3 scaled to 700 would be 700 by 0, so it fails. */
  lemma FlatImageFails()
    ensures Scaled(Dims(5000, 3), 700) == Dims(700, 0)
    ensures FitWithin(Dims(5000, 3), 700).None?
  {
    assert 700 * 3 <= 700 * 5000;
    assert 5000 * 700 / 5000 == 700;
    assert 3 * 700 / 5000 == 0;
  }

  /** Both sides times min(maxDim/width, maxDim/height), truncated. */
  function Scaled(d: Dims, maxDim: nat): (r: Dims)
    requires d.width > 0 && d.height > 0 && !Within(d, maxDim)
    ensures Within(r, maxDim)
    ensures r.width <= d.width && r.height <= d.height
    ensures d.height <= d.width ==> r.width == maxDim
    ensures d.width < d.height ==> r.height == maxDim
  {
    // min(maxDim/width, maxDim/height) is maxDim/den; `min` keeps the first on a tie
    var den := if maxDim * d.height <= maxDim * d.width then d.width else d.height;
    LongerSideDenominator(d, maxDim);
    Dims(ScaleSide(d.width, maxDim, den), ScaleSide(d.height, maxDim, den))
  }

  /** `int(side * (maxDim / den))` under exact arithmetic. */
  function ScaleSide(side: nat, maxDim: nat, den: nat): (r: nat)
    requires den > 0
    ensures side <= den ==> r <= maxDim
    ensures side == den ==> r == maxDim
    ensures maxDim <= den ==> r <= side
  {
    ScaleBounds(side, maxDim, den);
    side * maxDim / den
  }

  /** The denominator chosen by `min` is the longer side (maxDim = 0 scales everything to 0). */
  lemma LongerSideDenominator(d: Dims, maxDim: nat)
    requires d.width > 0 && d.height > 0
    ensures var den := if maxDim * d.height <= maxDim * d.width then d.width else d.height;
            (maxDim > 0 ==> den >= d.width && den >= d.height) && den > 0
  {
    if maxDim > 0 {
      MulCancel(d.height, d.width, maxDim);
      MulCancel(d.width, d.height, maxDim);
    }
  }

  lemma ScaleBounds(side: nat, maxDim: nat, den: nat)
    requires den > 0
    ensures side <= den ==> side * maxDim / den <= maxDim
    ensures side == den ==> side * maxDim / den == maxDim
    ensures maxDim <= den ==> side * maxDim / den <= side
  {
    MulDivCancel(maxDim, den);
    MulDivCancel(side, den);
    MulMono(maxDim, side, den);
    MulMono(side, maxDim, den);
    DivMono(side * maxDim, maxDim * den, den);
    DivMono(side * maxDim, side * den, den);
  }

  lemma MulMono(k: nat, a: nat, b: nat)
    ensures a <= b ==> k * a <= k * b
  {
  }

  lemma MulStrict(k: nat, a: int, b: int)
    ensures k > 0 && a < b ==> a * k < b * k
  {
  }

  lemma MulCancel(x: int, y: int, k: nat)
    requires k > 0
    ensures x * k < y * k ==> x < y
    ensures x * k <= y * k ==> x <= y
  {
    MulStrict(k, y, x);
    MulWeak(k, y, x);
  }

  lemma MulWeak(k: nat, a: int, b: int)
    ensures a <= b ==> a * k <= b * k
  {
  }

  lemma DivMono(a: nat, b: nat, den: nat)
    requires den > 0
    ensures a <= b ==> a / den <= b / den
  {
    var qa, qb := a / den, b / den;
    assert a == qa * den + a % den;
    assert b == qb * den + b % den;
    assert qb * den + den == (qb + 1) * den;
    MulCancel(qa, qb + 1, den);
  }

  lemma MulDivCancel(k: nat, den: nat)
    requires den > 0
    ensures k * den / den == k
  {
    var q := k * den / den;
    assert k * den == q * den + k * den % den;
    assert q * den + den == (q + 1) * den;
    MulCancel(q, k, den);
    MulCancel(k, q + 1, den);
  }
}
