/**
 * The output size that the client's `compressImage` draws an image at:
 * an aspect-preserving downscale into a `maxWidth` by `maxHeight` box,
 * rounded with `Math.round`. Sizes are non-negative pixel counts.
 */
module ImageResize {

  /** The defaults of `compressImage`'s `maxWidth` and `maxHeight`; every caller uses them. */
  const DefaultMaxWidth: nat := 800
  const DefaultMaxHeight: nat := 800

  datatype Dimensions = Dimensions(width: nat, height: nat)

  /** `Math.round(a / b)` for non-negative operands: the nearest integer, halves rounded up. */
  function RoundDiv(a: nat, b: nat): (q: nat)
    requires b > 0
    ensures 2 * a - b < 2 * b * q <= 2 * a + b
  {
    (2 * a + b) / (2 * b)
  }

  /** The width and height after the "Maintain aspect ratio" step. */
  function Resize(width: nat, height: nat, maxWidth: nat, maxHeight: nat): (d: Dimensions)
    ensures width <= maxWidth && height <= maxHeight ==> d == Dimensions(width, height)
    ensures (width > maxWidth || height > maxHeight) && width > height ==>
              && d.width == maxWidth
              && 2 * (height * maxWidth) - width < 2 * width * d.height <= 2 * (height * maxWidth) + width
    ensures (width > maxWidth || height > maxHeight) && width <= height ==>
              && d.height == maxHeight
              && 2 * (width * maxHeight) - height < 2 * height * d.width <= 2 * (width * maxHeight) + height
  {
    if width > maxWidth || height > maxHeight then
      if width > height then Dimensions(maxWidth, RoundDiv(height * maxWidth, width))
      else Dimensions(RoundDiv(width * maxHeight, height), maxHeight)
    else Dimensions(width, height)
  }

  /** `RoundDiv(a, b)` is at most `k` when `a / b` is below `k + 1/2`. */
  lemma RoundDivAtMost(a: nat, b: nat, k: nat)
    requires b > 0 && 2 * a + b < 2 * b * (k + 1)
    ensures RoundDiv(a, b) <= k
  {
    var n, d := 2 * a + b, 2 * b;
    assert d * (n / d) <= n;
    if n / d >= k + 1 {
      MultiplyMonotone(k + 1, n / d, d);
    }
  }

  lemma MultiplyMonotone(x: nat, y: nat, c: nat)
    requires x <= y
    ensures x * c <= y * c
  {
    assert y * c == x * c + (y - x) * c;
  }

  /** Scaling `small` by `box / big`, for `small <= big` and `box < big`, stays within both `small` and `box`. */
  lemma ScaledSideFits(small: nat, big: nat, box: nat)
    requires small <= big && box < big
    ensures RoundDiv(small * box, big) <= small
    ensures RoundDiv(small * box, big) <= box
  {
    MultiplyMonotone(box, big, small);
    assert small * box <= small * big;
    assert 2 * big * (small + 1) == 2 * (small * big) + 2 * big;
    RoundDivAtMost(small * box, big, small);
    MultiplyMonotone(small, big, box);
    assert 2 * big * (box + 1) == 2 * (big * box) + 2 * big;
    RoundDivAtMost(small * box, big, box);
  }

  /** In a square box the result fits the box and is never larger than the input. */
  lemma SquareBoxFits(width: nat, height: nat, side: nat)
    ensures Resize(width, height, side, side).width <= side
    ensures Resize(width, height, side, side).height <= side
    ensures Resize(width, height, side, side).width <= width
    ensures Resize(width, height, side, side).height <= height
  {
    if width > side || height > side {
      if width > height {
        ScaledSideFits(height, width, side);
      } else {
        ScaledSideFits(width, height, side);
      }
    }
  }

  /** With the default 800 by 800 box, both sides end up at most 800 and never grow. */
  lemma DefaultBoxFits(width: nat, height: nat)
    ensures Resize(width, height, DefaultMaxWidth, DefaultMaxHeight).width <= DefaultMaxWidth
    ensures Resize(width, height, DefaultMaxWidth, DefaultMaxHeight).height <= DefaultMaxHeight
    ensures Resize(width, height, DefaultMaxWidth, DefaultMaxHeight).width <= width
    ensures Resize(width, height, DefaultMaxWidth, DefaultMaxHeight).height <= height
  {
    SquareBoxFits(width, height, 800);
  }

  /**
   * With a box that is not square the rule can both break the box and
   * enlarge the image: a 500 by 400 image in a 1000 by 100 box is drawn
   * at 1000 by 800.
   */
  lemma OblongBoxCanOverflow()
    ensures Resize(500, 400, 1000, 100) == Dimensions(1000, 800)
  {
  }
}
