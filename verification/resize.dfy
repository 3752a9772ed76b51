/**
  The target dimensions `compressJPG` hands to the image library: after an EXIF
  orientation that implies a quarter turn, width and height swap; then the longest
  edge is scaled to a fixed size and the other edge rounded to the nearest pixel.
 */
module Resize {
  import opened Wrappers

  /** `max_image_size` in azgallery/create.js. */
  const MaxImageSize: nat := 1800
  /** The literal used by the older srcs/create.js. */
  const LegacyMaxImageSize: nat := 1280

  type pos = n: int | n > 0 witness 1

  /**
    `Math.round(p / q)` for a non-negative `p` and positive `q`: the nearest integer, with
    halves rounded up. Both operands stay far below 2^53 for real image sizes, so the
    floating-point quotient is exact enough that the integer form agrees with it.
   */
  function RoundDiv(p: nat, q: pos): (r: nat)
    ensures IsNearest(r, p, q)
  {
    (2 * p + q) / (2 * q)
  }

  /** `r` is `p / q` rounded to the nearest integer, halves upwards. */
  predicate IsNearest(r: int, p: int, q: pos)
  {
    2 * q * r <= 2 * p + q < 2 * q * (r + 1)
  }

  /** The nearest-integer characterisation pins the result down: no other integer satisfies it. */
  lemma RoundDivUnique(p: nat, q: pos, r: int)
    requires IsNearest(r, p, q)
    ensures r == RoundDiv(p, q)
  {
    var d := RoundDiv(p, q);
    if r < d {
      MulMonotone(2 * q, r + 1, d);
    } else if r > d {
      MulMonotone(2 * q, d + 1, r);
    }
  }

  /** A quotient bounded by `m` rounds to at most `m`. */
  lemma RoundDivAtMost(p: nat, q: pos, m: nat)
    requires p <= q * m
    ensures RoundDiv(p, q) <= m
  {
    var r := RoundDiv(p, q);
    if r > m {
      MulMonotone(2 * q, m + 1, r);
      assert false;
    }
  }

  lemma MulMonotone(a: nat, b: int, c: int)
    requires b <= c
    ensures a * b <= a * c
  {
    assert a * c - a * b == a * (c - b);
  }

  /** Dividing a multiple rounds to the exact quotient. */
  lemma RoundDivExact(k: nat, q: pos)
    ensures RoundDiv(k * q, q) == k
  {
    RoundDivUnique(k * q, q, k);
  }

  /** What `image.metadata()` reports for a decodable source. */
  datatype ImageMeta = ImageMeta(width: pos, height: pos, orientation: Option<int>)

  datatype Dims = Dims(width: nat, height: nat)

  /** EXIF orientations 5 to 8 are the quarter-turn ones; a missing tag counts as 0. */
  predicate QuarterTurn(orientation: Option<int>)
  {
    orientation.GetOr(0) >= 5
  }

  /** Width and height of the image as displayed, i.e. after the orientation is applied. */
  function Upright(m: ImageMeta): (d: Dims)
    // the displayed picture has the stored picture's two edges, possibly exchanged
    ensures multiset{d.width, d.height} == multiset{m.width, m.height}
  {
    if QuarterTurn(m.orientation) then Dims(m.height, m.width) else Dims(m.width, m.height)
  }

  /** The `resize(width, height)` arguments of `compressJPG` with longest edge `maxEdge`. */
  function ResizeDims(m: ImageMeta, maxEdge: pos): (d: Dims)
    // the longest edge becomes exactly `maxEdge`, and neither exceeds it
    ensures d.width == maxEdge || d.height == maxEdge
    ensures d.width <= maxEdge && d.height <= maxEdge
    // a landscape picture gets width `maxEdge` and the height nearest to scale ...
    ensures var u := Upright(m);
            u.width > u.height ==> d.width == maxEdge && IsNearest(d.height, u.height * maxEdge, u.width)
    // ... any other gets height `maxEdge` and the width nearest to scale
    ensures var u := Upright(m);
            u.width <= u.height ==> d.height == maxEdge && IsNearest(d.width, u.width * maxEdge, u.height)
  {
    var u := Upright(m);
    if u.width > u.height then
      RoundDivAtMost(u.height * maxEdge, u.width, maxEdge);
      Dims(maxEdge, RoundDiv(u.height * maxEdge, u.width))
    else
      RoundDivAtMost(u.width * maxEdge, u.height, maxEdge);
      Dims(RoundDiv(u.width * maxEdge, u.height), maxEdge)
  }

  /** The orientation (landscape, portrait) of the displayed picture survives the resize. */
  lemma ResizeKeepsShape(m: ImageMeta, maxEdge: pos)
    ensures Upright(m).width >= Upright(m).height ==> ResizeDims(m, maxEdge).width >= ResizeDims(m, maxEdge).height
    ensures Upright(m).width <= Upright(m).height ==> ResizeDims(m, maxEdge).width <= ResizeDims(m, maxEdge).height
  {
  }

  /** A square picture becomes `maxEdge` by `maxEdge`, whatever its orientation tag. */
  lemma ResizeSquare(side: pos, orientation: Option<int>, maxEdge: pos)
    ensures ResizeDims(ImageMeta(side, side, orientation), maxEdge) == Dims(maxEdge, maxEdge)
  {
    RoundDivExact(maxEdge, side);
  }

  /**
    The swap matters only for the decision of which edge to scale: a picture stored sideways
    ends up with the same target as the same picture stored upright.
   */
  lemma ResizeSidewaysAsUpright(m: ImageMeta, maxEdge: pos)
    requires QuarterTurn(m.orientation)
    ensures ResizeDims(m, maxEdge) == ResizeDims(ImageMeta(m.height, m.width, None), maxEdge)
  {
  }

  /**
    Transcoding applies the rotation and drops the metadata, so resizing an output again
    (no orientation tag) leaves its dimensions as they are.
   */
  lemma ResizeIdempotent(m: ImageMeta, maxEdge: pos)
    requires ResizeDims(m, maxEdge).width > 0 && ResizeDims(m, maxEdge).height > 0
    ensures var d := ResizeDims(m, maxEdge);
            ResizeDims(ImageMeta(d.width, d.height, None), maxEdge) == d
  {
    var d := ResizeDims(m, maxEdge);
    if d.width > d.height {
      RoundDivExact(d.height, maxEdge);
    } else if d.width == d.height {
      RoundDivExact(maxEdge, maxEdge);
    } else {
      RoundDivExact(d.width, maxEdge);
    }
  }

  /**
    A landscape picture whose width exceeds twice its height times the target edge gets a
    height of 0 pixels: the arithmetic has no lower bound of 1.
   */
  lemma ThinPictureLosesShortEdge(m: ImageMeta, maxEdge: pos)
    requires Upright(m).width > 2 * Upright(m).height * maxEdge
    ensures ResizeDims(m, maxEdge) == Dims(maxEdge, 0)
  {
    var u := Upright(m);
    MulMonotone(2 * u.height, 1, maxEdge);
    assert 2 * (u.height * maxEdge) == 2 * u.height * maxEdge;
    RoundDivSmall(u.height * maxEdge, u.width);
  }

  /** A quotient below one half rounds to 0. */
  lemma RoundDivSmall(p: nat, q: pos)
    requires 2 * p < q
    ensures RoundDiv(p, q) == 0
  {
    var r := RoundDiv(p, q);
    if r >= 1 {
      MulMonotone(2 * q, 1, r);
      assert false;
    }
  }

  /** For instance a 4000 by 1 panorama, and a 1 by 3000 strip under the older 1280 limit. */
  lemma ThinPictureExamples()
    ensures ResizeDims(ImageMeta(4000, 1, None), MaxImageSize) == Dims(MaxImageSize, 0)
    ensures ResizeDims(ImageMeta(1, 3000, Some(1)), LegacyMaxImageSize) == Dims(0, LegacyMaxImageSize)
  {
    ThinPictureLosesShortEdge(ImageMeta(4000, 1, None), MaxImageSize);
  }
}
