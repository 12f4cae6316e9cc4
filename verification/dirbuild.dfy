// The directional builds of the C core (MB_BldNb8, MB_BldNb32, MB_DualBldNbb):
// a geodesic reconstruction of an image under a mask that propagates in one
// direction only, returning the volume of the result.
//
// The line order of the propagation lives in MB_BldDirection.c, which is not
// part of this model.  The line kernels that are shown update a pixel from a
// neighbour that has already been updated in the same call (the horizontal
// kernels walk the line from the side the values come from, the binary ones
// iterate inside the word until nothing changes), so the build is modelled as
// the cumulative propagation: each pixel takes the value of the pixel it
// comes from *after* that pixel was rebuilt.  Building in direction d brings
// values along d, so a pixel reads the neighbour in the transposed direction,
// as a shift in direction d does.

module DirBuild {
  import opened Common
  import opened Images
  import opened Directions
  import opened Pointwise

  // ---------------------------------------------------------------------
  // Propagation order

  /** How many steps along direction t separate (x, y) from the side of the
      frame the propagation leaves: the measure that makes the propagation
      well founded. */
  function Rank(g: Grid, t: int, w: nat, h: nat, x: int, y: int): nat
    requires 0 <= x < w && 0 <= y < h
  {
    if DirY(g, t) < 0 then y
    else if DirY(g, t) > 0 then h - y
    else if DirXSign(g, t) < 0 then x
    else if DirXSign(g, t) > 0 then w - x
    else 0
  }

  /** A step that moves and stays in the frame lowers the rank. */
  lemma RankDecreases(g: Grid, t: int, w: nat, h: nat, x: int, y: int)
    requires 0 <= x < w && 0 <= y < h
    requires Step(g, t, (x, y)) != (x, y)
    requires 0 <= Step(g, t, (x, y)).0 < w && 0 <= Step(g, t, (x, y)).1 < h
    ensures Rank(g, t, w, h, Step(g, t, (x, y)).0, Step(g, t, (x, y)).1) < Rank(g, t, w, h, x, y)
  {
    var o := Offset(g, t, y);
    assert o.1 == DirY(g, t);
    assert DirXSign(g, t) > 0 ==> o.0 >= 0;
    assert DirXSign(g, t) < 0 ==> o.0 <= 0;
    assert DirXSign(g, t) == 0 ==> o.0 == 0;
  }

  // ---------------------------------------------------------------------
  // The build and its dual, pixel by pixel

  /** The value MB_BldNb8/MB_BldNb32 leave at (x, y) when values come from
      direction t: the smaller of the mask and the larger of the germ and the
      rebuilt upstream neighbour; past the frame the neighbour is the empty
      edge, 0, so only the germ is clipped. */
  function BuildAt(g: Grid, t: int, mask: Image, germ: Image, x: int, y: int): (v: nat)
    requires SameSize(mask, germ) && Inside(mask, x, y)
    ensures v <= Get(mask, x, y)
    ensures v >= Min(Get(mask, x, y), Get(germ, x, y))
    decreases Rank(g, t, mask.width, mask.height, x, y)
  {
    var s := Step(g, t, (x, y));
    if s == (x, y) || !Inside(mask, s.0, s.1) then Min(Get(mask, x, y), Max(Get(germ, x, y), 0))
    else
      RankDecreases(g, t, mask.width, mask.height, x, y);
      Min(Get(mask, x, y), Max(Get(germ, x, y), BuildAt(g, t, mask, germ, s.0, s.1)))
  }

  /** The value MB_DualBldNbb leaves at (x, y): the larger of the mask and the
      smaller of the germ and the rebuilt upstream neighbour; past the frame
      the neighbour is the filled edge, `top`. */
  function DualAt(g: Grid, t: int, mask: Image, germ: Image, top: nat, x: int, y: int): (v: nat)
    requires SameSize(mask, germ) && Inside(mask, x, y)
    ensures v >= Get(mask, x, y)
    ensures v <= Max(Get(mask, x, y), Get(germ, x, y))
    decreases Rank(g, t, mask.width, mask.height, x, y)
  {
    var s := Step(g, t, (x, y));
    if s == (x, y) || !Inside(mask, s.0, s.1) then Max(Get(mask, x, y), Min(Get(germ, x, y), top))
    else
      RankDecreases(g, t, mask.width, mask.height, x, y);
      Max(Get(mask, x, y), Min(Get(germ, x, y), DualAt(g, t, mask, germ, top, s.0, s.1)))
  }

  function BuildValue(g: Grid, t: int, mask: Image, germ: Image, x: int, y: int): nat
  {
    if SameSize(mask, germ) && Inside(mask, x, y) then BuildAt(g, t, mask, germ, x, y) else 0
  }

  function DualValue(g: Grid, t: int, mask: Image, germ: Image, top: nat, x: int, y: int): nat
  {
    if SameSize(mask, germ) && Inside(mask, x, y) then DualAt(g, t, mask, germ, top, x, y) else 0
  }

  /** The germ rebuilt under the mask with values coming from direction t. */
  function BuildImage(g: Grid, t: int, mask: Image, germ: Image): (r: Image)
    requires SameSize(mask, germ)
    ensures r.width == germ.width && r.height == germ.height && r.depth == germ.depth
    ensures Shaped(r.pix, germ.width, germ.height)
  {
    MadeByRows(germ.width, germ.height, germ.depth, (x, y) => BuildValue(g, t, mask, germ, x, y))
  }

  function DualImage(g: Grid, t: int, mask: Image, germ: Image, top: nat): (r: Image)
    requires SameSize(mask, germ)
    ensures r.width == germ.width && r.height == germ.height && r.depth == germ.depth
    ensures Shaped(r.pix, germ.width, germ.height)
  {
    MadeByRows(germ.width, germ.height, germ.depth, (x, y) => DualValue(g, t, mask, germ, top, x, y))
  }

  /** Every pixel of the rebuilt image is the value BuildAt gives it. */
  lemma BuildImagePixels(g: Grid, t: int, mask: Image, germ: Image)
    requires SameSize(mask, germ)
    ensures forall x, y :: Inside(germ, x, y) ==> Get(BuildImage(g, t, mask, germ), x, y) == BuildAt(g, t, mask, germ, x, y)
  {
    MadeByRowsPixels(germ.width, germ.height, germ.depth, (x, y) => BuildValue(g, t, mask, germ, x, y));
  }

  lemma DualImagePixels(g: Grid, t: int, mask: Image, germ: Image, top: nat)
    requires SameSize(mask, germ)
    ensures forall x, y :: Inside(germ, x, y) ==> Get(DualImage(g, t, mask, germ, top), x, y) == DualAt(g, t, mask, germ, top, x, y)
  {
    MadeByRowsPixels(germ.width, germ.height, germ.depth, (x, y) => DualValue(g, t, mask, germ, top, x, y));
  }

  lemma BuildImageValid(g: Grid, t: int, mask: Image, germ: Image)
    requires Valid(mask) && Valid(germ) && SameSize(mask, germ) && mask.depth == germ.depth
    ensures Valid(BuildImage(g, t, mask, germ))
    ensures Le(BuildImage(g, t, mask, germ), mask)
  {
    var r := BuildImage(g, t, mask, germ);
    BuildImagePixels(g, t, mask, germ);
    forall x, y | Inside(r, x, y)
      ensures Get(r, x, y) <= Get(mask, x, y) <= MaxValue(r.depth)
    {
      PixelBound(mask, x, y);
    }
    ValidFromPixels(r);
  }

  lemma DualImageValid(g: Grid, t: int, mask: Image, germ: Image)
    requires Valid(mask) && Valid(germ) && SameSize(mask, germ) && mask.depth == germ.depth
    ensures Valid(DualImage(g, t, mask, germ, MaxValue(germ.depth)))
    ensures Le(mask, DualImage(g, t, mask, germ, MaxValue(germ.depth)))
  {
    var r := DualImage(g, t, mask, germ, MaxValue(germ.depth));
    DualImagePixels(g, t, mask, germ, MaxValue(germ.depth));
    forall x, y | Inside(r, x, y)
      ensures Get(r, x, y) <= MaxValue(r.depth)
    {
      PixelBound(mask, x, y);
      PixelBound(germ, x, y);
    }
    ValidFromPixels(r);
  }

  /** The build never exceeds the mask. */
  lemma BuildImageBelow(g: Grid, t: int, mask: Image, germ: Image)
    requires SameSize(mask, germ)
    ensures Le(BuildImage(g, t, mask, germ), mask)
  {
    var r := BuildImage(g, t, mask, germ);
    BuildImagePixels(g, t, mask, germ);
    forall x, y | Inside(r, x, y)
      ensures Get(r, x, y) <= Get(mask, x, y)
    {
      assert Get(r, x, y) == BuildAt(g, t, mask, germ, x, y);
    }
  }

  /** The dual build never goes below the mask. */
  lemma DualImageAbove(g: Grid, t: int, mask: Image, germ: Image, top: nat)
    requires SameSize(mask, germ)
    ensures Le(mask, DualImage(g, t, mask, germ, top))
  {
    var r := DualImage(g, t, mask, germ, top);
    DualImagePixels(g, t, mask, germ, top);
    forall x, y | Inside(mask, x, y)
      ensures Get(mask, x, y) <= Get(r, x, y)
    {
      assert Get(r, x, y) == DualAt(g, t, mask, germ, top, x, y);
    }
  }

  /** From a germ below the mask the build only raises pixels. */
  lemma BuildImageExtensive(g: Grid, t: int, mask: Image, germ: Image)
    requires SameSize(mask, germ) && Le(germ, mask)
    ensures Le(germ, BuildImage(g, t, mask, germ))
  {
    var r := BuildImage(g, t, mask, germ);
    BuildImagePixels(g, t, mask, germ);
    forall x, y | Inside(germ, x, y)
      ensures Get(germ, x, y) <= Get(r, x, y)
    {
      assert Get(germ, x, y) <= Get(mask, x, y);
    }
  }

  /** From a germ above the mask the dual build only lowers pixels. */
  lemma DualImageShrinks(g: Grid, t: int, mask: Image, germ: Image, top: nat)
    requires SameSize(mask, germ) && Le(mask, germ)
    ensures Le(DualImage(g, t, mask, germ, top), germ)
  {
    var r := DualImage(g, t, mask, germ, top);
    DualImagePixels(g, t, mask, germ, top);
    forall x, y | Inside(r, x, y)
      ensures Get(r, x, y) <= Get(germ, x, y)
    {
      assert Get(mask, x, y) <= Get(germ, x, y);
    }
  }

  // ---------------------------------------------------------------------
  // MB_BldNb8, MB_BldNb32, MB_DualBldNbb

  /** A rebuilt image with the volume the C call returns through pVolume. */
  datatype Reconstruction = Reconstruction(image: Image, volume: nat)

  /** The depth pairs of the directional builds: 1/1 (MB_BldNbb and
      MB_DualBldNbb), 8/8 and 32/32. */
  predicate BuildPair(pair: nat)
  {
    pair == Pair1x1 || pair == Pair8x8 || pair == Pair32x32
  }

  /** The directional build behind MB_BldNb8 (pair 8/8) and MB_BldNb32
      (pair 32/32): check sizes, direction and depths, then rebuild srcdest
      under mask along direction d and sum the result. */
  function BldNb(pair: nat, mask: Image, srcdest: Image, d: nat, g: Grid): (r: Result<Reconstruction>)
    requires Valid(mask) && Valid(srcdest) && BuildPair(pair)
    ensures !SameSize(mask, srcdest) ==> r == Fail(BadSize)
    ensures SameSize(mask, srcdest) && !DirectionOk(g, d) ==> r == Fail(BadDirection)
    ensures SameSize(mask, srcdest) && DirectionOk(g, d) ==> (r.Ok? <==> Probe(mask, srcdest) == pair)
    ensures r.Ok? ==> Valid(r.value.image) && SameSize(r.value.image, srcdest) && r.value.image.depth == srcdest.depth
    ensures r.Ok? ==> r.value.volume == Volume(r.value.image)
    ensures r.Ok? ==> Le(r.value.image, mask)
    ensures r.Ok? && Le(srcdest, mask) ==> Le(srcdest, r.value.image)
    ensures r.Ok? ==> r.value.image == BuildImage(g, Transpose(d, g), mask, srcdest)
  {
    ProbeDepths(mask, srcdest);
    if !SameSize(mask, srcdest) then Fail(BadSize)
    else if !DirectionOk(g, d) then Fail(BadDirection)
    else if Probe(mask, srcdest) != pair then Fail(BadDepth)
    else
      var im := BuildImage(g, Transpose(d, g), mask, srcdest);
      BuildImageValid(g, Transpose(d, g), mask, srcdest);
      assert Le(srcdest, mask) ==> Le(srcdest, im) by {
        if Le(srcdest, mask) {
          BuildImageExtensive(g, Transpose(d, g), mask, srcdest);
        }
      }
      Ok(Reconstruction(im, Volume(im)))
  }

  /** MB_BldNb8: the directional build of 8-bit images. */
  function BldNb8(mask: Image, srcdest: Image, d: nat, g: Grid): (r: Result<Reconstruction>)
    requires Valid(mask) && Valid(srcdest)
    ensures SameSize(mask, srcdest) && DirectionOk(g, d) ==> (r.Ok? <==> mask.depth == 8 && srcdest.depth == 8)
    ensures r.Ok? ==> r.value.volume == Volume(r.value.image) && Le(r.value.image, mask)
  {
    ProbeDepths(mask, srcdest);
    BldNb(Pair8x8, mask, srcdest, d, g)
  }

  /** MB_BldNb32: the directional build of 32-bit images. */
  function BldNb32(mask: Image, srcdest: Image, d: nat, g: Grid): (r: Result<Reconstruction>)
    requires Valid(mask) && Valid(srcdest)
    ensures SameSize(mask, srcdest) && DirectionOk(g, d) ==> (r.Ok? <==> mask.depth == 32 && srcdest.depth == 32)
    ensures r.Ok? ==> r.value.volume == Volume(r.value.image) && Le(r.value.image, mask)
  {
    ProbeDepths(mask, srcdest);
    BldNb(Pair32x32, mask, srcdest, d, g)
  }

  /** The dual directional build behind MB_DualBldNbb (pair 1/1): the
      result contains the mask and stays within mask or germ. */
  function DualBldNb(pair: nat, mask: Image, srcdest: Image, d: nat, g: Grid): (r: Result<Reconstruction>)
    requires Valid(mask) && Valid(srcdest) && BuildPair(pair)
    ensures !SameSize(mask, srcdest) ==> r == Fail(BadSize)
    ensures SameSize(mask, srcdest) && !DirectionOk(g, d) ==> r == Fail(BadDirection)
    ensures SameSize(mask, srcdest) && DirectionOk(g, d) ==> (r.Ok? <==> Probe(mask, srcdest) == pair)
    ensures r.Ok? ==> Valid(r.value.image) && SameSize(r.value.image, srcdest) && r.value.image.depth == srcdest.depth
    ensures r.Ok? ==> r.value.volume == Volume(r.value.image)
    ensures r.Ok? ==> Le(mask, r.value.image)
    ensures r.Ok? ==> r.value.image == DualImage(g, Transpose(d, g), mask, srcdest, MaxValue(srcdest.depth))
  {
    ProbeDepths(mask, srcdest);
    if !SameSize(mask, srcdest) then Fail(BadSize)
    else if !DirectionOk(g, d) then Fail(BadDirection)
    else if Probe(mask, srcdest) != pair then Fail(BadDepth)
    else
      var im := DualImage(g, Transpose(d, g), mask, srcdest, MaxValue(srcdest.depth));
      DualImageValid(g, Transpose(d, g), mask, srcdest);
      Ok(Reconstruction(im, Volume(im)))
  }

  /** MB_DualBldNbb: the dual directional build of binary images; a pixel
      is set exactly where the mask is set, or the germ is set and so is the
      rebuilt upstream neighbour (or the filled edge). */
  function DualBldNbb(mask: Image, srcdest: Image, d: nat, g: Grid): (r: Result<Reconstruction>)
    requires Valid(mask) && Valid(srcdest)
    ensures SameSize(mask, srcdest) && DirectionOk(g, d) ==> (r.Ok? <==> mask.depth == 1 && srcdest.depth == 1)
    ensures r.Ok? ==> r.value.volume == Volume(r.value.image) && Le(mask, r.value.image)
    ensures r.Ok? ==> forall x, y :: Inside(srcdest, x, y) ==>
              (Get(r.value.image, x, y) == 1 <==> (Get(mask, x, y) == 1 || (Get(srcdest, x, y) == 1
                 && Read(r.value.image, Step(g, Transpose(d, g), (x, y)).0, Step(g, Transpose(d, g), (x, y)).1, 1) == 1)))
  {
    ProbeDepths(mask, srcdest);
    var r := DualBldNb(Pair1x1, mask, srcdest, d, g);
    if r.Ok? then
      DualBinaryStep(g, Transpose(d, g), mask, srcdest);
      r
    else r
  }

  /** One pixel of the binary dual build, read off the rebuilt image. */
  lemma DualBinaryStep(g: Grid, t: int, mask: Image, srcdest: Image)
    requires Valid(mask) && Valid(srcdest) && SameSize(mask, srcdest) && mask.depth == 1 && srcdest.depth == 1
    ensures var im := DualImage(g, t, mask, srcdest, 1);
            forall x, y :: Inside(srcdest, x, y) ==>
              (Get(im, x, y) == 1 <==> (Get(mask, x, y) == 1 || (Get(srcdest, x, y) == 1
                 && Read(im, Step(g, t, (x, y)).0, Step(g, t, (x, y)).1, 1) == 1)))
  {
    var im := DualImage(g, t, mask, srcdest, 1);
    DualImagePixels(g, t, mask, srcdest, 1);
    forall x, y | Inside(srcdest, x, y)
      ensures (Get(im, x, y) == 1 <==> (Get(mask, x, y) == 1 || (Get(srcdest, x, y) == 1
                 && Read(im, Step(g, t, (x, y)).0, Step(g, t, (x, y)).1, 1) == 1)))
    {
      PixelBound(mask, x, y);
      PixelBound(srcdest, x, y);
      var s := Step(g, t, (x, y));
      if s != (x, y) && Inside(mask, s.0, s.1) {
        PixelBound(mask, s.0, s.1);
        PixelBound(srcdest, s.0, s.1);
        assert Get(im, s.0, s.1) == DualAt(g, t, mask, srcdest, 1, s.0, s.1);
      }
    }
  }

  // ---------------------------------------------------------------------
  // Properties of the directional build

  /** Building again in the same direction changes nothing: the rebuilt
      image is a fixpoint of its own directional build. */
  lemma {:induction false} BuildAtIdempotent(g: Grid, t: int, mask: Image, germ: Image, x: int, y: int)
    requires SameSize(mask, germ) && Inside(mask, x, y)
    ensures BuildAt(g, t, mask, BuildImage(g, t, mask, germ), x, y) == BuildAt(g, t, mask, germ, x, y)
    decreases Rank(g, t, mask.width, mask.height, x, y)
  {
    var b := BuildImage(g, t, mask, germ);
    BuildImagePixels(g, t, mask, germ);
    var s := Step(g, t, (x, y));
    assert Get(b, x, y) == BuildAt(g, t, mask, germ, x, y);
    if s != (x, y) && Inside(mask, s.0, s.1) {
      RankDecreases(g, t, mask.width, mask.height, x, y);
      BuildAtIdempotent(g, t, mask, germ, s.0, s.1);
      assert Get(b, s.0, s.1) == BuildAt(g, t, mask, germ, s.0, s.1);
    }
  }

  /** Building twice in the same direction is building once. */
  lemma BuildIdempotent(g: Grid, t: int, mask: Image, germ: Image)
    requires SameSize(mask, germ)
    ensures BuildImage(g, t, mask, BuildImage(g, t, mask, germ)) == BuildImage(g, t, mask, germ)
  {
    var b := BuildImage(g, t, mask, germ);
    BuildImagePixels(g, t, mask, germ);
    BuildImagePixels(g, t, mask, b);
    forall x, y | Inside(b, x, y)
      ensures Get(BuildImage(g, t, mask, b), x, y) == Get(b, x, y)
    {
      BuildAtIdempotent(g, t, mask, germ, x, y);
    }
    SamePixels(BuildImage(g, t, mask, b), b);
  }

  /** A larger germ rebuilds to a larger image under the same mask. */
  lemma {:induction false} BuildAtMonotone(g: Grid, t: int, mask: Image, a: Image, b: Image, x: int, y: int)
    requires SameSize(mask, a) && Le(a, b) && Inside(mask, x, y)
    ensures BuildAt(g, t, mask, a, x, y) <= BuildAt(g, t, mask, b, x, y)
    decreases Rank(g, t, mask.width, mask.height, x, y)
  {
    var s := Step(g, t, (x, y));
    assert Get(a, x, y) <= Get(b, x, y);
    if s != (x, y) && Inside(mask, s.0, s.1) {
      RankDecreases(g, t, mask.width, mask.height, x, y);
      BuildAtMonotone(g, t, mask, a, b, s.0, s.1);
    }
  }

  /** The dual build is the build of the inverted images, inverted: where
      mask' and germ' are the complements of mask and germ to `top`, the two
      rebuilt values add up to `top`. */
  lemma {:induction false} DualityAt(g: Grid, t: int, mask: Image, germ: Image, mask': Image, germ': Image, top: nat, x: int, y: int)
    requires SameSize(mask, germ) && SameSize(mask, mask') && SameSize(mask, germ') && Inside(mask, x, y)
    requires forall i, j :: Inside(mask, i, j) ==> Get(mask, i, j) + Get(mask', i, j) == top
    requires forall i, j :: Inside(mask, i, j) ==> Get(germ, i, j) + Get(germ', i, j) == top
    ensures DualAt(g, t, mask, germ, top, x, y) + BuildAt(g, t, mask', germ', x, y) == top
    decreases Rank(g, t, mask.width, mask.height, x, y)
  {
    var s := Step(g, t, (x, y));
    assert Get(mask, x, y) + Get(mask', x, y) == top;
    assert Get(germ, x, y) + Get(germ', x, y) == top;
    if s != (x, y) && Inside(mask, s.0, s.1) {
      RankDecreases(g, t, mask.width, mask.height, x, y);
      DualityAt(g, t, mask, germ, mask', germ', top, s.0, s.1);
    }
  }

  lemma Complements(a: Image, b: Image)
    requires Valid(a) && Valid(b) && Inv(a, b) == Ok(b)
    ensures SameSize(a, b) && a.depth == b.depth
    ensures forall i, j :: Inside(a, i, j) ==> Get(a, i, j) + Get(b, i, j) == MaxValue(a.depth)
  {
    var r := Inv(a, b);
    forall i, j | Inside(a, i, j)
      ensures Get(a, i, j) + Get(b, i, j) == MaxValue(a.depth)
    {
      assert Inside(b, i, j);
      assert Get(r.value, i, j) + Get(a, i, j) == MaxValue(b.depth);
    }
  }

  /** The duality of the two images: pixel by pixel, the dual build and the
      build of the complements add up to `top`. */
  lemma DualityImages(g: Grid, t: int, mask: Image, germ: Image, mask': Image, germ': Image, top: nat)
    requires SameSize(mask, germ) && SameSize(mask, mask') && SameSize(mask, germ')
    requires forall i, j :: Inside(mask, i, j) ==> Get(mask, i, j) + Get(mask', i, j) == top
    requires forall i, j :: Inside(mask, i, j) ==> Get(germ, i, j) + Get(germ', i, j) == top
    ensures forall x, y :: Inside(germ, x, y) ==>
              Get(DualImage(g, t, mask, germ, top), x, y) + Get(BuildImage(g, t, mask', germ'), x, y) == top
  {
    DualImagePixels(g, t, mask, germ, top);
    BuildImagePixels(g, t, mask', germ');
    forall x, y | Inside(germ, x, y)
      ensures Get(DualImage(g, t, mask, germ, top), x, y) + Get(BuildImage(g, t, mask', germ'), x, y) == top
    {
      DualityAt(g, t, mask, germ, mask', germ', top, x, y);
    }
  }

  /** MB_DualBldNbb on a mask and a germ is MB_BldNbb on their inverses,
      inverted. */
  lemma DualBuildIsInvertedBuild(mask: Image, srcdest: Image, imask: Image, isrcdest: Image, d: nat, g: Grid)
    requires Valid(mask) && Valid(srcdest) && Valid(imask) && Valid(isrcdest)
    requires Inv(mask, imask) == Ok(imask) && Inv(srcdest, isrcdest) == Ok(isrcdest)
    requires DualBldNb(Pair1x1, mask, srcdest, d, g).Ok?
    ensures BldNb(Pair1x1, imask, isrcdest, d, g).Ok?
    ensures forall x, y :: Inside(srcdest, x, y) ==>
              Get(DualBldNb(Pair1x1, mask, srcdest, d, g).value.image, x, y)
              + Get(BldNb(Pair1x1, imask, isrcdest, d, g).value.image, x, y) == 1
  {
    ProbeDepths(mask, srcdest);
    ProbeDepths(imask, isrcdest);
    Complements(mask, imask);
    Complements(srcdest, isrcdest);
    DualityImages(g, Transpose(d, g), mask, srcdest, imask, isrcdest, 1);
  }
}
