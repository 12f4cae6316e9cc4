// The geodesic reconstructions of the Python layer (geodesy.py): the
// iterative build and dual build that repeat the directional builds over all
// directions until the volume stops changing, and the operators composed
// from them.

module Geodesy {
  import opened Common
  import opened Images
  import opened Directions
  import opened Pointwise
  import opened DirBuild
  import HierQueue

  // ---------------------------------------------------------------------
  // mamba.buildNeighbor, mamba.dualbuildNeighbor

  /** The build pair chosen from the depth of the mask: 1 (MB_BldNbb),
      8 (MB_BldNb8), anything else 32 (MB_BldNb32). */
  function PairFor(maskDepth: nat): (pair: nat)
    ensures BuildPair(pair)
  {
    if maskDepth == 1 then Pair1x1 else if maskDepth == 8 then Pair8x8 else Pair32x32
  }

  /** buildNeighbor: the directional build the mask depth selects, with
      errors raised; it succeeds exactly for same-size, same-depth images
      and a direction of the grid. */
  function BuildNeighbor(mask: Image, inout: Image, d: nat, g: Grid): (r: PyResult<Reconstruction>)
    requires Valid(mask) && Valid(inout)
    ensures r.PyOk? <==> SameSize(mask, inout) && DirectionOk(g, d) && mask.depth == inout.depth
    ensures !SameSize(mask, inout) ==> r == Raised(MambaError(BadSize))
    ensures r.PyOk? ==> r.value.image == BuildImage(g, Transpose(d, g), mask, inout)
    ensures r.PyOk? ==> r.value.volume == Volume(r.value.image) && Le(r.value.image, mask)
  {
    ProbeDepths(mask, inout);
    RaiseOnError(BldNb(PairFor(mask.depth), mask, inout, d, g))
  }

  /** dualbuildNeighbor: the dual directional build the mask depth selects
      (MB_DualBldNbb; the 8- and 32-bit variants are assumed to follow the
      same pattern with the all-ones fill). */
  function DualBuildNeighbor(mask: Image, inout: Image, d: nat, g: Grid): (r: PyResult<Reconstruction>)
    requires Valid(mask) && Valid(inout)
    ensures r.PyOk? <==> SameSize(mask, inout) && DirectionOk(g, d) && mask.depth == inout.depth
    ensures !SameSize(mask, inout) ==> r == Raised(MambaError(BadSize))
    ensures r.PyOk? ==> r.value.image == DualImage(g, Transpose(d, g), mask, inout, MaxValue(inout.depth))
    ensures r.PyOk? ==> r.value.volume == Volume(r.value.image) && Le(mask, r.value.image)
  {
    ProbeDepths(mask, inout);
    RaiseOnError(DualBldNb(PairFor(mask.depth), mask, inout, d, g))
  }

  // ---------------------------------------------------------------------
  // One pass over the directions 1..n

  /** The image after the directional builds k, k+1, .., n in turn, with the
      volume the last of them returns. */
  function BuildPass(g: Grid, mask: Image, im: Image, k: nat, n: nat): (r: Reconstruction)
    requires 1 <= k <= n && SameSize(mask, im)
    ensures SameSize(r.image, im) && r.image.depth == im.depth && Shaped(r.image.pix, im.width, im.height)
    ensures r.volume == Volume(r.image)
    decreases n - k
  {
    var b := BuildImage(g, Transpose(k, g), mask, im);
    if k == n then Reconstruction(b, Volume(b)) else BuildPass(g, mask, b, k + 1, n)
  }

  function DualPass(g: Grid, mask: Image, im: Image, k: nat, n: nat): (r: Reconstruction)
    requires 1 <= k <= n && SameSize(mask, im)
    ensures SameSize(r.image, im) && r.image.depth == im.depth && Shaped(r.image.pix, im.width, im.height)
    ensures r.volume == Volume(r.image)
    decreases n - k
  {
    var b := DualImage(g, Transpose(k, g), mask, im, MaxValue(im.depth));
    if k == n then Reconstruction(b, Volume(b)) else DualPass(g, mask, b, k + 1, n)
  }

  /** A pass of builds keeps the image valid and ends below the mask. */
  lemma {:induction false} BuildPassBounded(g: Grid, mask: Image, im: Image, k: nat, n: nat)
    requires 1 <= k <= n && Valid(mask) && Valid(im) && SameSize(mask, im) && mask.depth == im.depth
    ensures Valid(BuildPass(g, mask, im, k, n).image) && Le(BuildPass(g, mask, im, k, n).image, mask)
    decreases n - k
  {
    var b := BuildImage(g, Transpose(k, g), mask, im);
    BuildImageValid(g, Transpose(k, g), mask, im);
    if k < n {
      assert BuildPass(g, mask, im, k, n) == BuildPass(g, mask, b, k + 1, n);
      BuildPassBounded(g, mask, b, k + 1, n);
    } else {
      assert BuildPass(g, mask, im, k, n).image == b;
    }
  }

  /** From an image below the mask a pass of builds only raises pixels. */
  lemma {:induction false} BuildPassExtensive(g: Grid, mask: Image, im: Image, k: nat, n: nat)
    requires 1 <= k <= n && SameSize(mask, im) && Le(im, mask)
    ensures Le(im, BuildPass(g, mask, im, k, n).image)
    decreases n - k
  {
    var b := BuildImage(g, Transpose(k, g), mask, im);
    BuildImageBelow(g, Transpose(k, g), mask, im);
    BuildImageExtensive(g, Transpose(k, g), mask, im);
    if k < n {
      var last := BuildPass(g, mask, b, k + 1, n).image;
      assert BuildPass(g, mask, im, k, n).image == last;
      BuildPassExtensive(g, mask, b, k + 1, n);
      LeTransitive(im, b, last);
    } else {
      assert BuildPass(g, mask, im, k, n).image == b;
    }
  }

  /** A pass of dual builds keeps the image valid and ends above the mask. */
  lemma {:induction false} DualPassBounded(g: Grid, mask: Image, im: Image, k: nat, n: nat)
    requires 1 <= k <= n && Valid(mask) && Valid(im) && SameSize(mask, im) && mask.depth == im.depth
    ensures Valid(DualPass(g, mask, im, k, n).image) && Le(mask, DualPass(g, mask, im, k, n).image)
    decreases n - k
  {
    var b := DualImage(g, Transpose(k, g), mask, im, MaxValue(im.depth));
    DualImageValid(g, Transpose(k, g), mask, im);
    if k < n {
      assert DualPass(g, mask, im, k, n) == DualPass(g, mask, b, k + 1, n);
      DualPassBounded(g, mask, b, k + 1, n);
    } else {
      assert DualPass(g, mask, im, k, n).image == b;
    }
  }

  /** From an image above the mask a pass of dual builds only lowers pixels. */
  lemma {:induction false} DualPassShrinks(g: Grid, mask: Image, im: Image, k: nat, n: nat)
    requires 1 <= k <= n && SameSize(mask, im) && Le(mask, im)
    ensures Le(DualPass(g, mask, im, k, n).image, im)
    decreases n - k
  {
    var b := DualImage(g, Transpose(k, g), mask, im, MaxValue(im.depth));
    DualImageAbove(g, Transpose(k, g), mask, im, MaxValue(im.depth));
    DualImageShrinks(g, Transpose(k, g), mask, im, MaxValue(im.depth));
    if k < n {
      var last := DualPass(g, mask, b, k + 1, n).image;
      assert DualPass(g, mask, im, k, n).image == last;
      DualPassShrinks(g, mask, b, k + 1, n);
      LeTransitive(last, b, im);
    } else {
      assert DualPass(g, mask, im, k, n).image == b;
    }
  }

  /** Every directional build of the grid leaves the image unchanged. */
  ghost predicate BuildStable(g: Grid, mask: Image, im: Image)
    requires SameSize(mask, im)
  {
    forall d: nat :: 1 <= d <= Neighbors(g) ==> BuildImage(g, Transpose(d, g), mask, im) == im
  }

  ghost predicate DualStable(g: Grid, mask: Image, im: Image)
    requires SameSize(mask, im)
  {
    forall d: nat :: 1 <= d <= Neighbors(g) ==> DualImage(g, Transpose(d, g), mask, im, MaxValue(im.depth)) == im
  }

  /** A pass that comes back to its starting image (below the mask) went
      through that image at every step, so every direction it visited
      leaves the image unchanged. */
  lemma {:induction false} BuildPassFixed(g: Grid, mask: Image, im: Image, k: nat, n: nat)
    requires 1 <= k <= n && SameSize(mask, im) && Shaped(im.pix, im.width, im.height)
    requires Le(im, mask) && BuildPass(g, mask, im, k, n).image == im
    ensures forall d: nat :: k <= d <= n ==> BuildImage(g, Transpose(d, g), mask, im) == im
    decreases n - k
  {
    var b := BuildImage(g, Transpose(k, g), mask, im);
    BuildImageExtensive(g, Transpose(k, g), mask, im);
    if k < n {
      assert BuildPass(g, mask, im, k, n) == BuildPass(g, mask, b, k + 1, n);
      assert Le(b, im) by {
        BuildImageBelow(g, Transpose(k, g), mask, im);
        BuildPassExtensive(g, mask, b, k + 1, n);
      }
      assert b == im by {
        LeAntisymmetric(b, im);
      }
      BuildPassFixed(g, mask, im, k + 1, n);
    } else {
      assert b == im;
    }
  }

  lemma {:induction false} DualPassFixed(g: Grid, mask: Image, im: Image, k: nat, n: nat)
    requires 1 <= k <= n && SameSize(mask, im) && Shaped(im.pix, im.width, im.height)
    requires Le(mask, im) && DualPass(g, mask, im, k, n).image == im
    ensures forall d: nat :: k <= d <= n ==> DualImage(g, Transpose(d, g), mask, im, MaxValue(im.depth)) == im
    decreases n - k
  {
    var b := DualImage(g, Transpose(k, g), mask, im, MaxValue(im.depth));
    DualImageShrinks(g, Transpose(k, g), mask, im, MaxValue(im.depth));
    if k < n {
      assert DualPass(g, mask, im, k, n) == DualPass(g, mask, b, k + 1, n);
      assert Le(im, b) by {
        DualImageAbove(g, Transpose(k, g), mask, im, MaxValue(im.depth));
        DualPassShrinks(g, mask, b, k + 1, n);
      }
      assert b == im by {
        LeAntisymmetric(b, im);
      }
      DualPassFixed(g, mask, im, k + 1, n);
    } else {
      assert b == im;
    }
  }

  /** Rebuilding an all-zero germ leaves it all zero. */
  lemma {:induction false} BuildAtZero(g: Grid, t: int, mask: Image, germ: Image, x: int, y: int)
    requires SameSize(mask, germ) && Inside(mask, x, y)
    requires forall i, j :: Inside(germ, i, j) ==> Get(germ, i, j) == 0
    ensures BuildAt(g, t, mask, germ, x, y) == 0
    decreases Rank(g, t, mask.width, mask.height, x, y)
  {
    var s := Step(g, t, (x, y));
    assert Get(germ, x, y) == 0;
    if s != (x, y) && Inside(mask, s.0, s.1) {
      RankDecreases(g, t, mask.width, mask.height, x, y);
      BuildAtZero(g, t, mask, germ, s.0, s.1);
    }
  }

  /** An image of volume 0 has every pixel 0. */
  lemma VolumeZero(im: Image)
    requires Shaped(im.pix, im.width, im.height) && Volume(im) == 0
    ensures forall x, y :: Inside(im, x, y) ==> Get(im, x, y) == 0
  {
    var z := Make(im.width, im.height, im.depth, (x, y) => 0);
    VolumeMonotone(z, im);
  }

  /** An all-zero image below the mask is left unchanged by every build. */
  lemma ZeroBuildStable(g: Grid, mask: Image, im: Image)
    requires Valid(mask) && Valid(im) && SameSize(mask, im) && mask.depth == im.depth && Volume(im) == 0
    ensures BuildStable(g, mask, im)
  {
    VolumeZero(im);
    forall d: nat | 1 <= d <= Neighbors(g)
      ensures BuildImage(g, Transpose(d, g), mask, im) == im
    {
      var b := BuildImage(g, Transpose(d, g), mask, im);
      BuildImagePixels(g, Transpose(d, g), mask, im);
      forall x, y | Inside(b, x, y)
        ensures Get(b, x, y) == Get(im, x, y)
      {
        BuildAtZero(g, Transpose(d, g), mask, im, x, y);
      }
      Extensionality(b, im);
    }
  }

  // ---------------------------------------------------------------------
  // The reconstruction both algorithms compute

  /** Every in-image neighbour of every pixel holds at least the smaller of
      that pixel and its own mask: no propagation step can raise anything. */
  ghost predicate Propagated(mask: Image, g: Grid, im: Image)
  {
    forall x, y, d :: Inside(im, x, y) && 1 <= d <= Neighbors(g) && HierQueue.InsideP(im, Step(g, d, (x, y))) ==>
      HierQueue.At(im, Step(g, d, (x, y))) >= Min(Get(im, x, y), HierQueue.At(mask, Step(g, d, (x, y))))
  }

  /** A propagated image below the mask is a fixed point of the directional
      build from every direction t = Transpose(d): the upstream neighbour of
      each pixel is one step d away from it, so it cannot raise the pixel. */
  lemma {:induction false} PropagatedBuildAt(mask: Image, g: Grid, im: Image, d: nat, x: int, y: int)
    requires SameSize(mask, im) && Le(im, mask) && Propagated(mask, g, im)
    requires 1 <= d <= Neighbors(g) && Inside(mask, x, y)
    ensures BuildAt(g, Transpose(d, g), mask, im, x, y) == Get(im, x, y)
    decreases Rank(g, Transpose(d, g), mask.width, mask.height, x, y)
  {
    var t := Transpose(d, g);
    var s := Step(g, t, (x, y));
    assert Get(im, x, y) <= Get(mask, x, y);
    if s != (x, y) && Inside(mask, s.0, s.1) {
      RankDecreases(g, t, mask.width, mask.height, x, y);
      PropagatedBuildAt(mask, g, im, d, s.0, s.1);
      StepTranspose(g, t, (x, y));
      TransposeInvolution(d, g);
      assert Step(g, d, s) == (x, y);
      assert HierQueue.InsideP(im, Step(g, d, (s.0, s.1)));
    }
  }

  /** The partner of Propagated: every directional build of the geodesic
      reconstruction leaves a propagated image unchanged, so the result of
      the queue-driven flooding is a fixed point of build. */
  lemma PropagatedStable(mask: Image, g: Grid, im: Image)
    requires SameSize(mask, im) && Shaped(im.pix, im.width, im.height)
    requires Le(im, mask) && Propagated(mask, g, im)
    ensures BuildStable(g, mask, im)
  {
    forall d: nat | 1 <= d <= Neighbors(g)
      ensures BuildImage(g, Transpose(d, g), mask, im) == im
    {
      var b := BuildImage(g, Transpose(d, g), mask, im);
      BuildImagePixels(g, Transpose(d, g), mask, im);
      forall x, y | Inside(b, x, y)
        ensures Get(b, x, y) == Get(im, x, y)
      {
        PropagatedBuildAt(mask, g, im, d, x, y);
      }
      Extensionality(b, im);
    }
  }

  /** b holds at least min(germ, mask) at every pixel. */
  ghost predicate Covers(mask: Image, germ: Image, b: Image)
  {
    SameSize(b, germ)
    && forall x, y :: Inside(germ, x, y) ==> Min(Get(germ, x, y), Get(mask, x, y)) <= Get(b, x, y)
  }

  /** b is a candidate reconstruction of germ under mask: it covers
      min(germ, mask) and no propagation step could raise it. */
  ghost predicate Above(mask: Image, germ: Image, g: Grid, b: Image)
  {
    Covers(mask, germ, b) && Propagated(mask, g, b)
  }

  /** r is the geodesic reconstruction of germ under mask: the least
      candidate, below every other one. */
  ghost predicate IsReconstruction(mask: Image, germ: Image, g: Grid, r: Image)
  {
    Above(mask, germ, g, r) && forall b :: Above(mask, germ, g, b) ==> Le(r, b)
  }

  /** There is at most one reconstruction, so any two algorithms that each
      return one agree. */
  lemma ReconstructionUnique(mask: Image, germ: Image, g: Grid, a: Image, b: Image)
    requires Shaped(a.pix, a.width, a.height) && Shaped(b.pix, b.width, b.height) && a.depth == b.depth
    requires IsReconstruction(mask, germ, g, a) && IsReconstruction(mask, germ, g, b)
    ensures a == b
  {
    assert Le(a, b) && Le(b, a);
    LeAntisymmetric(a, b);
  }

  /** A candidate that lies below the mask lies below every other candidate
      of the same germ as well, once it is below them at min(., mask). */
  lemma CoveredBelow(mask: Image, im: Image, b: Image)
    requires SameSize(mask, im) && Le(im, mask) && Covers(mask, im, b)
    ensures Le(im, b)
  {
    forall x, y | Inside(im, x, y)
      ensures Get(im, x, y) <= Get(b, x, y)
    {
      assert Get(im, x, y) <= Get(mask, x, y);
      assert Min(Get(im, x, y), Get(mask, x, y)) <= Get(b, x, y);
    }
  }

  /** The directional build never passes a candidate: what flows in from
      upstream is already held by the candidate one step downstream. */
  lemma {:induction false} BuildAtUnder(g: Grid, d: nat, mask: Image, germ: Image, b: Image, x: int, y: int)
    requires SameSize(mask, germ) && Above(mask, germ, g, b)
    requires 1 <= d <= Neighbors(g) && Inside(mask, x, y)
    ensures BuildAt(g, Transpose(d, g), mask, germ, x, y) <= Get(b, x, y)
    decreases Rank(g, Transpose(d, g), mask.width, mask.height, x, y)
  {
    var t := Transpose(d, g);
    var s := Step(g, t, (x, y));
    assert Inside(germ, x, y) && Min(Get(germ, x, y), Get(mask, x, y)) <= Get(b, x, y);
    if s != (x, y) && Inside(mask, s.0, s.1) {
      RankDecreases(g, t, mask.width, mask.height, x, y);
      BuildAtUnder(g, d, mask, germ, b, s.0, s.1);
      StepTranspose(g, t, (x, y));
      TransposeInvolution(d, g);
      assert Step(g, d, s) == (x, y);
      assert Inside(b, s.0, s.1) && HierQueue.InsideP(b, Step(g, d, (s.0, s.1)));
      assert Get(b, x, y) >= Min(Get(b, s.0, s.1), Get(mask, x, y));
    }
  }

  /** Every candidate of the germ is a candidate of its directional build. */
  lemma BuildImageUnder(g: Grid, d: nat, mask: Image, germ: Image, b: Image)
    requires SameSize(mask, germ) && Above(mask, germ, g, b) && 1 <= d <= Neighbors(g)
    ensures Above(mask, BuildImage(g, Transpose(d, g), mask, germ), g, b)
  {
    var r := BuildImage(g, Transpose(d, g), mask, germ);
    BuildImagePixels(g, Transpose(d, g), mask, germ);
    forall x, y | Inside(r, x, y)
      ensures Min(Get(r, x, y), Get(mask, x, y)) <= Get(b, x, y)
    {
      BuildAtUnder(g, d, mask, germ, b, x, y);
    }
  }

  /** A pass of builds never passes a candidate of its starting image. */
  lemma {:induction false} BuildPassUnder(g: Grid, mask: Image, im: Image, b: Image, k: nat, n: nat)
    requires 1 <= k <= n <= Neighbors(g) && SameSize(mask, im) && Above(mask, im, g, b)
    ensures Above(mask, BuildPass(g, mask, im, k, n).image, g, b)
    decreases n - k
  {
    var c := BuildImage(g, Transpose(k, g), mask, im);
    BuildImageUnder(g, k, mask, im, b);
    if k < n {
      assert BuildPass(g, mask, im, k, n) == BuildPass(g, mask, c, k + 1, n);
      BuildPassUnder(g, mask, c, b, k + 1, n);
    } else {
      assert BuildPass(g, mask, im, k, n).image == c;
    }
  }

  /** Covering min(germ, mask) survives raising the image. */
  lemma CoversMonotone(mask: Image, germ: Image, a: Image, b: Image)
    requires Covers(mask, germ, a) && Le(a, b)
    ensures Covers(mask, germ, b)
  {
    forall x, y | Inside(germ, x, y)
      ensures Min(Get(germ, x, y), Get(mask, x, y)) <= Get(b, x, y)
    {
      assert Inside(a, x, y) && Get(a, x, y) <= Get(b, x, y);
    }
  }

  /** A directional build covers min(germ, mask). */
  lemma BuildImageCovers(g: Grid, t: int, mask: Image, germ: Image)
    requires SameSize(mask, germ)
    ensures Covers(mask, germ, BuildImage(g, t, mask, germ))
  {
    var c := BuildImage(g, t, mask, germ);
    BuildImagePixels(g, t, mask, germ);
    forall x, y | Inside(germ, x, y)
      ensures Min(Get(germ, x, y), Get(mask, x, y)) <= Get(c, x, y)
    {
      assert Get(c, x, y) == BuildAt(g, t, mask, germ, x, y);
    }
  }

  /** A pass of builds covers min(start, mask), whatever the start. */
  lemma BuildPassCovers(g: Grid, mask: Image, im: Image, k: nat, n: nat)
    requires 1 <= k <= n && SameSize(mask, im)
    ensures Covers(mask, im, BuildPass(g, mask, im, k, n).image)
  {
    var c := BuildImage(g, Transpose(k, g), mask, im);
    BuildImageCovers(g, Transpose(k, g), mask, im);
    if k < n {
      var last := BuildPass(g, mask, c, k + 1, n).image;
      assert BuildPass(g, mask, im, k, n).image == last;
      BuildImageBelow(g, Transpose(k, g), mask, im);
      BuildPassExtensive(g, mask, c, k + 1, n);
      CoversMonotone(mask, im, c, last);
    } else {
      assert BuildPass(g, mask, im, k, n).image == c;
    }
  }

  /** The converse of PropagatedStable: an image no directional build
      changes is propagated, since along every direction d the pixel one
      step on is rebuilt from it. */
  lemma BuildStablePropagated(g: Grid, mask: Image, im: Image)
    requires SameSize(mask, im) && BuildStable(g, mask, im)
    ensures Propagated(mask, g, im)
  {
    forall x, y, d | Inside(im, x, y) && 1 <= d <= Neighbors(g) && HierQueue.InsideP(im, Step(g, d, (x, y)))
      ensures HierQueue.At(im, Step(g, d, (x, y))) >= Min(Get(im, x, y), HierQueue.At(mask, Step(g, d, (x, y))))
    {
      var t := Transpose(d, g);
      var m := Step(g, d, (x, y));
      StepTranspose(g, d, (x, y));
      assert BuildImage(g, t, mask, im) == im;
      BuildImagePixels(g, t, mask, im);
      assert Get(im, m.0, m.1) == BuildAt(g, t, mask, im, m.0, m.1);
      if m != (x, y) {
        assert Get(im, x, y) == BuildAt(g, t, mask, im, x, y);
      }
    }
  }

  // ---------------------------------------------------------------------
  // build, dualBuild

  /** The state of geodesy.build between two passes: prec_vol is -1 before
      the first pass; afterwards the image lies below the mask, covers
      min(inout, mask) and stays below every candidate, the volumes only
      grow, and equal volumes mean no directional build changes anything. */
  ghost predicate Building(mask: Image, inout: Image, g: Grid, cur: Image, vol: int, prec: int)
  {
    Valid(mask) && Valid(inout) && SameSize(mask, inout) && mask.depth == inout.depth
    && Valid(cur) && SameSize(cur, inout) && cur.depth == inout.depth
    && (prec == -1 ==> vol == 0 && cur == inout)
    && (prec != -1 ==> Le(cur, mask) && vol == Volume(cur) && 0 <= prec <= vol <= Volume(mask))
    && (prec != -1 ==> Covers(mask, inout, cur))
    && (prec != -1 && prec == vol ==> BuildStable(g, mask, cur))
    && (Le(inout, mask) ==> Le(inout, cur))
    && (forall b :: Above(mask, inout, g, b) ==> Above(mask, cur, g, b))
  }

  /** One pass of builds over every direction keeps the loop state. */
  lemma BuildStep(mask: Image, inout: Image, g: Grid, cur: Image, vol: int, prec: int)
    requires Building(mask, inout, g, cur, vol, prec) && prec != vol
    ensures Building(mask, inout, g, BuildPass(g, mask, cur, 1, Neighbors(g)).image, BuildPass(g, mask, cur, 1, Neighbors(g)).volume, vol)
  {
    var n := Neighbors(g);
    var pass := BuildPass(g, mask, cur, 1, n);
    forall b | Above(mask, inout, g, b)
      ensures Above(mask, pass.image, g, b)
    {
      BuildPassUnder(g, mask, cur, b, 1, n);
    }
    BuildPassBounded(g, mask, cur, 1, n);
    VolumeMonotone(pass.image, mask);
    if prec != -1 || Le(inout, mask) {
      BuildPassExtensive(g, mask, cur, 1, n);
      if Le(inout, mask) {
        LeTransitive(inout, cur, pass.image);
      }
    }
    if prec == -1 {
      BuildPassCovers(g, mask, cur, 1, n);
      if pass.volume == 0 {
        ZeroBuildStable(g, mask, pass.image);
      }
    } else {
      CoversMonotone(mask, inout, cur, pass.image);
      VolumeMonotone(cur, pass.image);
      if Volume(cur) == pass.volume {
        BuildPassFixed(g, mask, cur, 1, n);
      }
    }
  }

  /** When two passes end with the same volume the image is the
      reconstruction. */
  lemma BuildDone(mask: Image, inout: Image, g: Grid, cur: Image, vol: int)
    requires Building(mask, inout, g, cur, vol, vol)
    ensures Le(cur, mask) && BuildStable(g, mask, cur)
    ensures IsReconstruction(mask, inout, g, cur)
  {
    BuildStablePropagated(g, mask, cur);
    forall b | Above(mask, inout, g, b)
      ensures Le(cur, b)
    {
      CoveredBelow(mask, cur, b);
    }
  }

  /** geodesy.build: repeat a pass of directional builds over directions
      1..N until two passes in a row end with the same volume.  The result
      is the geodesic reconstruction of inout under the mask: the least
      image covering min(inout, mask) that no directional build can raise;
      it lies below the mask and above inout when inout was below the mask. */
  method Build(mask: Image, inout: Image, g: Grid) returns (r: PyResult<Image>)
    requires Valid(mask) && Valid(inout)
    ensures r.Raised? <==> !(SameSize(mask, inout) && mask.depth == inout.depth)
    ensures r.Raised? ==> r.exc == MambaError(if SameSize(mask, inout) then BadDepth else BadSize)
    ensures r.PyOk? ==> Valid(r.value) && SameSize(r.value, inout) && r.value.depth == inout.depth
    ensures r.PyOk? ==> Le(r.value, mask)
    ensures r.PyOk? && Le(inout, mask) ==> Le(inout, r.value)
    ensures r.PyOk? ==> BuildStable(g, mask, r.value)
    ensures r.PyOk? ==> IsReconstruction(mask, inout, g, r.value)
  {
    var first := BuildNeighbor(mask, inout, 1, g);
    if first.Raised? {
      return Raised(first.exc);
    }
    var n := Neighbors(g);
    var cur := inout;
    var vol: int := 0;
    var prec: int := -1;
    while prec != vol
      invariant Building(mask, inout, g, cur, vol, prec)
      decreases Volume(mask) - prec
    {
      BuildStep(mask, inout, g, cur, vol, prec);
      var pass := BuildPass(g, mask, cur, 1, n);
      prec := vol;
      vol := pass.volume;
      cur := pass.image;
    }
    BuildDone(mask, inout, g, cur, vol);
    return PyOk(cur);
  }

  // ---------------------------------------------------------------------
  // The dual reconstruction

  /** The dual of Propagated: every in-image neighbour of every pixel holds
      at most the larger of that pixel and its own mask, so no dual
      propagation step could lower anything. */
  ghost predicate DualPropagated(mask: Image, g: Grid, im: Image)
  {
    forall x, y, d :: Inside(im, x, y) && 1 <= d <= Neighbors(g) && HierQueue.InsideP(im, Step(g, d, (x, y))) ==>
      HierQueue.At(im, Step(g, d, (x, y))) <= Max(Get(im, x, y), HierQueue.At(mask, Step(g, d, (x, y))))
  }

  /** b holds at most max(germ, mask) at every pixel. */
  ghost predicate Within(mask: Image, germ: Image, b: Image)
  {
    SameSize(b, germ)
    && forall x, y :: Inside(germ, x, y) ==> Get(b, x, y) <= Max(Get(germ, x, y), Get(mask, x, y))
  }

  /** b is a candidate dual reconstruction of germ over mask. */
  ghost predicate Under(mask: Image, germ: Image, g: Grid, b: Image)
  {
    Within(mask, germ, b) && DualPropagated(mask, g, b)
  }

  /** r is the dual geodesic reconstruction of germ over mask: the greatest
      candidate, above every other one. */
  ghost predicate IsDualReconstruction(mask: Image, germ: Image, g: Grid, r: Image)
  {
    Under(mask, germ, g, r) && forall b :: Under(mask, germ, g, b) ==> Le(b, r)
  }

  /** There is at most one dual reconstruction. */
  lemma DualReconstructionUnique(mask: Image, germ: Image, g: Grid, a: Image, b: Image)
    requires Shaped(a.pix, a.width, a.height) && Shaped(b.pix, b.width, b.height) && a.depth == b.depth
    requires IsDualReconstruction(mask, germ, g, a) && IsDualReconstruction(mask, germ, g, b)
    ensures a == b
  {
    assert Le(a, b) && Le(b, a);
    LeAntisymmetric(a, b);
  }

  /** An image above the mask lies above every candidate it bounds. */
  lemma WithinAbove(mask: Image, im: Image, b: Image)
    requires SameSize(mask, im) && Le(mask, im) && Within(mask, im, b)
    ensures Le(b, im)
  {
    forall x, y | Inside(b, x, y)
      ensures Get(b, x, y) <= Get(im, x, y)
    {
      assert Inside(im, x, y) && Get(mask, x, y) <= Get(im, x, y);
    }
  }

  /** Staying within max(germ, mask) survives lowering the image. */
  lemma WithinMonotone(mask: Image, germ: Image, a: Image, b: Image)
    requires Within(mask, germ, a) && Le(b, a)
    ensures Within(mask, germ, b)
  {
    forall x, y | Inside(germ, x, y)
      ensures Get(b, x, y) <= Max(Get(germ, x, y), Get(mask, x, y))
    {
      assert Inside(b, x, y) && Get(b, x, y) <= Get(a, x, y);
    }
  }

  /** No pixel of b exceeds top. */
  ghost predicate Capped(b: Image, top: nat)
  {
    forall x, y :: Inside(b, x, y) ==> Get(b, x, y) <= top
  }

  /** A candidate over valid images holds no more than the largest value of
      their depth. */
  lemma WithinCapped(mask: Image, germ: Image, b: Image)
    requires Valid(mask) && Valid(germ) && SameSize(mask, germ) && mask.depth == germ.depth
    requires Within(mask, germ, b)
    ensures Capped(b, MaxValue(germ.depth))
  {
    forall x, y | Inside(b, x, y)
      ensures Get(b, x, y) <= MaxValue(germ.depth)
    {
      assert Inside(germ, x, y);
      PixelBound(germ, x, y);
      PixelBound(mask, x, y);
    }
  }

  /** The dual directional build never drops below a candidate: a candidate
      holds no more than what flows down from upstream allows. */
  lemma {:induction false} DualAtOver(g: Grid, d: nat, mask: Image, germ: Image, b: Image, top: nat, x: int, y: int)
    requires SameSize(mask, germ) && Under(mask, germ, g, b) && Capped(b, top)
    requires 1 <= d <= Neighbors(g) && Inside(mask, x, y)
    ensures Get(b, x, y) <= DualAt(g, Transpose(d, g), mask, germ, top, x, y)
    decreases Rank(g, Transpose(d, g), mask.width, mask.height, x, y)
  {
    var t := Transpose(d, g);
    var s := Step(g, t, (x, y));
    assert Inside(germ, x, y) && Inside(b, x, y) && Get(b, x, y) <= Max(Get(germ, x, y), Get(mask, x, y));
    if s != (x, y) && Inside(mask, s.0, s.1) {
      RankDecreases(g, t, mask.width, mask.height, x, y);
      DualAtOver(g, d, mask, germ, b, top, s.0, s.1);
      StepTranspose(g, t, (x, y));
      TransposeInvolution(d, g);
      assert Step(g, d, s) == (x, y);
      assert Inside(b, s.0, s.1) && HierQueue.InsideP(b, Step(g, d, (s.0, s.1)));
      assert Get(b, x, y) <= Max(Get(b, s.0, s.1), Get(mask, x, y));
    }
  }

  /** Every candidate of the germ is a candidate of its dual directional
      build. */
  lemma DualImageOver(g: Grid, d: nat, mask: Image, germ: Image, b: Image, top: nat)
    requires SameSize(mask, germ) && Under(mask, germ, g, b) && Capped(b, top) && 1 <= d <= Neighbors(g)
    ensures Under(mask, DualImage(g, Transpose(d, g), mask, germ, top), g, b)
  {
    var r := DualImage(g, Transpose(d, g), mask, germ, top);
    DualImagePixels(g, Transpose(d, g), mask, germ, top);
    forall x, y | Inside(r, x, y)
      ensures Get(b, x, y) <= Max(Get(r, x, y), Get(mask, x, y))
    {
      DualAtOver(g, d, mask, germ, b, top, x, y);
    }
  }

  /** A pass of dual builds never drops below a candidate of its start
      (top is the largest value of the image's depth). */
  lemma {:induction false} DualPassOver(g: Grid, mask: Image, im: Image, b: Image, top: nat, k: nat, n: nat)
    requires 1 <= k <= n <= Neighbors(g) && SameSize(mask, im) && top == MaxValue(im.depth)
    requires Under(mask, im, g, b) && Capped(b, top)
    ensures Under(mask, DualPass(g, mask, im, k, n).image, g, b)
    decreases n - k
  {
    var c := DualImage(g, Transpose(k, g), mask, im, top);
    DualImageOver(g, k, mask, im, b, top);
    if k < n {
      assert DualPass(g, mask, im, k, n) == DualPass(g, mask, c, k + 1, n);
      DualPassOver(g, mask, c, b, top, k + 1, n);
    } else {
      assert DualPass(g, mask, im, k, n).image == c;
    }
  }

  /** A dual directional build stays within max(germ, mask). */
  lemma DualImageWithin(g: Grid, t: int, mask: Image, germ: Image, top: nat)
    requires SameSize(mask, germ)
    ensures Within(mask, germ, DualImage(g, t, mask, germ, top))
  {
    var c := DualImage(g, t, mask, germ, top);
    DualImagePixels(g, t, mask, germ, top);
    forall x, y | Inside(germ, x, y)
      ensures Get(c, x, y) <= Max(Get(germ, x, y), Get(mask, x, y))
    {
      assert Get(c, x, y) == DualAt(g, t, mask, germ, top, x, y);
    }
  }

  /** A pass of dual builds stays within max(start, mask), whatever the
      start. */
  lemma DualPassWithin(g: Grid, mask: Image, im: Image, k: nat, n: nat)
    requires 1 <= k <= n && SameSize(mask, im)
    ensures Within(mask, im, DualPass(g, mask, im, k, n).image)
  {
    var c := DualImage(g, Transpose(k, g), mask, im, MaxValue(im.depth));
    DualImageWithin(g, Transpose(k, g), mask, im, MaxValue(im.depth));
    if k < n {
      var last := DualPass(g, mask, c, k + 1, n).image;
      assert DualPass(g, mask, im, k, n).image == last;
      DualImageAbove(g, Transpose(k, g), mask, im, MaxValue(im.depth));
      DualPassShrinks(g, mask, c, k + 1, n);
      WithinMonotone(mask, im, c, last);
    } else {
      assert DualPass(g, mask, im, k, n).image == c;
    }
  }

  /** An image no dual directional build changes is dual-propagated. */
  lemma DualStablePropagated(g: Grid, mask: Image, im: Image)
    requires SameSize(mask, im) && DualStable(g, mask, im)
    ensures DualPropagated(mask, g, im)
  {
    forall x, y, d | Inside(im, x, y) && 1 <= d <= Neighbors(g) && HierQueue.InsideP(im, Step(g, d, (x, y)))
      ensures HierQueue.At(im, Step(g, d, (x, y))) <= Max(Get(im, x, y), HierQueue.At(mask, Step(g, d, (x, y))))
    {
      var t := Transpose(d, g);
      var m := Step(g, d, (x, y));
      var top := MaxValue(im.depth);
      StepTranspose(g, d, (x, y));
      assert DualImage(g, t, mask, im, top) == im;
      DualImagePixels(g, t, mask, im, top);
      assert Get(im, m.0, m.1) == DualAt(g, t, mask, im, top, m.0, m.1);
      if m != (x, y) {
        assert Get(im, x, y) == DualAt(g, t, mask, im, top, x, y);
      }
    }
  }

  /** An all-zero image above the mask (so the mask is all zero too) is left
      unchanged by every dual build. */
  lemma ZeroDualStable(g: Grid, mask: Image, im: Image)
    requires Valid(mask) && Valid(im) && SameSize(mask, im) && mask.depth == im.depth
    requires Le(mask, im) && Volume(im) == 0
    ensures DualStable(g, mask, im)
  {
    VolumeZero(im);
    forall d: nat | 1 <= d <= Neighbors(g)
      ensures DualImage(g, Transpose(d, g), mask, im, MaxValue(im.depth)) == im
    {
      var b := DualImage(g, Transpose(d, g), mask, im, MaxValue(im.depth));
      DualImagePixels(g, Transpose(d, g), mask, im, MaxValue(im.depth));
      forall x, y | Inside(b, x, y)
        ensures Get(b, x, y) == Get(im, x, y)
      {
        assert Inside(im, x, y) && Get(mask, x, y) <= Get(im, x, y) == 0;
      }
      Extensionality(b, im);
    }
  }

  /** The state of geodesy.dualBuild between two passes: `passes` counts
      the passes made.  The first pass starts from prec_vol = 0 and may raise
      the volume; from the second pass on the volume can only go down.
      After a pass the image lies above the mask, within max(inout, mask)
      and above every candidate, and equal volumes mean no dual directional
      build changes anything. */
  ghost predicate DualBuilding(mask: Image, inout: Image, g: Grid, cur: Image, vol: int, prec: int, passes: nat)
  {
    Valid(mask) && Valid(inout) && SameSize(mask, inout) && mask.depth == inout.depth
    && Valid(cur) && SameSize(cur, inout) && cur.depth == inout.depth
    && (passes == 0 ==> prec == -1 && vol == 0 && cur == inout)
    && (passes == 1 ==> prec == 0)
    && (passes >= 1 ==> Le(mask, cur) && vol == Volume(cur) && 0 <= prec && Within(mask, inout, cur))
    && (passes >= 2 ==> vol <= prec)
    && (passes >= 1 && prec == vol ==> DualStable(g, mask, cur))
    && (Le(mask, inout) ==> Le(cur, inout))
    && (forall b :: Under(mask, inout, g, b) ==> Under(mask, cur, g, b))
  }

  /** One pass of dual builds over every direction keeps the loop state. */
  lemma DualStep(mask: Image, inout: Image, g: Grid, cur: Image, vol: int, prec: int, passes: nat)
    requires DualBuilding(mask, inout, g, cur, vol, prec, passes) && prec != vol
    ensures DualBuilding(mask, inout, g, DualPass(g, mask, cur, 1, Neighbors(g)).image,
                         DualPass(g, mask, cur, 1, Neighbors(g)).volume, vol, passes + 1)
  {
    var n := Neighbors(g);
    var pass := DualPass(g, mask, cur, 1, n);
    forall b | Under(mask, inout, g, b)
      ensures Under(mask, pass.image, g, b)
    {
      WithinCapped(mask, inout, b);
      DualPassOver(g, mask, cur, b, MaxValue(cur.depth), 1, n);
    }
    DualPassBounded(g, mask, cur, 1, n);
    if passes >= 1 || Le(mask, inout) {
      DualPassShrinks(g, mask, cur, 1, n);
      if Le(mask, inout) {
        LeTransitive(pass.image, cur, inout);
      }
    }
    if passes == 0 {
      DualPassWithin(g, mask, cur, 1, n);
      if pass.volume == 0 {
        ZeroDualStable(g, mask, pass.image);
      }
    } else {
      WithinMonotone(mask, inout, cur, pass.image);
      VolumeMonotone(pass.image, cur);
      if Volume(cur) == pass.volume {
        DualPassFixed(g, mask, cur, 1, n);
      }
    }
  }

  /** When two passes end with the same volume the image is the dual
      reconstruction. */
  lemma DualDone(mask: Image, inout: Image, g: Grid, cur: Image, vol: int, passes: nat)
    requires DualBuilding(mask, inout, g, cur, vol, vol, passes)
    ensures Le(mask, cur) && DualStable(g, mask, cur)
    ensures IsDualReconstruction(mask, inout, g, cur)
  {
    DualStablePropagated(g, mask, cur);
    forall b | Under(mask, inout, g, b)
      ensures Le(b, cur)
    {
      WithinAbove(mask, cur, b);
    }
  }

  /** geodesy.dualBuild: repeat a pass of dual directional builds over
      directions 1..N until two passes in a row end with the same volume.
      The result is the dual geodesic reconstruction of inout over the mask:
      the greatest image within max(inout, mask) that no dual directional
      build can lower; it lies above the mask and below inout when inout was
      above the mask. */
  method DualBuild(mask: Image, inout: Image, g: Grid) returns (r: PyResult<Image>)
    requires Valid(mask) && Valid(inout)
    ensures r.Raised? <==> !(SameSize(mask, inout) && mask.depth == inout.depth)
    ensures r.Raised? ==> r.exc == MambaError(if SameSize(mask, inout) then BadDepth else BadSize)
    ensures r.PyOk? ==> Valid(r.value) && SameSize(r.value, inout) && r.value.depth == inout.depth
    ensures r.PyOk? ==> Le(mask, r.value)
    ensures r.PyOk? && Le(mask, inout) ==> Le(r.value, inout)
    ensures r.PyOk? ==> DualStable(g, mask, r.value)
    ensures r.PyOk? ==> IsDualReconstruction(mask, inout, g, r.value)
  {
    var first := DualBuildNeighbor(mask, inout, 1, g);
    if first.Raised? {
      return Raised(first.exc);
    }
    var n := Neighbors(g);
    var cur := inout;
    var vol: int := 0;
    var prec: int := -1;
    var passes: nat := 0;
    while prec != vol
      invariant DualBuilding(mask, inout, g, cur, vol, prec, passes)
      decreases 2 - Min(passes, 2), prec + 1
    {
      DualStep(mask, inout, g, cur, vol, prec, passes);
      var pass := DualPass(g, mask, cur, 1, n);
      prec := vol;
      vol := pass.volume;
      cur := pass.image;
      passes := passes + 1;
    }
    DualDone(mask, inout, g, cur, vol, passes);
    return PyOk(cur);
  }
}
