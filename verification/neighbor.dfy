// Neighbour operators of the C core: every pixel of the in/out image is
// combined with the neighbour, in one direction, of the same pixel of the
// source image; pixels beyond the frame read the edge value.  Also the far
// neighbours, the shifts, the binary hit-or-miss transform and the
// one-direction geodesic builds.

module Neighbors {
  import opened Common
  import opened Images
  import opened Directions
  import opened Pointwise

  // ---------------------------------------------------------------------
  // The routine table of MB_Neighbor.c

  /** A line routine: QComp(k) processes square direction k, HComp(k) the
      hexagonal direction k whose lines alternate, Stub does nothing. */
  datatype Routine = QComp(k: nat) | HComp(k: nat) | Stub

  /** SwitchTo[grid][direction]. */
  function SwitchTo(g: Grid, d: nat): (rt: Routine)
    requires d <= 8
  {
    if g == Square then QComp(d)
    else [QComp(0), HComp(1), QComp(3), HComp(3), HComp(4), QComp(7), HComp(6), Stub, Stub][d]
  }

  /** Where a routine reads its source for a pixel of line y, written from the
      line kernels it is made of: the line above (bottom-up routines), the
      same line or the line below, shifted left (COMP_LINE_LEFT reads x+1),
      shifted right (COMP_LINE_RIGHT reads x-1) or not shifted.  The
      hexagonal routines alternate the shift with the parity of the line. */
  function RoutineOffset(rt: Routine, y: int): (o: (int, int))
  {
    match rt
    case QComp(k) =>
      var dy := if k == 1 || k == 2 || k == 8 then -1 else if k == 4 || k == 5 || k == 6 then 1 else 0;
      var dx := if k == 2 || k == 3 || k == 4 then 1 else if k == 6 || k == 7 || k == 8 then -1 else 0;
      (dx, dy)
    case HComp(k) =>
      if k == 1 then (if y % 2 == 1 then 1 else 0, -1)
      else if k == 3 then (if y % 2 == 1 then 1 else 0, 1)
      else if k == 4 then (if y % 2 == 0 then -1 else 0, 1)
      else if k == 6 then (if y % 2 == 0 then -1 else 0, -1)
      else (0, 0)
    case Stub => (0, 0)
  }

  /** The table agrees with the direction offsets: for every direction the
      direction check admits, the routine reads exactly the neighbour in that
      direction, and the do-nothing stub is never reached. */
  lemma SwitchToMatchesOffsets(g: Grid, d: nat, y: int)
    requires DirectionOk(g, d)
    ensures SwitchTo(g, d) != Stub
    ensures RoutineOffset(SwitchTo(g, d), y) == Offset(g, d, y)
  {
  }

  // ---------------------------------------------------------------------
  // One pass, several passes

  /** How a routine combines the in/out pixel with the neighbour value:
      the maximum (MB_SupNbb, OR), the minimum (MB_InfNb8, AND) or the
      difference (MB_DiffNbb, AND NOT). */
  datatype Combiner = SupOp | InfOp | DiffOp

  function Combine(op: Combiner, a: nat, b: nat): (r: nat)
    ensures r == a || r == b || r == 0
    ensures op == SupOp ==> r >= a && r >= b
    ensures op != SupOp ==> r <= a
  {
    match op
    case SupOp => BinOr(a, b)
    case InfOp => BinAnd(a, b)
    case DiffOp => DiffValue(a, b)
  }

  /** The value of the neighbour in direction d of pixel (x, y) of src, the
      edge value beyond the frame. */
  function NbValue(src: Image, g: Grid, d: int, x: int, y: int, fill: nat): (v: nat)
    ensures Inside(src, Step(g, d, (x, y)).0, Step(g, d, (x, y)).1) ==> v == Get(src, Step(g, d, (x, y)).0, Step(g, d, (x, y)).1)
    ensures !Inside(src, Step(g, d, (x, y)).0, Step(g, d, (x, y)).1) ==> v == fill
  {
    var q := Step(g, d, (x, y));
    Read(src, q.0, q.1, fill)
  }

  /** One pass of a routine: every pixel of `inout` combined with its
      neighbour in `src`, all pixels at once. */
  function Pass(op: Combiner, g: Grid, d: int, inout: Image, src: Image, fill: nat): (r: Image)
    ensures r.width == inout.width && r.height == inout.height && r.depth == inout.depth
    ensures Shaped(r.pix, inout.width, inout.height)
    ensures forall x, y :: Inside(inout, x, y) ==>
              Get(r, x, y) == Combine(op, Get(inout, x, y), NbValue(src, g, d, x, y, fill))
  {
    Make(inout.width, inout.height, inout.depth, (x, y) => Combine(op, Get(inout, x, y), NbValue(src, g, d, x, y, fill)))
  }

  /** A pass keeps the image valid when the source and the edge value are
      within the depth of the in/out image. */
  lemma PassValid(op: Combiner, g: Grid, d: int, inout: Image, src: Image, fill: nat)
    requires Valid(inout) && Valid(src) && SameSize(inout, src) && src.depth == inout.depth
    requires fill <= MaxValue(inout.depth)
    ensures Valid(Pass(op, g, d, inout, src, fill))
  {
    var r := Pass(op, g, d, inout, src, fill);
    forall y, x | 0 <= y < r.height && 0 <= x < r.width
      ensures r.pix[y][x] <= MaxValue(r.depth)
    {
      assert Inside(inout, x, y);
      assert Get(r, x, y) == r.pix[y][x];
    }
  }

  /** `n` passes; the first reads `src`, the later ones read the image being
      computed (the routines reset their source to the in/out lines). */
  function Passes(op: Combiner, g: Grid, d: int, inout: Image, src: Image, fill: nat, n: nat): (r: Image)
    ensures r.width == inout.width && r.height == inout.height && r.depth == inout.depth
    ensures n > 0 || r == inout
    ensures n > 0 ==> Shaped(r.pix, inout.width, inout.height)
    decreases n
  {
    if n == 0 then inout
    else
      var p := Pass(op, g, d, inout, src, fill);
      Passes(op, g, d, p, p, fill, n - 1)
  }

  lemma {:induction false} PassesValid(op: Combiner, g: Grid, d: int, inout: Image, src: Image, fill: nat, n: nat)
    requires Valid(inout) && Valid(src) && SameSize(inout, src) && src.depth == inout.depth
    requires fill <= MaxValue(inout.depth)
    ensures Valid(Passes(op, g, d, inout, src, fill, n))
    decreases n
  {
    if n > 0 {
      var p := Pass(op, g, d, inout, src, fill);
      PassValid(op, g, d, inout, src, fill);
      PassesValid(op, g, d, p, p, fill, n - 1);
    }
  }

  // ---------------------------------------------------------------------
  // MB_SupNbb, MB_InfNb8, MB_DiffNbb

  /** The depth pairs of two images of the same depth. */
  predicate SameDepthPair(pair: nat)
  {
    pair == Pair1x1 || pair == Pair8x8 || pair == Pair32x32
  }

  /** The common shape of the neighbour operators: size, direction and
      depth-pair checks; when the source is not the in/out image the count
      is forced to 1; the centre routine makes exactly one pass whatever
      the count.  `aliased` says that src and srcdest are the same image. */
  function NeighborOp(op: Combiner, pair: nat, src: Image, srcdest: Image, aliased: bool,
                      d: nat, count: nat, g: Grid, e: Edge): (r: Result<Image>)
    requires Valid(src) && Valid(srcdest) && (aliased ==> src == srcdest)
    requires SameDepthPair(pair)
    ensures !SameSize(src, srcdest) ==> r == Fail(BadSize)
    ensures SameSize(src, srcdest) && !DirectionOk(g, d) ==> r == Fail(BadDirection)
    ensures SameSize(src, srcdest) && DirectionOk(g, d) ==> (r.Ok? <==> Probe(src, srcdest) == pair)
    ensures SameSize(src, srcdest) && DirectionOk(g, d) && r.Fail? ==> r.error == BadDepth
    ensures r.Ok? ==> r.value.width == srcdest.width && r.value.height == srcdest.height
                      && r.value.depth == srcdest.depth && Valid(r.value)
    ensures r.Ok? && (d == 0 || !aliased || count == 1) ==> r.value == Pass(op, g, d, srcdest, src, FillValue(src.depth, e))
  {
    if !SameSize(src, srcdest) then Fail(BadSize)
    else if !DirectionOk(g, d) then Fail(BadDirection)
    else if Probe(src, srcdest) != pair then Fail(BadDepth)
    else
      var fill := FillValue(src.depth, e);
      var n := if d == 0 || !aliased then 1 else count;
      ProbeDepths(src, srcdest);
      PassesValid(op, g, d, srcdest, src, fill, n);
      assert n == 1 ==> Passes(op, g, d, srcdest, src, fill, n) == Pass(op, g, d, srcdest, src, fill);
      Ok(Passes(op, g, d, srcdest, src, fill, n))
  }

  /** MB_SupNbb: OR of each binary pixel with its neighbour. */
  function SupNbb(src: Image, srcdest: Image, aliased: bool, d: nat, count: nat, g: Grid, e: Edge): (r: Result<Image>)
    requires Valid(src) && Valid(srcdest) && (aliased ==> src == srcdest)
    ensures SameSize(src, srcdest) && DirectionOk(g, d) ==>
              (r.Ok? <==> src.depth == 1 && srcdest.depth == 1)
    ensures r.Ok? ==> Valid(r.value) && SameSize(r.value, srcdest) && r.value.depth == 1
    ensures r.Ok? ==> forall x, y :: Inside(srcdest, x, y) ==> Get(r.value, x, y) >= Get(srcdest, x, y)
    ensures r.Ok? && (d == 0 || !aliased || count == 1) ==> forall x, y :: Inside(srcdest, x, y) ==>
              (Get(r.value, x, y) == 1 <==> Get(srcdest, x, y) == 1 || NbValue(src, g, d, x, y, FillValue(1, e)) == 1)
  {
    ProbeDepths(src, srcdest);
    var r := NeighborOp(SupOp, Pair1x1, src, srcdest, aliased, d, count, g, e);
    PassesExtensive(g, d, srcdest, src, FillValue(src.depth, e), if d == 0 || !aliased then 1 else count);
    r
  }

  /** MB_InfNb8: minimum of each byte pixel with its neighbour. */
  function InfNb8(src: Image, srcdest: Image, aliased: bool, d: nat, count: nat, g: Grid, e: Edge): (r: Result<Image>)
    requires Valid(src) && Valid(srcdest) && (aliased ==> src == srcdest)
    ensures SameSize(src, srcdest) && DirectionOk(g, d) ==>
              (r.Ok? <==> src.depth == 8 && srcdest.depth == 8)
    ensures r.Ok? ==> Valid(r.value) && SameSize(r.value, srcdest) && r.value.depth == 8
    ensures r.Ok? ==> forall x, y :: Inside(srcdest, x, y) ==> Get(r.value, x, y) <= Get(srcdest, x, y)
    ensures r.Ok? && (d == 0 || !aliased || count == 1) ==> forall x, y :: Inside(srcdest, x, y) ==>
              Get(r.value, x, y) == Min(Get(srcdest, x, y), NbValue(src, g, d, x, y, FillValue(8, e)))
  {
    ProbeDepths(src, srcdest);
    var r := NeighborOp(InfOp, Pair8x8, src, srcdest, aliased, d, count, g, e);
    PassesShrink(InfOp, g, d, srcdest, src, FillValue(src.depth, e), if d == 0 || !aliased then 1 else count);
    r
  }

  /** MB_InfNbb: the binary minimum.  Its file is not part of this model; it
      is taken to have the shape of MB_InfNb8 with the binary depth pair (it
      is called that way by MB_BinHitOrMiss). */
  function InfNbb(src: Image, srcdest: Image, aliased: bool, d: nat, count: nat, g: Grid, e: Edge): (r: Result<Image>)
    requires Valid(src) && Valid(srcdest) && (aliased ==> src == srcdest)
    ensures SameSize(src, srcdest) && DirectionOk(g, d) ==>
              (r.Ok? <==> src.depth == 1 && srcdest.depth == 1)
    ensures r.Ok? ==> Valid(r.value) && SameSize(r.value, srcdest) && r.value.depth == 1
    ensures r.Ok? ==> forall x, y :: Inside(srcdest, x, y) ==> Get(r.value, x, y) <= Get(srcdest, x, y)
    ensures r.Ok? && (d == 0 || !aliased || count == 1) ==> forall x, y :: Inside(srcdest, x, y) ==>
              (Get(r.value, x, y) == 1 <==> Get(srcdest, x, y) == 1 && NbValue(src, g, d, x, y, FillValue(1, e)) == 1)
  {
    ProbeDepths(src, srcdest);
    var r := NeighborOp(InfOp, Pair1x1, src, srcdest, aliased, d, count, g, e);
    PassesShrink(InfOp, g, d, srcdest, src, FillValue(src.depth, e), if d == 0 || !aliased then 1 else count);
    r
  }

  /** MB_DiffNbb: each binary pixel AND NOT its neighbour, in one pass (the
      operator takes no count). */
  function DiffNbb(src: Image, srcdest: Image, aliased: bool, d: nat, g: Grid, e: Edge): (r: Result<Image>)
    requires Valid(src) && Valid(srcdest) && (aliased ==> src == srcdest)
    ensures SameSize(src, srcdest) && DirectionOk(g, d) ==>
              (r.Ok? <==> src.depth == 1 && srcdest.depth == 1)
    ensures r.Ok? ==> Valid(r.value) && SameSize(r.value, srcdest) && r.value.depth == 1
    ensures r.Ok? ==> forall x, y :: Inside(srcdest, x, y) ==>
              (Get(r.value, x, y) == 1 <==> Get(srcdest, x, y) == 1 && NbValue(src, g, d, x, y, FillValue(1, e)) == 0)
  {
    ProbeDepths(src, srcdest);
    NeighborOp(DiffOp, Pair1x1, src, srcdest, aliased, d, 1, g, e)
  }

  lemma {:induction false} PassesExtensive(g: Grid, d: int, inout: Image, src: Image, fill: nat, n: nat)
    requires Shaped(inout.pix, inout.width, inout.height)
    ensures forall x, y :: Inside(inout, x, y) ==>
              Get(Passes(SupOp, g, d, inout, src, fill, n), x, y) >= Get(inout, x, y)
    decreases n
  {
    if n > 0 {
      var p := Pass(SupOp, g, d, inout, src, fill);
      PassesExtensive(g, d, p, p, fill, n - 1);
    }
  }

  lemma {:induction false} PassesShrink(op: Combiner, g: Grid, d: int, inout: Image, src: Image, fill: nat, n: nat)
    requires op != SupOp && Shaped(inout.pix, inout.width, inout.height)
    ensures forall x, y :: Inside(inout, x, y) ==>
              Get(Passes(op, g, d, inout, src, fill, n), x, y) <= Get(inout, x, y)
    decreases n
  {
    if n > 0 {
      var p := Pass(op, g, d, inout, src, fill);
      PassesShrink(op, g, d, p, p, fill, n - 1);
    }
  }

  /** Without aliasing the count is ignored: any count gives the result of a
      single pass. */
  lemma CountIgnoredWithoutAlias(op: Combiner, pair: nat, src: Image, srcdest: Image, d: nat, count: nat, g: Grid, e: Edge)
    requires Valid(src) && Valid(srcdest) && SameDepthPair(pair)
    ensures NeighborOp(op, pair, src, srcdest, false, d, count, g, e) == NeighborOp(op, pair, src, srcdest, false, d, 1, g, e)
  {
  }

  /** With aliasing, count passes are one pass followed by count - 1 passes:
      the operator iterates on its own result. */
  lemma AliasedIterates(op: Combiner, pair: nat, im: Image, d: nat, count: nat, g: Grid, e: Edge)
    requires Valid(im) && count > 0 && d != 0 && SameDepthPair(pair)
    requires DirectionOk(g, d) && Probe(im, im) == pair
    ensures NeighborOp(op, pair, im, im, true, d, 1, g, e).Ok?
    ensures var once := NeighborOp(op, pair, im, im, true, d, 1, g, e).value;
            NeighborOp(op, pair, once, once, true, d, count - 1, g, e)
            == NeighborOp(op, pair, im, im, true, d, count, g, e)
  {
    var fill := FillValue(im.depth, e);
    var once := Pass(op, g, d, im, im, fill);
    assert Passes(op, g, d, im, im, fill, 1) == Passes(op, g, d, once, once, fill, 0) == once;
    assert NeighborOp(op, pair, im, im, true, d, 1, g, e) == Ok(once);
    assert NeighborOp(op, pair, im, im, true, d, count, g, e) == Ok(Passes(op, g, d, im, im, fill, count));
    assert Passes(op, g, d, im, im, fill, count) == Passes(op, g, d, once, once, fill, count - 1);
    PassValid(op, g, d, im, im, fill);
    assert Probe(once, once) == pair;
    assert FillValue(once.depth, e) == fill;
    assert NeighborOp(op, pair, once, once, true, d, count - 1, g, e) == Ok(Passes(op, g, d, once, once, fill, count - 1));
  }

  /** Aliased, a count of 0 in a proper direction changes nothing. */
  lemma AliasedCountZero(op: Combiner, pair: nat, im: Image, d: nat, g: Grid, e: Edge)
    requires Valid(im) && d != 0 && DirectionOk(g, d) && Probe(im, im) == pair && SameDepthPair(pair)
    ensures NeighborOp(op, pair, im, im, true, d, 0, g, e) == Ok(im)
  {
  }

  /** The centre direction combines each pixel with itself in src, whatever
      the count (MB_QCompNbr0 ignores it). */
  lemma CentreIsPointwise(op: Combiner, pair: nat, src: Image, srcdest: Image, aliased: bool, count: nat, g: Grid, e: Edge)
    requires Valid(src) && Valid(srcdest) && (aliased ==> src == srcdest)
    requires SameSize(src, srcdest) && Probe(src, srcdest) == pair && SameDepthPair(pair)
    ensures var r := NeighborOp(op, pair, src, srcdest, aliased, 0, count, g, e);
            r.Ok? && forall x, y :: Inside(srcdest, x, y) ==> Get(r.value, x, y) == Combine(op, Get(srcdest, x, y), Get(src, x, y))
  {
    assert DirectionOk(g, 0);
    var fill := FillValue(src.depth, e);
    var r := Pass(op, g, 0, srcdest, src, fill);
    assert Passes(op, g, 0, srcdest, src, fill, 1) == Passes(op, g, 0, r, r, fill, 0) == r;
    assert NeighborOp(op, pair, src, srcdest, aliased, 0, count, g, e) == Ok(r);
    forall x, y | Inside(srcdest, x, y)
      ensures Get(r, x, y) == Combine(op, Get(srcdest, x, y), Get(src, x, y))
    {
      assert Step(g, 0, (x, y)) == (x, y);
      assert NbValue(src, g, 0, x, y, fill) == Get(src, x, y);
    }
  }

  /** Duality of the neighbour maximum and minimum: complementing, taking the
      minimum with the complemented edge value and complementing again is
      the maximum. */
  lemma PassDuality(g: Grid, d: int, inout: Image, src: Image, fill: nat)
    requires Valid(inout) && Valid(src) && SameSize(inout, src) && src.depth == inout.depth
    requires fill <= MaxValue(inout.depth)
    ensures var k := inout.depth;
            var inv := (v: nat) => Invert(k, v);
            Map1(Pass(InfOp, g, d, Map1(inout, inout, inv), Map1(src, src, inv), Invert(k, fill)), inout, inv)
            == Pass(SupOp, g, d, inout, src, fill)
  {
    var k := inout.depth;
    var inv := (v: nat) => Invert(k, v);
    var lhs := Map1(Pass(InfOp, g, d, Map1(inout, inout, inv), Map1(src, src, inv), Invert(k, fill)), inout, inv);
    var rhs := Pass(SupOp, g, d, inout, src, fill);
    forall x, y | Inside(inout, x, y)
      ensures Get(lhs, x, y) == Get(rhs, x, y)
    {
      PassDualityAt(g, d, inout, src, fill, x, y);
    }
    SamePixels(lhs, rhs);
  }

  lemma PassDualityAt(g: Grid, d: int, inout: Image, src: Image, fill: nat, x: int, y: int)
    requires Valid(inout) && Valid(src) && SameSize(inout, src) && src.depth == inout.depth
    requires fill <= MaxValue(inout.depth) && Inside(inout, x, y)
    ensures var k := inout.depth;
            var inv := (v: nat) => Invert(k, v);
            Get(Map1(Pass(InfOp, g, d, Map1(inout, inout, inv), Map1(src, src, inv), Invert(k, fill)), inout, inv), x, y)
            == Get(Pass(SupOp, g, d, inout, src, fill), x, y)
  {
    var k := inout.depth;
    var inv := (v: nat) => Invert(k, v);
    var a := Map1(inout, inout, inv);
    var b := Map1(src, src, inv);
    var q := Step(g, d, (x, y));
    var u := Get(inout, x, y);
    var v := NbValue(src, g, d, x, y, fill);
    assert u <= MaxValue(k);
    assert v <= MaxValue(k) by {
      if Inside(src, q.0, q.1) { PixelBound(src, q.0, q.1); }
    }
    assert NbValue(b, g, d, x, y, Invert(k, fill)) == Invert(k, v);
    assert Get(a, x, y) == Invert(k, u);
  }

  /** On an empty binary image with a filled edge, the neighbour maximum
      sets exactly the pixels whose neighbour lies beyond the frame. */
  lemma SupOfEmptyMarksBorder(im: Image, d: nat, g: Grid)
    requires Valid(im) && im.depth == 1 && DirectionOk(g, d)
    requires forall x, y :: Inside(im, x, y) ==> Get(im, x, y) == 0
    ensures SupNbb(im, im, true, d, 1, g, FilledEdge).Ok?
    ensures forall x, y :: Inside(im, x, y) ==>
              (Get(SupNbb(im, im, true, d, 1, g, FilledEdge).value, x, y) == 1
               <==> !Inside(im, Step(g, d, (x, y)).0, Step(g, d, (x, y)).1))
  {
    var fill := FillValue(1, FilledEdge);
    assert Passes(SupOp, g, d, im, im, fill, 1) == Pass(SupOp, g, d, im, im, fill);
  }

  /** On a full binary image with an empty edge, the neighbour minimum clears
      exactly the pixels whose neighbour lies beyond the frame. */
  lemma InfOfFullClearsBorder(im: Image, d: nat, g: Grid)
    requires Valid(im) && im.depth == 1 && DirectionOk(g, d)
    requires forall x, y :: Inside(im, x, y) ==> Get(im, x, y) == 1
    ensures InfNbb(im, im, true, d, 1, g, EmptyEdge).Ok?
    ensures forall x, y :: Inside(im, x, y) ==>
              (Get(InfNbb(im, im, true, d, 1, g, EmptyEdge).value, x, y) == 0
               <==> !Inside(im, Step(g, d, (x, y)).0, Step(g, d, (x, y)).1))
  {
    var fill := FillValue(1, EmptyEdge);
    assert Passes(InfOp, g, d, im, im, fill, 1) == Pass(InfOp, g, d, im, im, fill);
  }

  /** The edge value decides the border: with a filled edge a full binary
      image is left unchanged by the neighbour minimum. */
  lemma InfOfFullFilledEdge(im: Image, d: nat, g: Grid)
    requires Valid(im) && im.depth == 1 && DirectionOk(g, d)
    requires forall x, y :: Inside(im, x, y) ==> Get(im, x, y) == 1
    ensures InfNbb(im, im, true, d, 1, g, FilledEdge) == Ok(im)
  {
    var fill := FillValue(1, FilledEdge);
    var p := Pass(InfOp, g, d, im, im, fill);
    assert Passes(InfOp, g, d, im, im, fill, 1) == p;
    forall x, y | Inside(im, x, y)
      ensures Get(p, x, y) == Get(im, x, y)
    {
      var q := Step(g, d, (x, y));
      if Inside(im, q.0, q.1) {
        assert Get(im, q.0, q.1) == 1;
      }
    }
    SamePixels(p, im);
  }

  // ---------------------------------------------------------------------
  // MB_BinHitOrMiss

  /** Bit i of a structuring-element code (es & (1 << i)). */
  predicate Bit(v: nat, i: nat)
  {
    ExtractBitPlane(v, i) == 1
  }

  /** The centre condition: es1 asks for a set pixel, otherwise es0 asks for
      a clear one, otherwise anything matches. */
  predicate CentreMatch(v: nat, es0: nat, es1: nat)
  {
    if Bit(es1, 0) then v == 1 else if Bit(es0, 0) then v == 0 else true
  }

  /** The condition on the neighbour in direction d (beyond the frame the
      neighbour reads as clear): es1 asks for it set, otherwise es0 asks for
      it clear. */
  predicate DirMatch(src: Image, es0: nat, es1: nat, g: Grid, d: nat, x: int, y: int)
  {
    (Bit(es1, d) ==> NbValue(src, g, d, x, y, 0) == 1)
    && (!Bit(es1, d) && Bit(es0, d) ==> NbValue(src, g, d, x, y, 0) == 0)
  }

  /** Pixel (x, y) matches the pair of structuring elements. */
  predicate HmtMatch(src: Image, es0: nat, es1: nat, g: Grid, x: int, y: int)
  {
    CentreMatch(Get(src, x, y), es0, es1)
    && forall d: nat :: 1 <= d <= Neighbors(g) ==> DirMatch(src, es0, es1, g, d, x, y)
  }

  /** One step of the loop of MB_BinHitOrMiss: a direction of es1 takes the
      binary minimum with the neighbour, one of es0 only the difference. */
  function HmtStep(src: Image, cur: Image, es0: nat, es1: nat, g: Grid, d: nat): (r: Image)
    requires Valid(src) && Valid(cur) && src.depth == 1 && cur.depth == 1 && SameSize(src, cur)
    requires 1 <= d <= Neighbors(g)
    ensures Valid(r) && r.depth == 1 && SameSize(r, cur)
  {
    if Bit(es1, d) then InfNbb(src, cur, false, d, 1, g, EmptyEdge).value
    else if Bit(es0, d) then DiffNbb(src, cur, false, d, g, EmptyEdge).value
    else cur
  }

  /** A step keeps a set pixel set exactly when its neighbour in direction d
      meets that direction's condition. */
  lemma HmtStepMatches(src: Image, cur: Image, es0: nat, es1: nat, g: Grid, d: nat, x: int, y: int)
    requires Valid(src) && Valid(cur) && src.depth == 1 && cur.depth == 1 && SameSize(src, cur)
    requires 1 <= d <= Neighbors(g) && Inside(cur, x, y)
    ensures Get(HmtStep(src, cur, es0, es1, g, d), x, y) == 1
            <==> Get(cur, x, y) == 1 && DirMatch(src, es0, es1, g, d, x, y)
  {
    var q := Step(g, d, (x, y));
    if Inside(src, q.0, q.1) { PixelBound(src, q.0, q.1); }
  }

  /** The loop over the directions d..N of MB_BinHitOrMiss. */
  function HmtFrom(src: Image, cur: Image, es0: nat, es1: nat, g: Grid, d: nat): (r: Image)
    requires Valid(src) && Valid(cur) && src.depth == 1 && cur.depth == 1 && SameSize(src, cur)
    requires 1 <= d
    ensures Valid(r) && r.depth == 1 && SameSize(r, cur)
    decreases Neighbors(g) + 1 - d
  {
    if d > Neighbors(g) then cur
    else HmtFrom(src, HmtStep(src, cur, es0, es1, g, d), es0, es1, g, d + 1)
  }

  /** The neighbours of (x, y) in the directions d..N all meet their
      conditions, one direction at a time. */
  predicate DirsMatchFrom(src: Image, es0: nat, es1: nat, g: Grid, d: nat, x: int, y: int)
    decreases Neighbors(g) + 1 - d
  {
    d > Neighbors(g) || (DirMatch(src, es0, es1, g, d, x, y) && DirsMatchFrom(src, es0, es1, g, d + 1, x, y))
  }

  /** The direction-by-direction check is the quantified one. */
  lemma {:induction false} DirsMatchFromAll(src: Image, es0: nat, es1: nat, g: Grid, d: nat, x: int, y: int)
    ensures DirsMatchFrom(src, es0, es1, g, d, x, y)
            <==> forall d': nat :: d <= d' <= Neighbors(g) ==> DirMatch(src, es0, es1, g, d', x, y)
    decreases Neighbors(g) + 1 - d
  {
    if d <= Neighbors(g) {
      DirsMatchFromAll(src, es0, es1, g, d + 1, x, y);
    }
  }

  /** What the loop computes: a pixel stays set exactly when it was set and
      the neighbours in the directions d..N meet their conditions. */
  lemma {:induction false} HmtFromMatches(src: Image, cur: Image, es0: nat, es1: nat, g: Grid, d: nat, x: int, y: int)
    requires Valid(src) && Valid(cur) && src.depth == 1 && cur.depth == 1 && SameSize(src, cur)
    requires 1 <= d && Inside(cur, x, y)
    ensures Get(HmtFrom(src, cur, es0, es1, g, d), x, y) == 1
            <==> Get(cur, x, y) == 1 && DirsMatchFrom(src, es0, es1, g, d, x, y)
    decreases Neighbors(g) + 1 - d
  {
    if d <= Neighbors(g) {
      var next := HmtStep(src, cur, es0, es1, g, d);
      HmtFromMatches(src, next, es0, es1, g, d + 1, x, y);
      HmtStepMatches(src, cur, es0, es1, g, d, x, y);
    }
  }

  /** MB_BinHitOrMiss: the binary hit-or-miss transform of src by the
      structuring elements es0 (pixels that must be clear) and es1 (pixels
      that must be set), with es1 taking priority where both name a pixel.
      The source may not be the destination. */
  function BinHitOrMiss(src: Image, dest: Image, aliased: bool, es0: nat, es1: nat, g: Grid): (r: Result<Image>)
    requires Valid(src) && Valid(dest) && (aliased ==> src == dest)
    ensures !SameSize(src, dest) ==> r == Fail(BadSize)
    ensures SameSize(src, dest) && !(src.depth == 1 && dest.depth == 1) ==> r == Fail(BadDepth)
    ensures SameSize(src, dest) && src.depth == 1 && dest.depth == 1 ==> (r.Ok? <==> !aliased)
    ensures r.Fail? && SameSize(src, dest) && src.depth == 1 && dest.depth == 1 ==> r.error == BadParameter
    ensures r.Ok? ==> Valid(r.value) && SameSize(r.value, dest) && r.value.depth == 1
    ensures r.Ok? ==> forall x, y :: Inside(dest, x, y) ==> (Get(r.value, x, y) == 1 <==> HmtMatch(src, es0, es1, g, x, y))
  {
    ProbeDepths(src, dest);
    if !SameSize(src, dest) then Fail(BadSize)
    else if Probe(src, dest) != Pair1x1 then Fail(BadDepth)
    else if aliased then Fail(BadParameter)
    else
      var start :=
        if Bit(es1, 0) then Copy(src, dest, false).value
        else if Bit(es0, 0) then Inv(src, dest).value
        else ConSet(dest, 1).value;
      assert forall x, y :: Inside(dest, x, y) ==> (Get(start, x, y) == 1 <==> CentreMatch(Get(src, x, y), es0, es1)) by {
        forall x, y | Inside(dest, x, y)
          ensures Get(start, x, y) == 1 <==> CentreMatch(Get(src, x, y), es0, es1)
        {
          PixelBound(src, x, y);
        }
      }
      var r := HmtFrom(src, start, es0, es1, g, 1);
      assert forall x, y :: Inside(dest, x, y) ==> (Get(r, x, y) == 1 <==> HmtMatch(src, es0, es1, g, x, y)) by {
        forall x, y | Inside(dest, x, y)
          ensures Get(r, x, y) == 1 <==> HmtMatch(src, es0, es1, g, x, y)
        {
          HmtFromMatches(src, start, es0, es1, g, 1, x, y);
          DirsMatchFromAll(src, es0, es1, g, 1, x, y);
        }
      }
      Ok(r)
  }

  /** Bits of the codes 0 and 1. */
  lemma SmallCodeBits(i: nat)
    ensures !Bit(0, i)
    ensures Bit(1, i) <==> i == 0
  {
    ShrOfSmall(0, i);
    ShrOfSmall(1, i);
  }

  lemma {:induction false} ShrOfSmall(v: nat, i: nat)
    requires v <= 1
    ensures Shr(v, i) == if i == 0 then v else 0
  {
    if i > 1 {
      ShrOfSmall(v / 2, i - 1);
    }
  }

  /** With the centre alone in es1 the transform reproduces its source. */
  lemma HmtCentreIsIdentity(src: Image, dest: Image, g: Grid)
    requires Valid(src) && Valid(dest) && SameSize(src, dest) && src.depth == 1 && dest.depth == 1
    ensures BinHitOrMiss(src, dest, false, 0, 1, g) == Ok(src)
  {
    var r := BinHitOrMiss(src, dest, false, 0, 1, g).value;
    forall x, y | Inside(dest, x, y)
      ensures Get(r, x, y) == Get(src, x, y)
    {
      SmallCodeBits(0);
      forall d: nat | 1 <= d <= Neighbors(g)
        ensures DirMatch(src, 0, 1, g, d, x, y)
      {
        SmallCodeBits(d);
      }
      PixelBound(r, x, y);
      PixelBound(src, x, y);
    }
    SamePixels(r, src);
  }

  /** With the centre alone in es0 the transform is the complement. */
  lemma HmtCentreIsComplement(src: Image, dest: Image, g: Grid, x: int, y: int)
    requires Valid(src) && Valid(dest) && SameSize(src, dest) && src.depth == 1 && dest.depth == 1
    requires Inside(dest, x, y)
    ensures BinHitOrMiss(src, dest, false, 1, 0, g).Ok?
    ensures Get(BinHitOrMiss(src, dest, false, 1, 0, g).value, x, y) + Get(src, x, y) == 1
  {
    var r := BinHitOrMiss(src, dest, false, 1, 0, g).value;
    SmallCodeBits(0);
    forall d: nat | 1 <= d <= Neighbors(g)
      ensures DirMatch(src, 1, 0, g, d, x, y)
    {
      SmallCodeBits(d);
    }
    PixelBound(r, x, y);
    PixelBound(src, x, y);
  }

  /** Asking for more set neighbours (with no clear ones asked for) can only
      remove pixels from the result. */
  lemma HmtMoreHitsShrinks(src: Image, dest: Image, es1: nat, es1': nat, g: Grid)
    requires Valid(src) && Valid(dest) && SameSize(src, dest) && src.depth == 1 && dest.depth == 1
    requires forall i: nat :: Bit(es1, i) ==> Bit(es1', i)
    ensures BinHitOrMiss(src, dest, false, 0, es1, g).Ok? && BinHitOrMiss(src, dest, false, 0, es1', g).Ok?
    ensures Le(BinHitOrMiss(src, dest, false, 0, es1', g).value, BinHitOrMiss(src, dest, false, 0, es1, g).value)
  {
    var r := BinHitOrMiss(src, dest, false, 0, es1, g).value;
    var r' := BinHitOrMiss(src, dest, false, 0, es1', g).value;
    forall x, y | Inside(r', x, y)
      ensures Get(r', x, y) <= Get(r, x, y)
    {
      PixelBound(r, x, y);
      PixelBound(r', x, y);
      if Get(r', x, y) == 1 {
        assert HmtMatch(src, 0, es1', g, x, y);
        SmallCodeBits(0);
        forall d: nat | 1 <= d <= Neighbors(g)
          ensures DirMatch(src, 0, es1, g, d, x, y)
        {
          SmallCodeBits(d);
          assert DirMatch(src, 0, es1', g, d, x, y);
        }
        assert HmtMatch(src, 0, es1, g, x, y);
      }
    }
  }
}
