// Far neighbours and shifts of the C core.  A shift by k in direction d
// moves the picture k steps towards d, so the pixel at p receives the pixel
// k steps away in the transposed direction; what comes in from beyond the
// frame is the fill value.  The far-neighbour operators combine each pixel
// with that shifted picture.

module Shifts {
  import opened Common
  import opened Images
  import opened Directions
  import opened Pointwise
  import opened Neighbors

  /** The pixel that a shift by k in direction d brings to p. */
  function ShiftSource(g: Grid, d: int, k: nat, p: (int, int)): (q: (int, int))
  {
    Far(g, Transpose(d, g), k, p)
  }

  /** The shift towards the transposed direction reads the far neighbour. */
  lemma ShiftTransposedReadsFar(g: Grid, d: int, k: nat, p: (int, int))
    requires DirectionOk(g, d)
    ensures ShiftSource(g, Transpose(d, g), k, p) == Far(g, d, k, p)
  {
    TransposeInvolution(d, g);
  }

  // ---------------------------------------------------------------------
  // MB_SupFarNb8, MB_InfFarNbb, MB_InfFarNb32

  /** The pixel of src k steps away from (x, y) in direction d, the edge
      value beyond the frame. */
  function FarValue(src: Image, g: Grid, d: int, k: nat, x: int, y: int, fill: nat): (v: nat)
  {
    var q := Far(g, d, k, (x, y));
    Read(src, q.0, q.1, fill)
  }

  lemma FarValueBound(src: Image, g: Grid, d: int, k: nat, x: int, y: int, fill: nat)
    requires Valid(src) && fill <= MaxValue(src.depth)
    ensures FarValue(src, g, d, k, x, y, fill) <= MaxValue(src.depth)
  {
    var q := Far(g, d, k, (x, y));
    if Inside(src, q.0, q.1) { PixelBound(src, q.0, q.1); }
  }

  /** Every pixel of `inout` combined with the pixel of `src` k steps away
      in direction d, the edge value beyond the frame. */
  function FarPass(op: Combiner, g: Grid, d: int, k: nat, inout: Image, src: Image, fill: nat): (r: Image)
    ensures r.width == inout.width && r.height == inout.height && r.depth == inout.depth
    ensures Shaped(r.pix, inout.width, inout.height)
    ensures forall x, y :: Inside(inout, x, y) ==>
              Get(r, x, y) == Combine(op, Get(inout, x, y), FarValue(src, g, d, k, x, y, fill))
  {
    Make(inout.width, inout.height, inout.depth,
         (x, y) => Combine(op, Get(inout, x, y), FarValue(src, g, d, k, x, y, fill)))
  }

  lemma FarPassValid(op: Combiner, g: Grid, d: int, k: nat, inout: Image, src: Image, fill: nat)
    requires Valid(inout) && Valid(src) && src.depth == inout.depth && fill <= MaxValue(src.depth)
    ensures Valid(FarPass(op, g, d, k, inout, src, fill))
  {
    var r := FarPass(op, g, d, k, inout, src, fill);
    forall x, y | Inside(inout, x, y)
      ensures Get(r, x, y) <= MaxValue(inout.depth)
    {
      FarValueBound(src, g, d, k, x, y, fill);
    }
  }

  /** The pixel of src that the shift routine of direction t by k brings to
      (x, y), the edge value beyond the frame. */
  function ShiftedValue(src: Image, g: Grid, t: int, k: nat, x: int, y: int, fill: nat): (v: nat)
  {
    var q := ShiftSource(g, t, k, (x, y));
    Read(src, q.0, q.1, fill)
  }

  /** What the shift routine of direction t does in the far-neighbour
      operators: combine each pixel with the pixel the shift brings to it. */
  function ShiftPass(op: Combiner, g: Grid, t: int, k: nat, inout: Image, src: Image, fill: nat): (r: Image)
    ensures r.width == inout.width && r.height == inout.height && r.depth == inout.depth
    ensures Shaped(r.pix, inout.width, inout.height)
    ensures forall x, y :: Inside(inout, x, y) ==>
              Get(r, x, y) == Combine(op, Get(inout, x, y), ShiftedValue(src, g, t, k, x, y, fill))
  {
    Make(inout.width, inout.height, inout.depth,
         (x, y) => Combine(op, Get(inout, x, y), ShiftedValue(src, g, t, k, x, y, fill)))
  }

  /** Shifting towards tran_dir, the transposed direction, combines each
      pixel with its far neighbour in the requested direction. */
  lemma ShiftPassTransposed(op: Combiner, g: Grid, d: int, k: nat, inout: Image, src: Image, fill: nat)
    requires DirectionOk(g, d) && Shaped(inout.pix, inout.width, inout.height)
    ensures ShiftPass(op, g, Transpose(d, g), k, inout, src, fill) == FarPass(op, g, d, k, inout, src, fill)
  {
    var a := ShiftPass(op, g, Transpose(d, g), k, inout, src, fill);
    var b := FarPass(op, g, d, k, inout, src, fill);
    forall x, y | Inside(inout, x, y)
      ensures Get(a, x, y) == Get(b, x, y)
    {
      ShiftTransposedReadsFar(g, d, k, (x, y));
    }
    SamePixels(a, b);
  }

  /** The far-neighbour operators: size, direction and depth-pair checks; a
      count of 0 is the pointwise maximum or minimum; otherwise the shift
      routine of the transposed direction (tran_dir) combines the in/out
      image with the source shifted by count. */
  function FarOp(op: Combiner, pair: nat, src: Image, srcdest: Image, d: nat, count: nat, g: Grid, e: Edge): (r: Result<Image>)
    requires Valid(src) && Valid(srcdest) && SameDepthPair(pair) && op != DiffOp
    ensures !SameSize(src, srcdest) ==> r == Fail(BadSize)
    ensures SameSize(src, srcdest) && !DirectionOk(g, d) ==> r == Fail(BadDirection)
    ensures SameSize(src, srcdest) && DirectionOk(g, d) ==> (r.Ok? <==> Probe(src, srcdest) == pair)
    ensures SameSize(src, srcdest) && DirectionOk(g, d) && r.Fail? ==> r.error == BadDepth
    ensures r.Ok? ==> r.value == FarPass(op, g, d, count, srcdest, src, FillValue(src.depth, e))
    ensures r.Ok? ==> Valid(r.value)
  {
    ProbeDepths(src, srcdest);
    if !SameSize(src, srcdest) then Fail(BadSize)
    else if !DirectionOk(g, d) then Fail(BadDirection)
    else if Probe(src, srcdest) != pair then Fail(BadDepth)
    else
      var fill := FillValue(src.depth, e);
      var expected := FarPass(op, g, d, count, srcdest, src, fill);
      FarPassValid(op, g, d, count, srcdest, src, fill);
      if count == 0 then
        var r := if op == SupOp then Sup(src, srcdest, srcdest) else Inf(src, srcdest, srcdest);
        FarZeroIsPointwise(op, src, srcdest, r.value, g, d, fill);
        r
      else
        ShiftPassTransposed(op, g, d, count, srcdest, src, fill);
        Ok(ShiftPass(op, g, Transpose(d, g), count, srcdest, src, fill))
  }

  /** The pointwise maximum or minimum is the far pass with no step. */
  lemma FarZeroIsPointwise(op: Combiner, src: Image, srcdest: Image, r: Image, g: Grid, d: int, fill: nat)
    requires Valid(src) && Valid(srcdest) && Valid(r) && SameSize(src, srcdest) && SameSize(r, srcdest)
    requires r.depth == srcdest.depth && op != DiffOp
    requires forall x, y :: Inside(srcdest, x, y) ==>
               (if op == SupOp then Get(r, x, y) >= Get(src, x, y) && Get(r, x, y) >= Get(srcdest, x, y)
                else Get(r, x, y) <= Get(src, x, y) && Get(r, x, y) <= Get(srcdest, x, y))
               && (Get(r, x, y) == Get(src, x, y) || Get(r, x, y) == Get(srcdest, x, y))
    ensures r == FarPass(op, g, d, 0, srcdest, src, fill)
  {
    var expected := FarPass(op, g, d, 0, srcdest, src, fill);
    forall x, y | Inside(srcdest, x, y)
      ensures Get(r, x, y) == Get(expected, x, y)
    {
      assert FarValue(src, g, d, 0, x, y, fill) == Get(src, x, y);
    }
    SamePixels(r, expected);
  }

  /** MB_SupFarNb8: maximum with the byte pixel count steps away. */
  function SupFarNb8(src: Image, srcdest: Image, d: nat, count: nat, g: Grid, e: Edge): (r: Result<Image>)
    requires Valid(src) && Valid(srcdest)
    ensures SameSize(src, srcdest) && DirectionOk(g, d) ==> (r.Ok? <==> src.depth == 8 && srcdest.depth == 8)
    ensures r.Ok? ==> Valid(r.value) && SameSize(r.value, srcdest) && r.value.depth == 8
    ensures r.Ok? ==> forall x, y :: Inside(srcdest, x, y) ==>
              Get(r.value, x, y) == Max(Get(srcdest, x, y), FarValue(src, g, d, count, x, y, FillValue(8, e)))
  {
    ProbeDepths(src, srcdest);
    FarOp(SupOp, Pair8x8, src, srcdest, d, count, g, e)
  }

  /** MB_InfFarNbb: AND with the binary pixel count steps away. */
  function InfFarNbb(src: Image, srcdest: Image, d: nat, count: nat, g: Grid, e: Edge): (r: Result<Image>)
    requires Valid(src) && Valid(srcdest)
    ensures SameSize(src, srcdest) && DirectionOk(g, d) ==> (r.Ok? <==> src.depth == 1 && srcdest.depth == 1)
    ensures r.Ok? ==> Valid(r.value) && SameSize(r.value, srcdest) && r.value.depth == 1
    ensures r.Ok? ==> forall x, y :: Inside(srcdest, x, y) ==>
              (Get(r.value, x, y) == 1 <==> (Get(srcdest, x, y) == 1
                 && FarValue(src, g, d, count, x, y, FillValue(1, e)) == 1))
  {
    ProbeDepths(src, srcdest);
    var r := FarOp(InfOp, Pair1x1, src, srcdest, d, count, g, e);
    assert r.Ok? ==> forall x, y :: Inside(srcdest, x, y) ==>
              (Get(r.value, x, y) == 1 <==> (Get(srcdest, x, y) == 1
                 && FarValue(src, g, d, count, x, y, FillValue(1, e)) == 1)) by {
      if r.Ok? {
        forall x, y | Inside(srcdest, x, y)
          ensures (Get(r.value, x, y) == 1 <==> (Get(srcdest, x, y) == 1
                   && FarValue(src, g, d, count, x, y, FillValue(1, e)) == 1))
        {
          var q := Far(g, d, count, (x, y));
          if Inside(src, q.0, q.1) { PixelBound(src, q.0, q.1); }
          PixelBound(srcdest, x, y);
        }
      }
    }
    r
  }

  /** MB_InfFarNb32: minimum with the 32-bit pixel count steps away. */
  function InfFarNb32(src: Image, srcdest: Image, d: nat, count: nat, g: Grid, e: Edge): (r: Result<Image>)
    requires Valid(src) && Valid(srcdest)
    ensures SameSize(src, srcdest) && DirectionOk(g, d) ==> (r.Ok? <==> src.depth == 32 && srcdest.depth == 32)
    ensures r.Ok? ==> Valid(r.value) && SameSize(r.value, srcdest) && r.value.depth == 32
    ensures r.Ok? ==> forall x, y :: Inside(srcdest, x, y) ==>
              Get(r.value, x, y) == Min(Get(srcdest, x, y), FarValue(src, g, d, count, x, y, FillValue(32, e)))
  {
    ProbeDepths(src, srcdest);
    FarOp(InfOp, Pair32x32, src, srcdest, d, count, g, e)
  }

  /** One step away is the ordinary neighbour: a far operator with a count
      of 1 is the one-pass neighbour operator. */
  lemma FarOneIsNeighbor(op: Combiner, pair: nat, src: Image, srcdest: Image, d: nat, g: Grid, e: Edge)
    requires Valid(src) && Valid(srcdest) && SameDepthPair(pair) && op != DiffOp
    ensures FarOp(op, pair, src, srcdest, d, 1, g, e) == NeighborOp(op, pair, src, srcdest, false, d, 1, g, e)
  {
    var a := FarOp(op, pair, src, srcdest, d, 1, g, e);
    var b := NeighborOp(op, pair, src, srcdest, false, d, 1, g, e);
    if a.Ok? {
      var fill := FillValue(src.depth, e);
      assert b.value == Pass(op, g, d, srcdest, src, fill);
      forall x, y | Inside(srcdest, x, y)
        ensures Get(a.value, x, y) == Get(b.value, x, y)
      {
        assert Far(g, d, 1, (x, y)) == Step(g, d, (x, y));
        assert FarValue(src, g, d, 1, x, y, fill) == NbValue(src, g, d, x, y, fill);
      }
      SamePixels(a.value, b.value);
    }
  }

  /** Far neighbours compose: count steps then one more step is count + 1
      steps, so a far operator sees the neighbour of the pixel it would see
      with one step less. */
  lemma FarOpStepsCompose(op: Combiner, pair: nat, src: Image, srcdest: Image, d: nat, count: nat, g: Grid, e: Edge, x: int, y: int)
    requires Valid(src) && Valid(srcdest) && SameDepthPair(pair) && op != DiffOp
    requires FarOp(op, pair, src, srcdest, d, count + 1, g, e).Ok? && Inside(srcdest, x, y)
    ensures var q := Step(g, d, Far(g, d, count, (x, y)));
            Get(FarOp(op, pair, src, srcdest, d, count + 1, g, e).value, x, y)
            == Combine(op, Get(srcdest, x, y), Read(src, q.0, q.1, FillValue(src.depth, e)))
  {
    FarLast(g, d, count, (x, y));
  }

  // ---------------------------------------------------------------------
  // MB_Shiftb, MB_Shift32, MB_ShiftVector32, MB_SupVectorb

  /** The value a shift brings to a pixel whose source is q: a source line
      beyond the frame gives `lineFill` (the edge lines are set byte by
      byte), a source pixel beyond the ends of its line gives `fill`. */
  function ShiftRead(src: Image, q: (int, int), fill: nat, lineFill: nat): (v: nat)
    ensures Inside(src, q.0, q.1) ==> v == Get(src, q.0, q.1)
    ensures !(0 <= q.1 < src.height) ==> v == lineFill
    ensures 0 <= q.1 < src.height && !(0 <= q.0 < src.width) ==> v == fill
  {
    if 0 <= q.1 < src.height then (if 0 <= q.0 < src.width then Get(src, q.0, q.1) else fill)
    else lineFill
  }

  /** The value a shift by k in direction d brings to (x, y). */
  function ShiftValue(src: Image, g: Grid, d: int, k: nat, x: int, y: int, fill: nat, lineFill: nat): (v: nat)
  {
    ShiftRead(src, ShiftSource(g, d, k, (x, y)), fill, lineFill)
  }

  /** The shifted picture: pixel p of the result is the pixel ShiftSource(p). */
  function Shifted(src: Image, dest: Image, g: Grid, d: int, count: nat, fill: nat, lineFill: nat): (r: Image)
    ensures r.width == dest.width && r.height == dest.height && r.depth == dest.depth
    ensures Shaped(r.pix, dest.width, dest.height)
    ensures forall x, y :: Inside(dest, x, y) ==> Get(r, x, y) == ShiftValue(src, g, d, count, x, y, fill, lineFill)
  {
    Make(dest.width, dest.height, dest.depth, (x, y) => ShiftValue(src, g, d, count, x, y, fill, lineFill))
  }

  lemma ShiftedValid(src: Image, dest: Image, g: Grid, d: int, count: nat, fill: nat, lineFill: nat)
    requires Valid(src) && Valid(dest) && src.depth == dest.depth
    requires fill <= MaxValue(dest.depth) && lineFill <= MaxValue(dest.depth)
    ensures Valid(Shifted(src, dest, g, d, count, fill, lineFill))
  {
    var r := Shifted(src, dest, g, d, count, fill, lineFill);
    forall x, y | Inside(dest, x, y)
      ensures Get(r, x, y) <= MaxValue(dest.depth)
    {
      var q := ShiftSource(g, d, count, (x, y));
      assert ShiftValue(src, g, d, count, x, y, fill, lineFill) == ShiftRead(src, q, fill, lineFill);
      if Inside(src, q.0, q.1) { PixelBound(src, q.0, q.1); }
    }
  }

  /** The bytes of a vacated 32-bit line: the fill pixel goes through memset,
      so only its low byte survives, repeated in the four bytes. */
  function LineFill32(fill: nat): (w: nat)
    ensures w <= Max32
    ensures Bytes(w) == [LowByte(fill), LowByte(fill), LowByte(fill), LowByte(fill)]
  {
    MemsetWord(LowByte(fill))
  }

  /** MB_Shift32: shift a 32-bit image by count in direction d.  A count of
      0 is a copy. */
  function Shift32(src: Image, dest: Image, d: nat, count: nat, fill: nat, g: Grid): (r: Result<Image>)
    requires Valid(src) && Valid(dest) && fill <= Max32
    ensures !SameSize(src, dest) ==> r == Fail(BadSize)
    ensures SameSize(src, dest) && !DirectionOk(g, d) ==> r == Fail(BadDirection)
    ensures SameSize(src, dest) && DirectionOk(g, d) ==> (r.Ok? <==> src.depth == 32 && dest.depth == 32)
    ensures r.Ok? ==> Valid(r.value) && SameSize(r.value, dest) && r.value.depth == 32
    ensures r.Ok? && count == 0 ==> forall x, y :: Inside(dest, x, y) ==> Get(r.value, x, y) == Get(src, x, y)
    ensures r.Ok? && count > 0 ==> forall x, y :: Inside(dest, x, y) ==>
              Get(r.value, x, y) == ShiftValue(src, g, d, count, x, y, fill, LineFill32(fill))
  {
    ProbeDepths(src, dest);
    if !SameSize(src, dest) then Fail(BadSize)
    else if !DirectionOk(g, d) then Fail(BadDirection)
    else if Probe(src, dest) != Pair32x32 then Fail(BadDepth)
    else if count == 0 then Copy(src, dest, false)
    else
      ShiftedValid(src, dest, g, d, count, fill, LineFill32(fill));
      Ok(Shifted(src, dest, g, d, count, fill, LineFill32(fill)))
  }

  /** The binary fill of MB_Shiftb: any non-zero fill pixel fills with ones. */
  function FillBit(fill: nat): (b: nat)
    ensures b <= 1 && (b == 1 <==> fill != 0)
  {
    if fill == 0 then 0 else 1
  }

  /** MB_Shiftb: shift a binary image. */
  function Shiftb(src: Image, dest: Image, d: nat, count: nat, fill: nat, g: Grid): (r: Result<Image>)
    requires Valid(src) && Valid(dest)
    ensures !SameSize(src, dest) ==> r == Fail(BadSize)
    ensures SameSize(src, dest) && !DirectionOk(g, d) ==> r == Fail(BadDirection)
    ensures SameSize(src, dest) && DirectionOk(g, d) ==> (r.Ok? <==> src.depth == 1 && dest.depth == 1)
    ensures r.Ok? ==> Valid(r.value) && SameSize(r.value, dest) && r.value.depth == 1
    ensures r.Ok? && count == 0 ==> forall x, y :: Inside(dest, x, y) ==> Get(r.value, x, y) == Get(src, x, y)
    ensures r.Ok? && count > 0 ==> forall x, y :: Inside(dest, x, y) ==>
              Get(r.value, x, y) == ShiftValue(src, g, d, count, x, y, FillBit(fill), FillBit(fill))
  {
    ProbeDepths(src, dest);
    if !SameSize(src, dest) then Fail(BadSize)
    else if !DirectionOk(g, d) then Fail(BadDirection)
    else if Probe(src, dest) != Pair1x1 then Fail(BadDepth)
    else if count == 0 then Copy(src, dest, false)
    else
      var bit := FillBit(fill);
      ShiftedValid(src, dest, g, d, count, bit, bit);
      Ok(Shifted(src, dest, g, d, count, bit, bit))
  }

  /** Shifting back: a shift by count in direction d followed by a shift by
      count in the transposed direction restores every pixel whose source
      stayed inside the frame. */
  lemma Shift32Back(src: Image, tmp: Image, dest: Image, d: nat, count: nat, fill: nat, g: Grid, x: int, y: int)
    requires Valid(src) && Valid(tmp) && Valid(dest) && fill <= Max32
    requires SameSize(src, tmp) && SameSize(src, dest) && src.depth == 32 && tmp.depth == 32 && dest.depth == 32
    requires DirectionOk(g, d) && Inside(src, x, y)
    requires Inside(src, Far(g, d, count, (x, y)).0, Far(g, d, count, (x, y)).1)
    ensures Shift32(src, tmp, d, count, fill, g).Ok?
    ensures var once := Shift32(src, tmp, d, count, fill, g).value;
            var back := Shift32(once, dest, Transpose(d, g), count, fill, g);
            back.Ok? && Get(back.value, x, y) == Get(src, x, y)
  {
    var once := Shift32(src, tmp, d, count, fill, g).value;
    TransposeTable(d, g);
    if count > 0 {
      ShiftThereAndBack(src, once, d, count, fill, LineFill32(fill), g, x, y);
    }
  }

  /** The pixel a shift moved to Far(p) is read back at p by the shift in
      the transposed direction. */
  lemma ShiftThereAndBack(src: Image, once: Image, d: nat, count: nat, fill: nat, lineFill: nat, g: Grid, x: int, y: int)
    requires DirectionOk(g, d) && SameSize(src, once) && Inside(src, x, y)
    requires var q := Far(g, d, count, (x, y));
             Inside(src, q.0, q.1) && Get(once, q.0, q.1) == ShiftValue(src, g, d, count, q.0, q.1, fill, lineFill)
    ensures ShiftValue(once, g, Transpose(d, g), count, x, y, fill, lineFill) == Get(src, x, y)
  {
    var q := Far(g, d, count, (x, y));
    ShiftTransposedReadsFar(g, d, count, (x, y));
    FarTranspose(g, d, count, (x, y));
    assert ShiftSource(g, d, count, q) == (x, y);
  }

  /** A shift in direction 5 (down) by one line brings the line above the
      frame to the first line; in direction 3 (right) by one pixel, the
      pixel left of the frame to the first column. */
  lemma FirstPixelSources(x: int, y: int)
    ensures ShiftSource(Square, 5, 1, (x, y)) == (x, y - 1)
    ensures ShiftSource(Square, 3, 1, (x, y)) == (x - 1, y)
  {
    assert Transpose(5, Square) == 1 && Transpose(3, Square) == 7;
    assert Far(Square, 1, 1, (x, y)) == Far(Square, 1, 0, Step(Square, 1, (x, y)));
    assert Far(Square, 7, 1, (x, y)) == Far(Square, 7, 0, Step(Square, 7, (x, y)));
  }

  /** The vacated lines of a 32-bit shift repeat the low byte of the fill
      value, while the vacated ends of lines get it exactly. */
  lemma Shift32VacatedPixels(src: Image, dest: Image, fill: nat, x: int, y: int)
    requires Valid(src) && Valid(dest) && SameSize(src, dest) && src.depth == 32 && dest.depth == 32
    requires fill <= Max32 && Inside(dest, x, y)
    ensures Shift32(src, dest, 5, 1, fill, Square).Ok? && Shift32(src, dest, 3, 1, fill, Square).Ok?
    ensures y == 0 ==> Get(Shift32(src, dest, 5, 1, fill, Square).value, x, y) == LineFill32(fill)
    ensures x == 0 ==> Get(Shift32(src, dest, 3, 1, fill, Square).value, x, y) == fill
  {
    FirstPixelSources(x, y);
    assert DirectionOk(Square, 5) && DirectionOk(Square, 3);
    var down := Shift32(src, dest, 5, 1, fill, Square);
    var right := Shift32(src, dest, 3, 1, fill, Square);
    assert Get(down.value, x, y) == ShiftRead(src, (x, y - 1), fill, LineFill32(fill));
    assert Get(right.value, x, y) == ShiftRead(src, (x - 1, y), fill, LineFill32(fill));
  }

  /** With fill 0x100 the vacated first line is 0 while the vacated first
      column is 0x100. */
  lemma LineFillOf256()
    ensures LineFill32(0x100) == 0
  {
    assert LowByte(0x100) == 0;
  }

  /** The pixel a vector shift by (dx, dy) brings to (x, y). */
  function VectorSource(dx: int, dy: int, x: int, y: int): (q: (int, int))
    ensures q.0 + dx == x && q.1 + dy == y
  {
    (x - dx, y - dy)
  }

  /** MB_ShiftVector32: shift a 32-bit image by the vector (dx, dy).  There
      is no direction, so no direction check. */
  function ShiftVector32(src: Image, dest: Image, dx: int, dy: int, fill: nat): (r: Result<Image>)
    requires Valid(src) && Valid(dest) && fill <= Max32
    ensures !SameSize(src, dest) ==> r == Fail(BadSize)
    ensures SameSize(src, dest) ==> (r.Ok? <==> src.depth == 32 && dest.depth == 32)
    ensures r.Ok? ==> Valid(r.value) && SameSize(r.value, dest) && r.value.depth == 32
    ensures r.Ok? ==> forall x, y :: Inside(dest, x, y) ==>
              Get(r.value, x, y) == ShiftRead(src, VectorSource(dx, dy, x, y), fill, LineFill32(fill))
  {
    ProbeDepths(src, dest);
    if !SameSize(src, dest) then Fail(BadSize)
    else if Probe(src, dest) != Pair32x32 then Fail(BadDepth)
    else
      var r := Make(dest.width, dest.height, dest.depth, (x, y) => ShiftRead(src, VectorSource(dx, dy, x, y), fill, LineFill32(fill)));
      assert Valid(r) by {
        forall x, y | Inside(dest, x, y)
          ensures Get(r, x, y) <= Max32
        {
          var q := VectorSource(dx, dy, x, y);
          if Inside(src, q.0, q.1) { PixelBound(src, q.0, q.1); }
        }
      }
      Ok(r)
  }

  /** Shifting by (dx, dy) and back by (-dx, -dy) restores every pixel whose
      shifted position stayed inside the frame. */
  lemma ShiftVectorBack(src: Image, tmp: Image, dest: Image, dx: int, dy: int, fill: nat, x: int, y: int)
    requires Valid(src) && Valid(tmp) && Valid(dest) && fill <= Max32
    requires SameSize(src, tmp) && SameSize(src, dest) && src.depth == 32 && tmp.depth == 32 && dest.depth == 32
    requires Inside(src, x, y) && Inside(src, x + dx, y + dy)
    ensures ShiftVector32(src, tmp, dx, dy, fill).Ok?
    ensures var back := ShiftVector32(ShiftVector32(src, tmp, dx, dy, fill).value, dest, -dx, -dy, fill);
            back.Ok? && Get(back.value, x, y) == Get(src, x, y)
  {
  }

  /** MB_SupVectorb: OR of each binary pixel with the pixel the vector shift
      by (dx, dy) brings to it. */
  function SupVectorb(src: Image, srcdest: Image, dx: int, dy: int, e: Edge): (r: Result<Image>)
    requires Valid(src) && Valid(srcdest)
    ensures !SameSize(src, srcdest) ==> r == Fail(BadSize)
    ensures SameSize(src, srcdest) ==> (r.Ok? <==> src.depth == 1 && srcdest.depth == 1)
    ensures r.Ok? ==> Valid(r.value) && SameSize(r.value, srcdest) && r.value.depth == 1
    ensures r.Ok? ==> forall x, y :: Inside(srcdest, x, y) ==>
              (Get(r.value, x, y) == 1 <==> (Get(srcdest, x, y) == 1
                 || Read(src, VectorSource(dx, dy, x, y).0, VectorSource(dx, dy, x, y).1, FillValue(1, e)) == 1))
  {
    ProbeDepths(src, srcdest);
    if !SameSize(src, srcdest) then Fail(BadSize)
    else if Probe(src, srcdest) != Pair1x1 then Fail(BadDepth)
    else
      var fill := FillValue(1, e);
      var r := Make(srcdest.width, srcdest.height, 1,
                    (x, y) => BinOr(Get(srcdest, x, y), Read(src, VectorSource(dx, dy, x, y).0, VectorSource(dx, dy, x, y).1, fill)));
      assert Valid(r) && forall x, y :: Inside(srcdest, x, y) ==>
              (Get(r, x, y) == 1 <==> (Get(srcdest, x, y) == 1
                 || Read(src, VectorSource(dx, dy, x, y).0, VectorSource(dx, dy, x, y).1, fill) == 1)) by {
        forall x, y | Inside(srcdest, x, y)
          ensures Get(r, x, y) <= 1
          ensures Get(r, x, y) == 1 <==> (Get(srcdest, x, y) == 1
                 || Read(src, VectorSource(dx, dy, x, y).0, VectorSource(dx, dy, x, y).1, fill) == 1)
        {
          var q := VectorSource(dx, dy, x, y);
          if Inside(src, q.0, q.1) { PixelBound(src, q.0, q.1); }
          PixelBound(srcdest, x, y);
        }
      }
      Ok(r)
  }

  /** The null vector makes MB_SupVectorb the pointwise OR of the two images. */
  lemma SupVectorNullIsSup(src: Image, srcdest: Image, e: Edge)
    requires Valid(src) && Valid(srcdest) && SameSize(src, srcdest) && src.depth == 1 && srcdest.depth == 1
    ensures SupVectorb(src, srcdest, 0, 0, e).Ok? && Sup(src, srcdest, srcdest).Ok?
    ensures SupVectorb(src, srcdest, 0, 0, e) == Sup(src, srcdest, srcdest)
  {
    var a := SupVectorb(src, srcdest, 0, 0, e).value;
    var b := Sup(src, srcdest, srcdest).value;
    forall x, y | Inside(srcdest, x, y)
      ensures Get(a, x, y) == Get(b, x, y)
    {
      PixelBound(src, x, y);
      PixelBound(srcdest, x, y);
      PixelBound(a, x, y);
      PixelBound(b, x, y);
    }
    SamePixels(a, b);
  }
}
