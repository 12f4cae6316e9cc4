// Pointwise arithmetic and logic of the C core: every operator reads the
// pixels at one position of its sources and writes one pixel of the
// destination.  The depth pair of the sources (and the depth of the
// destination) selects saturation at 255, wrap-around modulo 2^32 or a
// logical operation on binary pixels; any other combination is refused.

module Pointwise {
  import opened Common
  import opened Images

  // ---------------------------------------------------------------------
  // Image builders

  /** The image with the size and depth of `out` whose pixel at (x, y) is f
      of the pixel of `a` there. */
  function Map1(a: Image, out: Image, f: nat -> nat): (r: Image)
    ensures r.width == out.width && r.height == out.height && r.depth == out.depth
    ensures Shaped(r.pix, out.width, out.height)
    ensures forall x, y :: Inside(out, x, y) ==> Get(r, x, y) == f(Get(a, x, y))
    ensures ValidDepth(out.depth) && (forall x, y :: Inside(out, x, y) ==> f(Get(a, x, y)) <= MaxValue(out.depth)) ==> Valid(r)
  {
    Make(out.width, out.height, out.depth, (x, y) => f(Get(a, x, y)))
  }

  /** The image with the size and depth of `out` whose pixel at (x, y) is f
      of the pixels of `a` and `b` there. */
  function Map2(a: Image, b: Image, out: Image, f: (nat, nat) -> nat): (r: Image)
    ensures r.width == out.width && r.height == out.height && r.depth == out.depth
    ensures Shaped(r.pix, out.width, out.height)
    ensures forall x, y :: Inside(out, x, y) ==> Get(r, x, y) == f(Get(a, x, y), Get(b, x, y))
    ensures ValidDepth(out.depth) && (forall x, y :: Inside(out, x, y) ==> f(Get(a, x, y), Get(b, x, y)) <= MaxValue(out.depth)) ==> Valid(r)
  {
    Make(out.width, out.height, out.depth, (x, y) => f(Get(a, x, y), Get(b, x, y)))
  }

  /** Two images built with the same header whose pixels agree are equal. */
  lemma SamePixels(a: Image, b: Image)
    requires Shaped(a.pix, a.width, a.height) && Shaped(b.pix, b.width, b.height)
    requires a.width == b.width && a.height == b.height && a.depth == b.depth
    requires forall x, y :: Inside(a, x, y) ==> Get(a, x, y) == Get(b, x, y)
    ensures a == b
  {
    Extensionality(a, b);
  }

  // ---------------------------------------------------------------------
  // Pixel arithmetic

  /** Addition saturating at m (the 8-bit adds). */
  function SatAdd(a: nat, b: nat, m: nat): (r: nat)
    ensures r <= m || r == a + b
    ensures a + b <= m ==> r == a + b
    ensures a + b >= m ==> r == m
  {
    if a + b > m then m else a + b
  }

  /** Subtraction flooring at 0 (the 8-bit subtractions). */
  function FloorSub(a: nat, b: nat): (r: nat)
    ensures r <= a
    ensures b <= a ==> r + b == a
    ensures b >= a ==> r == 0
  {
    if a < b then 0 else a - b
  }

  /** Multiplication saturating at m. */
  function SatMul(a: nat, b: nat, m: nat): (r: nat)
    ensures r <= m || r == a * b
    ensures a * b <= m ==> r == a * b
    ensures a * b >= m ==> r == m
  {
    if a * b > m then m else a * b
  }

  /** Binary OR, AND and AND-NOT on 0/1 pixels. */
  function BinOr(a: nat, b: nat): (r: nat)
    ensures a <= 1 && b <= 1 ==> r <= 1 && (r == 1 <==> a == 1 || b == 1)
  {
    Max(a, b)
  }

  function BinAnd(a: nat, b: nat): (r: nat)
    ensures a <= 1 && b <= 1 ==> r <= 1 && (r == 1 <==> a == 1 && b == 1)
  {
    Min(a, b)
  }

  /** The greyscale difference: a where it exceeds b, else 0.  On 0/1 pixels
      it is a AND NOT b, so one definition serves every depth. */
  function DiffValue(a: nat, b: nat): (r: nat)
    ensures r == 0 || r == a
    ensures a <= 1 && b <= 1 ==> (r == 1 <==> a == 1 && b == 0)
  {
    if a > b then a else 0
  }

  /** Bitwise complement within the depth (total: values above the depth
      maximum, which valid images never hold, give 0). */
  function Invert(depth: nat, v: nat): (r: nat)
    ensures r <= MaxValue(depth)
    ensures v <= MaxValue(depth) ==> r + v == MaxValue(depth)
  {
    if v <= MaxValue(depth) then Complement(depth, v) else 0
  }

  /** Complementing twice gives the value back. */
  lemma InvertInvolution(depth: nat, v: nat)
    requires v <= MaxValue(depth)
    ensures Invert(depth, Invert(depth, v)) == v
  {
  }

  /** Subtracting what was added modulo 2^32 gives the first operand back. */
  lemma WrapAddSub(a: nat, b: nat)
    requires a < Two32
    ensures ((a + b) % Two32 - b) % Two32 == a
  {
    var s := (a + b) % Two32;
    var k := (a + b) / Two32;
    assert s == a + b - k * Two32;
    assert s - b == a + (-k) * Two32;
    assert (a + (-k) * Two32) % Two32 == a;
  }

  // ---------------------------------------------------------------------
  // Binary operators delegated to other files

  /** MB_Or, called for binary pairs by MB_Add and MB_Sup.  Its file is not
      part of this model; it is taken to check the destination depth the way
      MB_And does, and to compute the pixelwise OR. */
  function Or(src1: Image, src2: Image, dest: Image): (r: Result<Image>)
    requires Valid(src1) && Valid(src2) && Valid(dest) && SameSize3(src1, src2, dest)
    requires src1.depth == 1 && src2.depth == 1
    ensures r.Ok? <==> dest.depth == 1
    ensures r.Fail? ==> r.error == BadDepth
    ensures r.Ok? ==> Valid(r.value) && SameSize(r.value, dest) && r.value.depth == 1
    ensures r.Ok? ==> forall x, y :: Inside(dest, x, y) ==>
              (Get(r.value, x, y) == 1 <==> Get(src1, x, y) == 1 || Get(src2, x, y) == 1)
  {
    if dest.depth != src1.depth then Fail(BadDepth)
    else Ok(Map2(src1, src2, dest, BinOr))
  }

  // ---------------------------------------------------------------------
  // MB_And, MB_Inf, MB_Sup, MB_Diff, MB_Inv

  /** MB_And: the bitwise AND of the raw pixels, for equal source depths. */
  function And(src1: Image, src2: Image, dest: Image): (r: Result<Image>)
    requires Valid(src1) && Valid(src2) && Valid(dest)
    ensures !SameSize3(src1, src2, dest) ==> r == Fail(BadSize)
    ensures SameSize3(src1, src2, dest) ==> (r.Ok? <==> dest.depth == src1.depth && src1.depth == src2.depth)
    ensures SameSize3(src1, src2, dest) && r.Fail? ==> r.error == BadDepth
    ensures r.Ok? ==> Valid(r.value) && SameSize(r.value, dest) && r.value.depth == dest.depth
    ensures r.Ok? ==> forall x, y :: Inside(dest, x, y) ==>
              Get(r.value, x, y) <= Get(src1, x, y) && Get(r.value, x, y) <= Get(src2, x, y)
    ensures r.Ok? ==> forall x, y :: Inside(dest, x, y) ==> Get(r.value, x, y) == BitAnd(Get(src1, x, y), Get(src2, x, y))
  {
    if !SameSize3(src1, src2, dest) then Fail(BadSize)
    else if dest.depth != src1.depth then Fail(BadDepth)
    else if !(Probe(src1, src2) in {Pair1x1, Pair8x8, Pair32x32}) then Fail(BadDepth)
    else
      var r := Map2(src1, src2, dest, BitAnd);
      assert forall x, y :: Inside(dest, x, y) ==> Get(r, x, y) <= Get(src1, x, y);
      Ok(r)
  }

  /** On binary pixels the bitwise AND is the logical AND. */
  lemma BitAndOnBits(a: nat, b: nat)
    requires a <= 1 && b <= 1
    ensures BitAnd(a, b) == BinAnd(a, b)
  {
  }

  /** MB_Inf: the pixelwise minimum (logical AND for binary images). */
  function Inf(src1: Image, src2: Image, dest: Image): (r: Result<Image>)
    requires Valid(src1) && Valid(src2) && Valid(dest)
    ensures !SameSize3(src1, src2, dest) ==> r == Fail(BadSize)
    ensures SameSize3(src1, src2, dest) ==> (r.Ok? <==> dest.depth == src1.depth && src1.depth == src2.depth)
    ensures SameSize3(src1, src2, dest) && r.Fail? ==> r.error == BadDepth
    ensures r.Ok? ==> Valid(r.value) && SameSize(r.value, dest) && r.value.depth == dest.depth
    ensures r.Ok? ==> forall x, y :: Inside(dest, x, y) ==>
              Get(r.value, x, y) <= Get(src1, x, y) && Get(r.value, x, y) <= Get(src2, x, y)
              && (Get(r.value, x, y) == Get(src1, x, y) || Get(r.value, x, y) == Get(src2, x, y))
  {
    if !SameSize3(src1, src2, dest) then Fail(BadSize)
    else if dest.depth != src1.depth then Fail(BadDepth)
    else if Probe(src1, src2) == Pair1x1 then
      var r := And(src1, src2, dest);
      assert forall x, y :: Inside(dest, x, y) ==> BitAnd(Get(src1, x, y), Get(src2, x, y)) == BinAnd(Get(src1, x, y), Get(src2, x, y)) by {
        forall x, y | Inside(dest, x, y)
          ensures BitAnd(Get(src1, x, y), Get(src2, x, y)) == BinAnd(Get(src1, x, y), Get(src2, x, y))
        {
          BitAndOnBits(Get(src1, x, y), Get(src2, x, y));
        }
      }
      r
    else if Probe(src1, src2) == Pair8x8 || Probe(src1, src2) == Pair32x32 then
      Ok(Map2(src1, src2, dest, BinAnd))
    else Fail(BadDepth)
  }

  /** MB_Sup: the pixelwise maximum (logical OR for binary images). */
  function Sup(src1: Image, src2: Image, dest: Image): (r: Result<Image>)
    requires Valid(src1) && Valid(src2) && Valid(dest)
    ensures !SameSize3(src1, src2, dest) ==> r == Fail(BadSize)
    ensures SameSize3(src1, src2, dest) ==> (r.Ok? <==> dest.depth == src1.depth && src1.depth == src2.depth)
    ensures SameSize3(src1, src2, dest) && r.Fail? ==> r.error == BadDepth
    ensures r.Ok? ==> Valid(r.value) && SameSize(r.value, dest) && r.value.depth == dest.depth
    ensures r.Ok? ==> forall x, y :: Inside(dest, x, y) ==>
              Get(r.value, x, y) >= Get(src1, x, y) && Get(r.value, x, y) >= Get(src2, x, y)
              && (Get(r.value, x, y) == Get(src1, x, y) || Get(r.value, x, y) == Get(src2, x, y))
  {
    if !SameSize3(src1, src2, dest) then Fail(BadSize)
    else if dest.depth != src1.depth then Fail(BadDepth)
    else if Probe(src1, src2) == Pair1x1 then Or(src1, src2, dest)
    else if Probe(src1, src2) == Pair8x8 || Probe(src1, src2) == Pair32x32 then
      Ok(Map2(src1, src2, dest, BinOr))
    else Fail(BadDepth)
  }

  /** MB_Diff: a where a > b, else 0; on binary images a AND NOT b. */
  function Diff(src1: Image, src2: Image, dest: Image): (r: Result<Image>)
    requires Valid(src1) && Valid(src2) && Valid(dest)
    ensures !SameSize3(src1, src2, dest) ==> r == Fail(BadSize)
    ensures SameSize3(src1, src2, dest) ==> (r.Ok? <==> dest.depth == src1.depth && src1.depth == src2.depth)
    ensures SameSize3(src1, src2, dest) && r.Fail? ==> r.error == BadDepth
    ensures r.Ok? ==> Valid(r.value) && SameSize(r.value, dest) && r.value.depth == dest.depth
    ensures r.Ok? ==> forall x, y :: Inside(dest, x, y) ==>
              (Get(src1, x, y) > Get(src2, x, y) ==> Get(r.value, x, y) == Get(src1, x, y))
              && (Get(src1, x, y) <= Get(src2, x, y) ==> Get(r.value, x, y) == 0)
  {
    if !SameSize3(src1, src2, dest) then Fail(BadSize)
    else if src1.depth != dest.depth then Fail(BadDepth)
    else if Probe(src1, src2) in {Pair1x1, Pair8x8, Pair32x32} then Ok(Map2(src1, src2, dest, DiffValue))
    else Fail(BadDepth)
  }

  /** MB_Inv: the bitwise complement within the depth. */
  function Inv(src: Image, dest: Image): (r: Result<Image>)
    requires Valid(src) && Valid(dest)
    ensures !SameSize(src, dest) ==> r == Fail(BadSize)
    ensures SameSize(src, dest) ==> (r.Ok? <==> src.depth == dest.depth)
    ensures SameSize(src, dest) && r.Fail? ==> r.error == BadDepth
    ensures r.Ok? ==> Valid(r.value) && SameSize(r.value, dest) && r.value.depth == dest.depth
    ensures r.Ok? ==> forall x, y :: Inside(dest, x, y) ==> Get(r.value, x, y) + Get(src, x, y) == MaxValue(dest.depth)
  {
    if !SameSize(src, dest) then Fail(BadSize)
    else if Probe(src, dest) in {Pair1x1, Pair8x8, Pair32x32} then
      Ok(Map1(src, dest, v => Invert(dest.depth, v)))
    else Fail(BadDepth)
  }

  /** Inverting twice gives the source image back. */
  lemma InvTwice(src: Image, dest: Image)
    requires Valid(src) && Valid(dest) && SameSize(src, dest) && src.depth == dest.depth
    ensures Inv(src, dest).Ok? && Inv(Inv(src, dest).value, dest).Ok?
    ensures Inv(Inv(src, dest).value, dest).value == src
  {
    var once := Inv(src, dest).value;
    var twice := Inv(once, dest).value;
    SamePixels(twice, src);
  }

  // ---------------------------------------------------------------------
  // MB_Add, MB_Sub, MB_Mul

  /** The depths of two valid images, read off their depth-pair code. */
  lemma ProbeDepths(a: Image, b: Image)
    requires ValidDepth(a.depth) && ValidDepth(b.depth)
    ensures Probe(a, b) == Pair1x1 <==> a.depth == 1 && b.depth == 1
    ensures Probe(a, b) == Pair1x8 <==> a.depth == 1 && b.depth == 8
    ensures Probe(a, b) == Pair1x32 <==> a.depth == 1 && b.depth == 32
    ensures Probe(a, b) == Pair8x1 <==> a.depth == 8 && b.depth == 1
    ensures Probe(a, b) == Pair8x8 <==> a.depth == 8 && b.depth == 8
    ensures Probe(a, b) == Pair8x32 <==> a.depth == 8 && b.depth == 32
    ensures Probe(a, b) == Pair32x1 <==> a.depth == 32 && b.depth == 1
    ensures Probe(a, b) == Pair32x8 <==> a.depth == 32 && b.depth == 8
    ensures Probe(a, b) == Pair32x32 <==> a.depth == 32 && b.depth == 32
  {
  }

  /** A pixel of a valid image is within its depth. */
  lemma PixelBound(im: Image, x: int, y: int)
    requires Valid(im) && Inside(im, x, y)
    ensures Get(im, x, y) <= MaxValue(im.depth)
  {
  }

  /** The non-binary kernels of MB_Add: a byte destination saturates at 255,
      a 32-bit one keeps the low 32 bits of the sum. */
  function AddPixel(dd: nat, a: nat, b: nat): (r: nat)
    ensures dd == 8 ==> r <= 255 && (a + b <= 255 ==> r == a + b) && (a + b >= 255 ==> r == 255)
    ensures dd != 8 ==> r < Two32 && (a + b < Two32 ==> r == a + b)
  {
    if dd == 8 then SatAdd(a, b, 255) else Wrap32(a + b)
  }

  /** MB_Add.  The sources are ordered so that the second is the deeper one,
      and the destination must be at least that deep.  Two binary sources
      are ORed; an 8-bit destination saturates at 255; a 32-bit one wraps. */
  function Add(src1: Image, src2: Image, dest: Image): (r: Result<Image>)
    requires Valid(src1) && Valid(src2) && Valid(dest)
    ensures !SameSize3(src1, src2, dest) ==> r == Fail(BadSize)
    ensures SameSize3(src1, src2, dest) ==>
              (r.Ok? <==> dest.depth >= src1.depth && dest.depth >= src2.depth
                          && (src1.depth == 1 && src2.depth == 1 ==> dest.depth == 1))
    ensures SameSize3(src1, src2, dest) && r.Fail? ==> r.error == BadDepth
    ensures r.Ok? ==> Valid(r.value) && SameSize(r.value, dest) && r.value.depth == dest.depth
    ensures r.Ok? && dest.depth == 1 ==> forall x, y :: Inside(dest, x, y) ==>
              (Get(r.value, x, y) == 1 <==> Get(src1, x, y) == 1 || Get(src2, x, y) == 1)
    ensures r.Ok? && dest.depth == 8 ==> forall x, y :: Inside(dest, x, y) ==>
              Get(r.value, x, y) == Min(Get(src1, x, y) + Get(src2, x, y), 255)
    ensures r.Ok? && dest.depth == 32 ==> forall x, y :: Inside(dest, x, y) ==>
              Get(r.value, x, y) == (Get(src1, x, y) + Get(src2, x, y)) % Two32
  {
    if !SameSize3(src1, src2, dest) then Fail(BadSize)
    else
      var lo := if src1.depth > src2.depth then src2 else src1;
      var hi := if src1.depth > src2.depth then src1 else src2;
      ProbeDepths(lo, hi);
      if dest.depth < hi.depth then Fail(BadDepth)
      else if Probe(lo, hi) == Pair1x1 then Or(src1, src2, dest)
      else if Probe(lo, hi) in {Pair1x8, Pair8x8, Pair1x32, Pair8x32, Pair32x32} then
        Ok(Map2(src1, src2, dest, (a, b) => AddPixel(dest.depth, a, b)))
      else Fail(BadDepth)
  }

  /** The order of the sources of MB_Add does not matter. */
  lemma AddCommutes(src1: Image, src2: Image, dest: Image)
    requires Valid(src1) && Valid(src2) && Valid(dest)
    ensures Add(src1, src2, dest) == Add(src2, src1, dest)
  {
    var r1 := Add(src1, src2, dest);
    var r2 := Add(src2, src1, dest);
    if r1.Ok? {
      SamePixels(r1.value, r2.value);
    }
  }

  /** The non-binary kernels of MB_Sub: into 8 bits the difference floors at
      0, into 32 bits it wraps. */
  function SubPixel(dd: nat, a: nat, b: nat): (r: nat)
    ensures dd == 8 ==> r <= a && (b <= a ==> r + b == a) && (b >= a ==> r == 0)
    ensures dd != 8 ==> r < Two32 && (b <= a < Two32 ==> r + b == a)
  {
    if dd == 8 then FloorSub(a, b) else Wrap32(a - b)
  }

  /** MB_Sub.  The destination must be at least as deep as both sources.
      Binary minus binary is the set difference; into 8 bits the result
      floors at 0; into 32 bits it wraps.  A binary image cannot be
      subtracted from a deeper one, nor a 32-bit image from a binary one. */
  function Sub(src1: Image, src2: Image, dest: Image): (r: Result<Image>)
    requires Valid(src1) && Valid(src2) && Valid(dest)
    ensures !SameSize3(src1, src2, dest) ==> r == Fail(BadSize)
    ensures SameSize3(src1, src2, dest) ==>
              (r.Ok? <==> dest.depth >= src1.depth && dest.depth >= src2.depth
                          && !(src1.depth == 1 && src2.depth != 1)
                          && !(src1.depth == 32 && src2.depth == 1)
                          && (src1.depth == 1 ==> dest.depth == 1)
                          && (src1.depth == 8 && src2.depth == 1 ==> dest.depth == 8))
    ensures SameSize3(src1, src2, dest) && r.Fail? ==> r.error == BadDepth
    ensures r.Ok? ==> Valid(r.value) && SameSize(r.value, dest) && r.value.depth == dest.depth
    ensures r.Ok? && dest.depth <= 8 ==> forall x, y :: Inside(dest, x, y) ==>
              Get(r.value, x, y) == Max(Get(src1, x, y) - Get(src2, x, y), 0)
    ensures r.Ok? && dest.depth == 32 ==> forall x, y :: Inside(dest, x, y) ==>
              Get(r.value, x, y) == (Get(src1, x, y) - Get(src2, x, y)) % Two32
  {
    if !SameSize3(src1, src2, dest) then Fail(BadSize)
    else if dest.depth < src1.depth || dest.depth < src2.depth then Fail(BadDepth)
    else
      ProbeDepths(src1, src2);
      var p := Probe(src1, src2);
      if p == Pair1x1 then
        var r := Diff(src1, src2, dest);
        assert forall x, y :: Inside(dest, x, y) ==> Get(src1, x, y) <= 1 && Get(src2, x, y) <= 1 by {
          forall x, y | Inside(dest, x, y)
            ensures Get(src1, x, y) <= 1 && Get(src2, x, y) <= 1
          {
            PixelBound(src1, x, y);
            PixelBound(src2, x, y);
          }
        }
        r
      else if p == Pair8x1 && dest.depth != 8 then Fail(BadDepth)
      else if p in {Pair8x1, Pair8x8, Pair32x32, Pair8x32, Pair32x8} then
        Ok(Map2(src1, src2, dest, (a, b) => SubPixel(dest.depth, a, b)))
      else Fail(BadDepth)
  }

  /** On 32-bit images MB_Sub undoes MB_Add. */
  lemma AddThenSub32(a: Image, b: Image, dest: Image)
    requires Valid(a) && Valid(b) && Valid(dest) && SameSize3(a, b, dest)
    requires a.depth == 32 && b.depth == 32 && dest.depth == 32
    ensures Add(a, b, dest).Ok?
    ensures Sub(Add(a, b, dest).value, b, dest) == Ok(a)
  {
    ProbeDepths(a, b);
    var s := Map2(a, b, dest, (u, v) => AddPixel(dest.depth, u, v));
    assert Add(a, b, dest) == Ok(s);
    ProbeDepths(s, b);
    var t := Map2(s, b, dest, (u, v) => SubPixel(dest.depth, u, v));
    assert Sub(s, b, dest) == Ok(t);
    AddSubPixels(a, b, s, t);
    SamePixels(t, a);
  }

  /** The pixels of AddThenSub32, each sum taken modulo 2^32 and each
      difference too. */
  lemma AddSubPixels(a: Image, b: Image, s: Image, t: Image)
    requires Valid(a) && a.depth == 32 && SameSize(a, t)
    requires forall x, y :: Inside(t, x, y) ==> Get(s, x, y) == (Get(a, x, y) + Get(b, x, y)) % Two32
    requires forall x, y :: Inside(t, x, y) ==> Get(t, x, y) == (Get(s, x, y) - Get(b, x, y)) % Two32
    ensures forall x, y :: Inside(t, x, y) ==> Get(t, x, y) == Get(a, x, y)
  {
    forall x, y | Inside(t, x, y)
      ensures Get(t, x, y) == Get(a, x, y)
    {
      PixelBound(a, x, y);
      WrapAddSub(Get(a, x, y), Get(b, x, y));
    }
  }

  /** On 8-bit images MB_Sub after MB_Add gives the first image back as long
      as the sum did not saturate. */
  lemma AddThenSub8(a: Image, b: Image, dest: Image, x: int, y: int)
    requires Valid(a) && Valid(b) && Valid(dest) && SameSize3(a, b, dest)
    requires a.depth == 8 && b.depth == 8 && dest.depth == 8
    requires Inside(dest, x, y) && Get(a, x, y) + Get(b, x, y) <= 255
    ensures Add(a, b, dest).Ok? && Sub(Add(a, b, dest).value, b, dest).Ok?
    ensures Get(Sub(Add(a, b, dest).value, b, dest).value, x, y) == Get(a, x, y)
  {
  }

  /** The non-binary kernels of MB_Mul: into 8 bits the product saturates,
      into 32 bits it wraps.  A binary source multiplies as 0 or 1. */
  function MulPixel(dd: nat, a: nat, b: nat): (r: nat)
    ensures dd == 8 ==> r <= 255 && (a * b <= 255 ==> r == a * b) && (a * b >= 255 ==> r == 255)
    ensures dd != 8 ==> r < Two32 && (a * b < Two32 ==> r == a * b)
  {
    if dd == 8 then SatMul(a, b, 255) else Wrap32(a * b)
  }

  /** The binary case of MB_Mul, delegated to MB_And: the AND of two 0/1
      pixels is their product. */
  function MulBinary(src1: Image, src2: Image, dest: Image): (r: Result<Image>)
    requires Valid(src1) && Valid(src2) && Valid(dest) && SameSize3(src1, src2, dest)
    requires src1.depth == 1 && src2.depth == 1
    ensures r.Ok? <==> dest.depth == 1
    ensures r.Fail? ==> r.error == BadDepth
    ensures r.Ok? ==> Valid(r.value) && SameSize(r.value, dest) && r.value.depth == 1
    ensures r.Ok? ==> forall x, y :: Inside(dest, x, y) ==>
              Get(r.value, x, y) == (Get(src1, x, y) * Get(src2, x, y)) % Two32
  {
    var r := And(src1, src2, dest);
    assert r.Ok? ==> forall x, y :: Inside(dest, x, y) ==>
              Get(r.value, x, y) == (Get(src1, x, y) * Get(src2, x, y)) % Two32 by {
      if r.Ok? {
        forall x, y | Inside(dest, x, y)
          ensures Get(r.value, x, y) == (Get(src1, x, y) * Get(src2, x, y)) % Two32
        {
          PixelBound(src1, x, y);
          PixelBound(src2, x, y);
          BitAndOnBits(Get(src1, x, y), Get(src2, x, y));
        }
      }
    }
    r
  }

  /** MB_Mul.  Sources are ordered so that the second is the deeper;
      binary times binary is the AND; a binary source masks the other; 8
      times 8 into 8 bits saturates; into 32 bits the product wraps. */
  function Mul(src1: Image, src2: Image, dest: Image): (r: Result<Image>)
    requires Valid(src1) && Valid(src2) && Valid(dest)
    ensures !SameSize3(src1, src2, dest) ==> r == Fail(BadSize)
    ensures SameSize3(src1, src2, dest) ==>
              (r.Ok? <==> dest.depth >= src1.depth && dest.depth >= src2.depth
                          && (src1.depth == 1 && src2.depth == 1 ==> dest.depth == 1))
    ensures SameSize3(src1, src2, dest) && r.Fail? ==> r.error == BadDepth
    ensures r.Ok? ==> Valid(r.value) && SameSize(r.value, dest) && r.value.depth == dest.depth
    ensures r.Ok? && dest.depth == 8 ==> forall x, y :: Inside(dest, x, y) ==>
              Get(r.value, x, y) == Min(Get(src1, x, y) * Get(src2, x, y), 255)
    ensures r.Ok? && dest.depth != 8 ==> forall x, y :: Inside(dest, x, y) ==>
              Get(r.value, x, y) == (Get(src1, x, y) * Get(src2, x, y)) % Two32
  {
    if !SameSize3(src1, src2, dest) then Fail(BadSize)
    else
      var lo := if src1.depth > src2.depth then src2 else src1;
      var hi := if src1.depth > src2.depth then src1 else src2;
      ProbeDepths(lo, hi);
      if dest.depth < hi.depth then Fail(BadDepth)
      else if Probe(lo, hi) == Pair1x1 then MulBinary(src1, src2, dest)
      else if Probe(lo, hi) in {Pair1x8, Pair8x8, Pair1x32, Pair8x32, Pair32x32} then
        Ok(Map2(src1, src2, dest, (a, b) => MulPixel(dest.depth, a, b)))
      else Fail(BadDepth)
  }

  /** A binary source masks the other one: where it is set the product is
      the other pixel, elsewhere 0. */
  lemma MulByBinary(bin: Image, g: Image, dest: Image, x: int, y: int)
    requires Valid(bin) && Valid(g) && Valid(dest) && SameSize3(bin, g, dest)
    requires bin.depth == 1 && g.depth != 1 && dest.depth == g.depth && Inside(dest, x, y)
    ensures Mul(bin, g, dest).Ok?
    ensures Get(Mul(bin, g, dest).value, x, y) == (if Get(bin, x, y) == 1 then Get(g, x, y) else 0)
  {
    PixelBound(bin, x, y);
    PixelBound(g, x, y);
  }

  /** The order of the sources of MB_Mul does not matter. */
  lemma MulCommutes(src1: Image, src2: Image, dest: Image)
    requires Valid(src1) && Valid(src2) && Valid(dest)
    ensures Mul(src1, src2, dest) == Mul(src2, src1, dest)
  {
    var r1 := Mul(src1, src2, dest);
    var r2 := Mul(src2, src1, dest);
    if r1.Ok? {
      SamePixels(r1.value, r2.value);
    }
  }
  // ---------------------------------------------------------------------
  // Constant operators

  /** The 8-bit kernel of MB_ConSub in a build without SSE2: the difference of
      a byte and the 16-bit constant is stored into a signed 16-bit variable
      before it is clamped, so a difference above 32767 wraps to a negative
      value. */
  function ConSub8Scalar(p: nat, v16: int): (r: nat)
    requires p <= 255 && -32768 <= v16 < 32768
    ensures r <= 255
    ensures v16 > p - 32768 ==> r == Clamp8(p - v16)
    ensures v16 <= p - 32768 ==> r == 0
  {
    Clamp8(ToSint16(p - v16))
  }

  /** The 8-bit kernel of MB_ConSub in a build with SSE2: a negative constant
      is added, a positive one subtracted, both capped at 255 and applied with
      byte saturation.  Whatever the constant, this is the exact difference
      clamped to a byte. */
  function ConSub8(p: nat, v16: int): (r: nat)
    requires p <= 255 && -32768 <= v16 < 32768
    ensures r <= 255
    ensures r == Clamp8(p - v16)
  {
    if v16 < 0 then SatAdd(p, if v16 < -255 then 255 else -v16, 255)
    else FloorSub(p, if v16 > 255 then 255 else v16)
  }

  /** The two builds agree exactly when the difference fits in 16 bits. */
  lemma ConSub8Agree(p: nat, v16: int)
    requires p <= 255 && -32768 <= v16 < 32768
    ensures ConSub8Scalar(p, v16) == ConSub8(p, v16) <==> p - v16 < 32768
  {
  }

  /** Subtracting -32768 from 0 gives 0 without SSE2 and 255 with it. */
  lemma ConSub8Overflow()
    ensures ConSub8Scalar(0, -32768) == 0
    ensures ConSub8(0, -32768) == 255
  {
  }

  /** MB_ConSub.  For 8-bit images the constant is first truncated to 16 bits
      and the result clamped (the SSE2 kernel); into 32-bit images the result
      wraps. */
  function ConSub(src: Image, value: int, dest: Image): (r: Result<Image>)
    requires Valid(src) && Valid(dest) && -0x8000_0000 <= value < 0x8000_0000
    ensures !SameSize(src, dest) ==> r == Fail(BadSize)
    ensures SameSize(src, dest) ==> (r.Ok? <==> Probe(src, dest) in {Pair8x8, Pair32x32, Pair8x32})
    ensures SameSize(src, dest) && r.Fail? ==> r.error == BadDepth
    ensures r.Ok? ==> Valid(r.value) && SameSize(r.value, dest) && r.value.depth == dest.depth
    ensures r.Ok? && dest.depth == 8 ==> forall x, y :: Inside(dest, x, y) ==>
              Get(r.value, x, y) == Clamp8(Get(src, x, y) - ToSint16(value))
    ensures r.Ok? && dest.depth == 32 ==> forall x, y :: Inside(dest, x, y) ==>
              Get(r.value, x, y) == (Get(src, x, y) - value) % Two32
  {
    if !SameSize(src, dest) then Fail(BadSize)
    else
      ProbeDepths(src, dest);
      if Probe(src, dest) == Pair8x8 then
        Ok(Map1(src, dest, p => if p <= 255 then ConSub8(p, ToSint16(value)) else 0))
      else if Probe(src, dest) == Pair32x32 || Probe(src, dest) == Pair8x32 then
        Ok(Map1(src, dest, p => WrapSub(p, value)))
      else Fail(BadDepth)
  }

  /** Values from the C tests: 255 - i for every byte i, subtracting -255 from
      0 gives 255, and 0 - 1 into a 32-bit image wraps to 2^32 - 1. */
  lemma ConSubFixtures()
    ensures forall i :: 0 <= i <= 255 ==> ConSub8(255, ToSint16(i)) == 255 - i
    ensures ConSub8(0, ToSint16(-255)) == 255
    ensures Wrap32(0 - 1) == Max32
    ensures ToSint16(0x1_0005) == 5
  {
  }

  /** The 8-bit kernel of MB_ConMul as written: the product is formed in
      32-bit unsigned arithmetic and only then compared with 255. */
  function ConMul8AsWritten(p: nat, v: nat): (r: nat)
    requires p <= 255 && v < Two32
    ensures r <= 255
    ensures p * v < Two32 ==> r == Min(p * v, 255)
  {
    Min(Wrap32(p * v), 255)
  }

  /** The intended 8-bit kernel: the product saturating at 255. */
  function ConMul8(p: nat, v: nat): (r: nat)
    requires p <= 255 && v < Two32
    ensures r <= 255
    ensures p * v <= 255 ==> r == p * v
    ensures p * v >= 255 ==> r == 255
  {
    SatMul(p, v, 255)
  }

  /** The two kernels agree as long as the product fits in 32 bits. */
  lemma ConMul8Agree(p: nat, v: nat)
    requires p <= 255 && v < Two32 && p * v < Two32
    ensures ConMul8AsWritten(p, v) == ConMul8(p, v)
  {
  }

  /** 2 * 2^31 wraps to 0: the product saturates to 0 instead of 255. */
  lemma ConMul8Overflow()
    ensures ConMul8AsWritten(2, 0x8000_0000) == 0
    ensures ConMul8(2, 0x8000_0000) == 255
  {
  }

  /** The largest constant whose product with every byte fits in 32 bits. */
  const MaxSafeFactor: nat := 0x0101_0101

  /** MB_ConMul as written: the 8-bit product wraps modulo 2^32 before it is
      saturated, so it saturates only while it fits; 32-bit results wrap. */
  function ConMul(src: Image, value: nat, dest: Image): (r: Result<Image>)
    requires Valid(src) && Valid(dest) && value < Two32
    ensures !SameSize(src, dest) ==> r == Fail(BadSize)
    ensures SameSize(src, dest) ==> (r.Ok? <==> Probe(src, dest) in {Pair8x8, Pair32x32})
    ensures SameSize(src, dest) && r.Fail? ==> r.error == BadDepth
    ensures r.Ok? ==> Valid(r.value) && SameSize(r.value, dest) && r.value.depth == dest.depth
    ensures r.Ok? && dest.depth == 8 ==> forall x, y :: Inside(dest, x, y) ==>
              Get(r.value, x, y) == Min((Get(src, x, y) * value) % Two32, 255)
    ensures r.Ok? && dest.depth == 32 ==> forall x, y :: Inside(dest, x, y) ==>
              Get(r.value, x, y) == (Get(src, x, y) * value) % Two32
  {
    if !SameSize(src, dest) then Fail(BadSize)
    else if Probe(src, dest) == Pair8x8 then
      Ok(Map1(src, dest, p => if p <= 255 then ConMul8AsWritten(p, value) else 0))
    else if Probe(src, dest) == Pair32x32 then
      Ok(Map1(src, dest, p => Wrap32(p * value)))
    else Fail(BadDepth)
  }

  /** MB_ConMul with the 8-bit product saturating whatever the constant. */
  function ConMulSaturating(src: Image, value: nat, dest: Image): (r: Result<Image>)
    requires Valid(src) && Valid(dest) && value < Two32
    ensures !SameSize(src, dest) ==> r == Fail(BadSize)
    ensures SameSize(src, dest) ==> (r.Ok? <==> Probe(src, dest) in {Pair8x8, Pair32x32})
    ensures SameSize(src, dest) && r.Fail? ==> r.error == BadDepth
    ensures r.Ok? ==> Valid(r.value) && SameSize(r.value, dest) && r.value.depth == dest.depth
    ensures r.Ok? && dest.depth == 8 ==> forall x, y :: Inside(dest, x, y) ==>
              Get(r.value, x, y) == Min(Get(src, x, y) * value, 255)
    ensures r.Ok? && dest.depth == 32 ==> forall x, y :: Inside(dest, x, y) ==>
              Get(r.value, x, y) == (Get(src, x, y) * value) % Two32
  {
    if !SameSize(src, dest) then Fail(BadSize)
    else if Probe(src, dest) == Pair8x8 then
      Ok(Map1(src, dest, p => if p <= 255 then ConMul8(p, value) else 0))
    else if Probe(src, dest) == Pair32x32 then
      Ok(Map1(src, dest, p => Wrap32(p * value)))
    else Fail(BadDepth)
  }

  /** A byte times a constant up to MaxSafeFactor fits in 32 bits. */
  lemma ProductFits(p: nat, v: nat)
    requires p <= 255 && v <= MaxSafeFactor
    ensures p * v < Two32
  {
    assert p * v <= 255 * v;
    assert 255 * v <= 255 * MaxSafeFactor;
  }

  /** The two versions of MB_ConMul give the same image for every constant up
      to MaxSafeFactor. */
  lemma ConMulAgree(src: Image, value: nat, dest: Image)
    requires Valid(src) && Valid(dest) && value < Two32 && value <= MaxSafeFactor
    ensures ConMul(src, value, dest) == ConMulSaturating(src, value, dest)
  {
    var r1 := ConMul(src, value, dest);
    var r2 := ConMulSaturating(src, value, dest);
    if r1.Ok? {
      forall p: nat | p <= 255
        ensures ConMul8AsWritten(p, value) == ConMul8(p, value)
      {
        ProductFits(p, value);
        ConMul8Agree(p, value);
      }
      SamePixels(r1.value, r2.value);
    }
  }

  /** Unsigned division: the largest q with q * d <= p. */
  function Quotient(p: nat, d: nat): (q: nat)
    requires d >= 1
    ensures q <= p
    ensures q * d <= p < (q + 1) * d
  {
    var q := p / d;
    assert p == q * d + p % d;
    assert (q + 1) * d == q * d + d;
    assert q <= q * d by {
      assert q * d == q * (d - 1) + q;
    }
    q
  }

  /** The kernel of the 32-bit constant subtraction: the difference modulo 2^32. */
  function WrapSub(p: nat, value: int): (r: nat)
    ensures r <= Max32
    ensures r == (p - value) % Two32
  {
    Wrap32(p - value)
  }

  /** The divisor of the 8-bit kernel of MB_ConDiv: clamped to [1, 255]. */
  function Divisor8(value: nat): (d: nat)
    ensures 1 <= d <= 255
    ensures 1 <= value <= 255 ==> d == value
  {
    if value > 255 then 255 else if value < 1 then 1 else value
  }

  /** MB_ConDiv: a zero divisor is refused before the depth is looked at;
      the quotient is the floor of the division. */
  function ConDiv(src: Image, value: nat, dest: Image): (r: Result<Image>)
    requires Valid(src) && Valid(dest) && value < Two32
    ensures !SameSize(src, dest) ==> r == Fail(BadSize)
    ensures SameSize(src, dest) && value == 0 ==> r == Fail(BadValue)
    ensures SameSize(src, dest) && value != 0 ==> (r.Ok? <==> Probe(src, dest) in {Pair8x8, Pair32x32})
    ensures SameSize(src, dest) && value != 0 && r.Fail? ==> r.error == BadDepth
    ensures r.Ok? ==> Valid(r.value) && SameSize(r.value, dest) && r.value.depth == dest.depth
    ensures r.Ok? ==> forall x, y :: Inside(dest, x, y) ==>
              var d := if dest.depth == 8 then Divisor8(value) else value;
              Get(r.value, x, y) * d <= Get(src, x, y) < (Get(r.value, x, y) + 1) * d
  {
    if !SameSize(src, dest) then Fail(BadSize)
    else if value == 0 then Fail(BadValue)
    else
      ProbeDepths(src, dest);
      if Probe(src, dest) == Pair8x8 then
        var d := Divisor8(value);
        Ok(Map1(src, dest, p => Quotient(p, d)))
      else if Probe(src, dest) == Pair32x32 then
        Ok(Map1(src, dest, p => Quotient(p, value)))
      else Fail(BadDepth)
  }

  /** Multiplying by a natural number keeps the order. */
  lemma MulMonotone(a: nat, b: nat, d: nat)
    ensures a <= b ==> a * d <= b * d
  {
    if a <= b {
      assert b * d == a * d + (b - a) * d;
    }
  }

  /** On 32-bit images MB_ConDiv undoes MB_ConMul by the same constant as
      long as no product wraps around. */
  lemma ConDivUndoesConMul(src: Image, value: nat, dest: Image)
    requires Valid(src) && Valid(dest) && 1 <= value < Two32
    requires SameSize(src, dest) && src.depth == 32 && dest.depth == 32
    requires forall x, y :: Inside(src, x, y) ==> Get(src, x, y) * value < Two32
    ensures ConMul(src, value, dest).Ok?
    ensures ConDiv(ConMul(src, value, dest).value, value, dest).Ok?
    ensures forall x, y :: Inside(dest, x, y) ==>
              Get(ConDiv(ConMul(src, value, dest).value, value, dest).value, x, y) == Get(src, x, y)
  {
    var m := ConMul(src, value, dest);
    assert Probe(src, dest) == Pair32x32;
    var d := ConDiv(m.value, value, dest);
    assert Probe(m.value, dest) == Pair32x32;
    forall x, y | Inside(dest, x, y)
      ensures Get(d.value, x, y) == Get(src, x, y)
    {
      var s := Get(src, x, y);
      var q := Get(d.value, x, y);
      assert Get(m.value, x, y) == s * value;
      MulMonotone(q + 1, s, value);
      MulMonotone(s + 1, q, value);
    }
  }

  /** The 32-bit word MB_ConSet writes: for 8-bit images the clamped value
      replicated into the four bytes by two shift-and-OR steps. */
  function ConSetPattern(depth: nat, value: nat): (w: nat)
    requires value < Two32
    ensures depth == 8 ==> Bytes(w) == [Min(value, 255), Min(value, 255), Min(value, 255), Min(value, 255)]
    ensures depth == 1 ==> (w == Max32 <==> value != 0) && (w == 0 <==> value == 0)
    ensures depth == 32 ==> w == value
  {
    if depth == 1 then (if value != 0 then Max32 else 0)
    else if depth == 8 then
      var b: nat := if value < 255 then value else 255;
      var once := b + b * 256;
      var twice := once + once * 65536;
      assert twice == Word(b, b, b, b);
      WordBytesRoundTrip(b, b, b, b);
      twice
    else value
  }

  /** MB_ConSet: every pixel set from the constant, with no size check. */
  function ConSet(dest: Image, value: nat): (r: Result<Image>)
    requires Valid(dest) || !ValidDepth(dest.depth)
    requires value < Two32
    ensures r.Ok? <==> ValidDepth(dest.depth)
    ensures r.Fail? ==> r.error == BadDepth
    ensures r.Ok? ==> Valid(r.value) && SameSize(r.value, dest) && r.value.depth == dest.depth
    ensures r.Ok? ==> forall x, y :: Inside(dest, x, y) ==>
              Get(r.value, x, y) == (if dest.depth == 1 then (if value != 0 then 1 else 0) else Min(value, MaxValue(dest.depth)))
  {
    if !ValidDepth(dest.depth) then Fail(BadDepth)
    else
      var w := ConSetPattern(dest.depth, value);
      var v: nat := if dest.depth == 1 then w % 2 else if dest.depth == 8 then Bytes(w)[0] else w;
      Ok(Make(dest.width, dest.height, dest.depth, (x, y) => v))
  }

  // ---------------------------------------------------------------------
  // MB_Thresh, MB_Mask, MB_Convert, MB_CopyBitPlane

  /** MB_Thresh: a pixel is set iff its value lies in [low, high].  For 8-bit
      sources both bounds are truncated to a byte after the low <= high check. */
  function Thresh(src: Image, dest: Image, low: nat, high: nat): (r: Result<Image>)
    requires Valid(src) && Valid(dest) && low < Two32 && high < Two32
    ensures !SameSize(src, dest) ==> r == Fail(BadSize)
    ensures SameSize(src, dest) && low > high ==> r == Fail(BadValue)
    ensures SameSize(src, dest) && low <= high ==> (r.Ok? <==> Probe(src, dest) in {Pair8x1, Pair32x1})
    ensures SameSize(src, dest) && low <= high && r.Fail? ==> r.error == BadDepth
    ensures r.Ok? ==> Valid(r.value) && SameSize(r.value, dest) && r.value.depth == 1
    ensures r.Ok? && src.depth == 8 ==> forall x, y :: Inside(dest, x, y) ==>
              (Get(r.value, x, y) == 1 <==> low % 256 <= Get(src, x, y) <= high % 256)
    ensures r.Ok? && src.depth == 32 ==> forall x, y :: Inside(dest, x, y) ==>
              (Get(r.value, x, y) == 1 <==> low <= Get(src, x, y) <= high)
  {
    if !SameSize(src, dest) then Fail(BadSize)
    else if low > high then Fail(BadValue)
    else if Probe(src, dest) == Pair8x1 then
      var lo := LowByte(low);
      var hi := LowByte(high);
      Ok(Map1(src, dest, v => if lo <= v <= hi then 1 else 0))
    else if Probe(src, dest) == Pair32x1 then
      Ok(Map1(src, dest, v => if low <= v <= high then 1 else 0))
    else Fail(BadDepth)
  }

  /** Only the low bytes of the bounds matter for an 8-bit source: for
      instance thresholding on [0, 256] keeps the same pixels as on [0, 0]. */
  lemma ThreshLowBytes(src: Image, dest: Image, low: nat, high: nat, low': nat, high': nat)
    requires Valid(src) && Valid(dest) && src.depth == 8
    requires low <= high < Two32 && low' <= high' < Two32
    requires low % 256 == low' % 256 && high % 256 == high' % 256
    ensures Thresh(src, dest, low, high) == Thresh(src, dest, low', high')
  {
    var r := Thresh(src, dest, low, high);
    var r' := Thresh(src, dest, low', high');
    if r.Ok? {
      SamePixels(r.value, r'.value);
    }
  }

  /** The 256 fixture: [0, 256] is [0, 0] once truncated. */
  lemma ThreshOn256(src: Image, dest: Image)
    requires Valid(src) && Valid(dest) && src.depth == 8
    ensures Thresh(src, dest, 0, 256) == Thresh(src, dest, 0, 0)
  {
    ThreshLowBytes(src, dest, 0, 256, 0, 0);
  }

  /** Thresholding the inverted image on the mirrored range selects the same
      pixels (for an 8-bit source the bounds must already be bytes). */
  lemma ThreshInv(src: Image, inv: Image, dest: Image, low: nat, high: nat)
    requires Valid(src) && Valid(inv) && Valid(dest) && SameSize(src, inv) && src.depth == inv.depth
    requires src.depth in {8, 32} && low <= high <= MaxValue(src.depth)
    ensures Inv(src, inv).Ok?
    ensures var m := MaxValue(src.depth);
            Thresh(Inv(src, inv).value, dest, m - high, m - low) == Thresh(src, dest, low, high)
  {
    var i := Inv(src, inv).value;
    var m := MaxValue(src.depth);
    var r := Thresh(i, dest, m - high, m - low);
    var r' := Thresh(src, dest, low, high);
    if r.Ok? {
      if src.depth == 8 {
        assert LowByte(m - high) == m - high && LowByte(m - low) == m - low;
        assert LowByte(low) == low && LowByte(high) == high;
      }
      forall x, y | Inside(dest, x, y)
        ensures Get(r.value, x, y) == Get(r'.value, x, y)
      {
        PixelBound(r.value, x, y);
        PixelBound(r'.value, x, y);
        assert Get(i, x, y) + Get(src, x, y) == m;
      }
      SamePixels(r.value, r'.value);
    }
  }

  /** MB_Mask: a set pixel becomes maskt, a clear one maskf; for an 8-bit
      destination both are truncated to a byte. */
  function Mask(src: Image, dest: Image, maskf: nat, maskt: nat): (r: Result<Image>)
    requires Valid(src) && Valid(dest) && maskf < Two32 && maskt < Two32
    ensures !SameSize(src, dest) ==> r == Fail(BadSize)
    ensures SameSize(src, dest) ==> (r.Ok? <==> Probe(src, dest) in {Pair1x8, Pair1x32})
    ensures SameSize(src, dest) && r.Fail? ==> r.error == BadDepth
    ensures r.Ok? ==> Valid(r.value) && SameSize(r.value, dest) && r.value.depth == dest.depth
    ensures r.Ok? ==> forall x, y :: Inside(dest, x, y) ==>
              Get(r.value, x, y) == (if dest.depth == 8 then (if Get(src, x, y) == 1 then maskt else maskf) % 256
                                     else if Get(src, x, y) == 1 then maskt else maskf)
  {
    if !SameSize(src, dest) then Fail(BadSize)
    else if Probe(src, dest) == Pair1x8 then
      var f := LowByte(maskf);
      var t := LowByte(maskt);
      Ok(Map1(src, dest, v => if v % 2 == 1 then t else f))
    else if Probe(src, dest) == Pair1x32 then
      Ok(Map1(src, dest, v => if v % 2 == 1 then maskt else maskf))
    else Fail(BadDepth)
  }

  /** Masking a binary image with two different byte values and
      thresholding on the second gives the binary image back. */
  lemma MaskThenThresh(b: Image, grey: Image, maskf: nat, maskt: nat)
    requires Valid(b) && Valid(grey) && SameSize(b, grey) && b.depth == 1 && grey.depth == 8
    requires maskf < 256 && maskt < 256 && maskf != maskt
    ensures Mask(b, grey, maskf, maskt).Ok?
    ensures Thresh(Mask(b, grey, maskf, maskt).value, b, maskt, maskt) == Ok(b)
  {
    var m := Mask(b, grey, maskf, maskt).value;
    var t := Thresh(m, b, maskt, maskt).value;
    forall x, y | Inside(b, x, y)
      ensures Get(t, x, y) == Get(b, x, y)
    {
      PixelBound(b, x, y);
      PixelBound(t, x, y);
    }
    SamePixels(t, b);
  }

  /** A constant image thresholded on its own value is set everywhere. */
  lemma ConSetThenThresh(dest: Image, value: nat, bin: Image)
    requires Valid(dest) && dest.depth in {8, 32} && value < Two32
    requires Valid(bin) && bin.depth == 1 && SameSize(dest, bin)
    ensures ConSet(dest, value).Ok?
    ensures var c := Min(value, MaxValue(dest.depth));
            var t := Thresh(ConSet(dest, value).value, bin, c, c);
            t.Ok? && forall x, y :: Inside(bin, x, y) ==> Get(t.value, x, y) == 1
  {
  }

  /** MB_Convert: equal depths copy; binary to 8-bit maps 1 to 255; 8-bit to
      binary sets exactly the pixels equal to 255; 32-bit mixes are refused. */
  function Convert(src: Image, dest: Image): (r: Result<Image>)
    requires Valid(src) && Valid(dest)
    ensures !SameSize(src, dest) ==> r == Fail(BadSize)
    ensures SameSize(src, dest) ==> (r.Ok? <==> src.depth == dest.depth || Probe(src, dest) in {Pair1x8, Pair8x1})
    ensures SameSize(src, dest) && r.Fail? ==> r.error == BadDepth
    ensures r.Ok? ==> Valid(r.value) && SameSize(r.value, dest) && r.value.depth == dest.depth
    ensures r.Ok? && src.depth == dest.depth ==> forall x, y :: Inside(dest, x, y) ==> Get(r.value, x, y) == Get(src, x, y)
    ensures r.Ok? && src.depth == 1 && dest.depth == 8 ==> forall x, y :: Inside(dest, x, y) ==>
              Get(r.value, x, y) == 255 * Get(src, x, y)
    ensures r.Ok? && src.depth == 8 && dest.depth == 1 ==> forall x, y :: Inside(dest, x, y) ==>
              (Get(r.value, x, y) == 1 <==> Get(src, x, y) == 255)
  {
    if !SameSize(src, dest) then Fail(BadSize)
    else if Probe(src, dest) in {Pair1x1, Pair8x8, Pair32x32} then Copy(src, dest, false)
    else if Probe(src, dest) == Pair1x8 then Ok(Map1(src, dest, v => if v % 2 == 1 then 255 else 0))
    else if Probe(src, dest) == Pair8x1 then Ok(Map1(src, dest, v => if v == 255 then 1 else 0))
    else Fail(BadDepth)
  }

  /** Converting a binary image to 8 bits and back gives it back; of the 256
      byte values only 255 converts to a set pixel. */
  lemma ConvertRoundTrip(b: Image, g: Image, b2: Image)
    requires Valid(b) && Valid(g) && Valid(b2) && SameSize3(b, g, b2)
    requires b.depth == 1 && g.depth == 8 && b2.depth == 1
    ensures Convert(b, g).Ok? && Convert(Convert(b, g).value, b2).Ok?
    ensures forall x, y :: Inside(b, x, y) ==> Get(Convert(Convert(b, g).value, b2).value, x, y) == Get(b, x, y)
  {
  }

  /** v >> n: n halvings. */
  function Shr(v: nat, n: nat): (r: nat)
    ensures r <= v
  {
    if n == 0 then v else Shr(v / 2, n - 1)
  }

  function Pow2(n: nat): (p: nat)
    ensures p >= 1
  {
    if n == 0 then 1 else 2 * Pow2(n - 1)
  }

  /** EXTRACT_BIT_PLANE: bit `pos` of a byte, (v >> pos) & 1. */
  function ExtractBitPlane(value: nat, pos: nat): (b: nat)
    ensures b <= 1
  {
    Shr(value, pos) % 2
  }

  /** SET_BIT_PLANE: bit `pos` of a byte forced to `bit` by subtracting or
      adding 2^pos. */
  function SetBitPlane(value: nat, bit: nat, pos: nat): (r: nat)
    requires value <= 255 && bit <= 1 && pos <= 7
    ensures r <= 255
  {
    var p := Pow2(pos);
    if bit == 0 && ExtractBitPlane(value, pos) == 1 then
      ShrPositive(value, pos);
      value - p
    else if bit == 1 && ExtractBitPlane(value, pos) == 0 then
      BitRoom(value, pos, 8);
      value + p
    else value
  }

  /** A value whose shift by pos is non-zero is at least 2^pos. */
  lemma {:induction false} ShrPositive(v: nat, pos: nat)
    requires Shr(v, pos) >= 1
    ensures v >= Pow2(pos)
  {
    if pos > 0 {
      ShrPositive(v / 2, pos - 1);
    }
  }

  /** Removing 2^pos lowers v >> pos by one. */
  lemma {:induction false} ShrSubPow(v: nat, pos: nat)
    requires v >= Pow2(pos)
    ensures Shr(v - Pow2(pos), pos) + 1 == Shr(v, pos)
  {
    if pos > 0 {
      assert (v - Pow2(pos)) / 2 == v / 2 - Pow2(pos - 1);
      ShrSubPow(v / 2, pos - 1);
    }
  }

  /** Adding 2^pos to a value whose bit pos is clear sets that bit and
      changes no other. */
  lemma {:induction false} FlipBit(v: nat, pos: nat, q: nat)
    requires Shr(v, pos) % 2 == 0
    ensures Shr(v + Pow2(pos), q) % 2 == (if q == pos then 1 else Shr(v, q) % 2)
  {
    if pos == 0 {
      if q > 0 {
        assert (v + 1) / 2 == v / 2;
      }
    } else if q > 0 {
      assert (v + Pow2(pos)) / 2 == v / 2 + Pow2(pos - 1);
      FlipBit(v / 2, pos - 1, q - 1);
    }
  }

  /** A value below 2^n with bit pos clear stays below 2^n when that bit is
      set. */
  lemma {:induction false} BitRoom(v: nat, pos: nat, n: nat)
    requires Shr(v, pos) % 2 == 0 && v < Pow2(n) && pos < n
    ensures v + Pow2(pos) < Pow2(n)
  {
    assert Pow2(n) == 2 * Pow2(n - 1);
    if pos == 0 {
      assert v % 2 == 0;
    } else {
      assert Shr(v, pos) == Shr(v / 2, pos - 1);
      assert v / 2 < Pow2(n - 1);
      BitRoom(v / 2, pos - 1, n - 1);
      assert Pow2(pos) == 2 * Pow2(pos - 1);
      assert v <= 2 * (v / 2) + 1;
    }
  }

  /** SET_BIT_PLANE followed by EXTRACT_BIT_PLANE on the same plane returns
      the bit; every other plane is unchanged. */
  lemma SetThenExtract(value: nat, bit: nat, pos: nat, q: nat)
    requires value <= 255 && bit <= 1 && pos <= 7
    ensures ExtractBitPlane(SetBitPlane(value, bit, pos), pos) == bit
    ensures q != pos ==> ExtractBitPlane(SetBitPlane(value, bit, pos), q) == ExtractBitPlane(value, q)
  {
    var p := Pow2(pos);
    if bit == 0 && ExtractBitPlane(value, pos) == 1 {
      ShrPositive(value, pos);
      ShrSubPow(value, pos);
      FlipBit(value - p, pos, pos);
      FlipBit(value - p, pos, q);
    } else if bit == 1 && ExtractBitPlane(value, pos) == 0 {
      FlipBit(value, pos, pos);
      FlipBit(value, pos, q);
    }
  }
  /** MB_CopyBitPlane: a binary image into one bit plane of a byte image, or one bit plane of a byte image out into a binary image. */
  function CopyBitPlane(src: Image, dest: Image, plane: nat): (r: Result<Image>)
    requires Valid(src) && Valid(dest) && plane < Two32
    ensures !SameSize(src, dest) ==> r == Fail(BadSize)
    ensures SameSize(src, dest) && plane > 7 ==> r == Fail(BadParameter)
    ensures SameSize(src, dest) && plane <= 7 ==> (r.Ok? <==> Probe(src, dest) in {Pair1x8, Pair8x1})
    ensures SameSize(src, dest) && plane <= 7 && r.Fail? ==> r.error == BadDepth
    ensures r.Ok? ==> Valid(r.value) && SameSize(r.value, dest) && r.value.depth == dest.depth
    ensures r.Ok? && src.depth == 1 ==> forall x, y :: Inside(dest, x, y) ==>
              ExtractBitPlane(Get(r.value, x, y), plane) == Get(src, x, y)
              && forall q :: 0 <= q <= 7 && q != plane ==> ExtractBitPlane(Get(r.value, x, y), q) == ExtractBitPlane(Get(dest, x, y), q)
    ensures r.Ok? && src.depth == 8 ==> forall x, y :: Inside(dest, x, y) ==>
              Get(r.value, x, y) == ExtractBitPlane(Get(src, x, y), plane)
  {
    if !SameSize(src, dest) then Fail(BadSize)
    else if plane > 7 then Fail(BadParameter)
    else if Probe(src, dest) == Pair1x8 then
      var r := Map2(src, dest, dest, (b, v) => if v <= 255 && b <= 1 then SetBitPlane(v, b, plane) else 0);
      assert forall x, y :: Inside(dest, x, y) ==>
               ExtractBitPlane(Get(r, x, y), plane) == Get(src, x, y)
               && forall q :: 0 <= q <= 7 && q != plane ==> ExtractBitPlane(Get(r, x, y), q) == ExtractBitPlane(Get(dest, x, y), q) by {
        forall x, y | Inside(dest, x, y)
          ensures ExtractBitPlane(Get(r, x, y), plane) == Get(src, x, y)
          ensures forall q :: 0 <= q <= 7 && q != plane ==> ExtractBitPlane(Get(r, x, y), q) == ExtractBitPlane(Get(dest, x, y), q)
        {
          forall q | 0 <= q <= 7
            ensures ExtractBitPlane(Get(r, x, y), plane) == Get(src, x, y)
            ensures q != plane ==> ExtractBitPlane(Get(r, x, y), q) == ExtractBitPlane(Get(dest, x, y), q)
          {
            SetThenExtract(Get(dest, x, y), Get(src, x, y), plane, q);
          }
          SetThenExtract(Get(dest, x, y), Get(src, x, y), plane, plane);
        }
      }
      Ok(r)
    else if Probe(src, dest) == Pair8x1 then
      Ok(Map1(src, dest, v => ExtractBitPlane(v, plane)))
    else Fail(BadDepth)
  }

  // ---------------------------------------------------------------------
  // MB_Compare

  /** MB_Compare: the first pixel, in raster order, where src and cmp differ.
      It is reported as (x, y) and written into dest (the source value, or a
      set bit for binary images); identical images report (-1, -1) and leave
      dest untouched. */
  method Compare(src: Image, cmp: Image, dest: Image) returns (r: Result<(Image, int, int)>)
    requires Valid(src) && Valid(cmp) && Valid(dest)
    ensures !SameSize3(src, cmp, dest) ==> r == Fail(BadSize)
    ensures SameSize3(src, cmp, dest) ==> (r.Ok? <==> src.depth == dest.depth && src.depth == cmp.depth)
    ensures SameSize3(src, cmp, dest) && r.Fail? ==> r.error == BadDepth
    ensures r.Ok? && r.value.1 == -1 ==>
              r.value.2 == -1 && r.value.0 == dest
              && forall x, y :: Inside(src, x, y) ==> Get(src, x, y) == Get(cmp, x, y)
    ensures r.Ok? && r.value.1 != -1 ==>
              var (out, x, y) := r.value;
              Inside(src, x, y) && Get(src, x, y) != Get(cmp, x, y)
              && (forall x', y' :: Inside(src, x', y') && Before((x', y'), x, y) ==> Get(src, x', y') == Get(cmp, x', y'))
              && Valid(out) && SameSize(out, dest) && out.depth == dest.depth
              && Get(out, x, y) == (if src.depth == 1 then 1 else Get(src, x, y))
              && forall x', y' :: (x' != x || y' != y) ==> Get(out, x', y') == Get(dest, x', y')
  {
    if !SameSize3(src, cmp, dest) {
      return Fail(BadSize);
    }
    if src.depth != dest.depth {
      return Fail(BadDepth);
    }
    if !(Probe(src, cmp) in {Pair1x1, Pair8x8, Pair32x32}) {
      return Fail(BadDepth);
    }
    var y := 0;
    while y < src.height
      invariant 0 <= y <= src.height
      invariant forall x', y' :: Inside(src, x', y') && y' < y ==> Get(src, x', y') == Get(cmp, x', y')
    {
      var x := 0;
      while x < src.width
        invariant 0 <= x <= src.width
        invariant forall x', y' :: Inside(src, x', y') && Before((x', y'), x, y) ==> Get(src, x', y') == Get(cmp, x', y')
      {
        if src.pix[y][x] != cmp.pix[y][x] {
          var v := if src.depth == 1 then 1 else src.pix[y][x];
          var out := SetAt(dest, x, y, v);
          assert forall y', x' :: 0 <= y' < out.height && 0 <= x' < out.width ==> out.pix[y'][x'] == Get(out, x', y');
          assert forall y', x' :: 0 <= y' < dest.height && 0 <= x' < dest.width ==> dest.pix[y'][x'] == Get(dest, x', y');
          return Ok((out, x, y));
        }
        x := x + 1;
      }
      y := y + 1;
    }
    return Ok((dest, -1, -1));
  }
}
