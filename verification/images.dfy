// The image of the C core: a width, a height, a depth and a rectangle of
// pixel values, together with the operations that create, read, write, load,
// extract and copy images.  Pixel values are abstract naturals; the
// bit-packed and SSE layouts of the C code are not modelled.

module Images {
  import opened Common

  datatype Image = Image(width: nat, height: nat, depth: nat, pix: seq<seq<nat>>)

  /** The pixel rectangle has exactly `h` rows of `w` values. */
  predicate Shaped(pix: seq<seq<nat>>, w: nat, h: nat)
  {
    |pix| == h && forall y :: 0 <= y < h ==> |pix[y]| == w
  }

  /** A well-formed image: a legal depth, the declared shape, values within the depth. */
  predicate Valid(im: Image)
  {
    ValidDepth(im.depth)
    && Shaped(im.pix, im.width, im.height)
    && forall y, x :: 0 <= y < im.height && 0 <= x < im.width ==> im.pix[y][x] <= MaxValue(im.depth)
  }

  predicate Inside(im: Image, x: int, y: int)
  {
    0 <= x < im.width && 0 <= y < im.height
  }

  /** Pixel value at (x, y); 0 where the rectangle has no value. */
  function Get(im: Image, x: int, y: int): nat
  {
    if 0 <= y < |im.pix| && 0 <= x < |im.pix[y]| then im.pix[y][x] else 0
  }

  /** Pixel value at (x, y), or `fill` outside the image: how the edge is read. */
  function Read(im: Image, x: int, y: int, fill: nat): (v: nat)
    ensures Inside(im, x, y) ==> v == Get(im, x, y)
    ensures !Inside(im, x, y) ==> v == fill
  {
    if Inside(im, x, y) then Get(im, x, y) else fill
  }

  /** The rectangle of `h` rows of `w` values whose value at (x, y) is f(x, y). */
  function Tabulate(w: nat, h: nat, f: (int, int) -> nat): (p: seq<seq<nat>>)
    ensures Shaped(p, w, h)
    ensures forall y, x :: 0 <= y < h && 0 <= x < w ==> p[y][x] == f(x, y)
  {
    seq(h, y => seq(w, x => f(x, y)))
  }

  /** The image of the given size and depth whose pixel at (x, y) is f(x, y). */
  function Make(w: nat, h: nat, depth: nat, f: (int, int) -> nat): (im: Image)
    ensures im.width == w && im.height == h && im.depth == depth
    ensures Shaped(im.pix, w, h)
    ensures forall x, y :: Inside(im, x, y) ==> Get(im, x, y) == f(x, y)
    ensures ValidDepth(depth) && (forall x, y :: 0 <= x < w && 0 <= y < h ==> f(x, y) <= MaxValue(depth)) ==> Valid(im)
  {
    Image(w, h, depth, Tabulate(w, h, f))
  }

  /** Rows y, y + 1, .., h - 1 of the rectangle whose value at (x, y) is
      f(x, y), built one row at a time.  Only RowsFromPixel tells what the
      values are, so a proof that does not ask for a pixel never evaluates f. */
  function RowsFrom(w: nat, h: nat, y: nat, f: (int, int) -> nat): (p: seq<seq<nat>>)
    ensures |p| == if y < h then h - y else 0
    ensures forall i :: 0 <= i < |p| ==> |p[i]| == w
    decreases h - y
  {
    if y >= h then [] else [seq(w, x => f(x, y))] + RowsFrom(w, h, y + 1, f)
  }

  lemma {:induction false} RowsFromPixel(w: nat, h: nat, y: nat, f: (int, int) -> nat, x: int, j: int)
    requires y <= j < h && 0 <= x < w
    ensures RowsFrom(w, h, y, f)[j - y][x] == f(x, j)
    decreases h - y
  {
    if j > y {
      RowsFromPixel(w, h, y + 1, f, x, j);
    }
  }

  /** Make, with the pixels reached through MadeByRowsPixels only. */
  function MadeByRows(w: nat, h: nat, depth: nat, f: (int, int) -> nat): (im: Image)
    ensures im.width == w && im.height == h && im.depth == depth
    ensures Shaped(im.pix, w, h)
  {
    Image(w, h, depth, RowsFrom(w, h, 0, f))
  }

  lemma MadeByRowsPixels(w: nat, h: nat, depth: nat, f: (int, int) -> nat)
    ensures forall x, y :: Inside(MadeByRows(w, h, depth, f), x, y) ==> Get(MadeByRows(w, h, depth, f), x, y) == f(x, y)
    ensures ValidDepth(depth) && (forall x, y :: 0 <= x < w && 0 <= y < h ==> f(x, y) <= MaxValue(depth)) ==> Valid(MadeByRows(w, h, depth, f))
  {
    var im := MadeByRows(w, h, depth, f);
    forall x, y | Inside(im, x, y)
      ensures im.pix[y][x] == Get(im, x, y) == f(x, y)
    {
      RowsFromPixel(w, h, 0, f, x, y);
    }
  }

  /** An image of a legal depth and the declared shape is valid once every
      pixel it reads is within the depth. */
  lemma ValidFromPixels(im: Image)
    requires ValidDepth(im.depth) && Shaped(im.pix, im.width, im.height)
    requires forall x, y :: Inside(im, x, y) ==> Get(im, x, y) <= MaxValue(im.depth)
    ensures Valid(im)
  {
    forall y, x | 0 <= y < im.height && 0 <= x < im.width
      ensures im.pix[y][x] <= MaxValue(im.depth)
    {
      assert Get(im, x, y) == im.pix[y][x];
    }
  }

  /** Two images are equal when their headers and every interior pixel agree. */
  lemma Extensionality(a: Image, b: Image)
    requires Shaped(a.pix, a.width, a.height) && Shaped(b.pix, b.width, b.height)
    requires a.width == b.width && a.height == b.height && a.depth == b.depth
    requires forall x, y :: Inside(a, x, y) ==> Get(a, x, y) == Get(b, x, y)
    ensures a == b
  {
    forall y | 0 <= y < a.height
      ensures a.pix[y] == b.pix[y]
    {
      forall x | 0 <= x < a.width
        ensures a.pix[y][x] == b.pix[y][x]
      {
        assert Inside(a, x, y);
      }
    }
  }

  /** Pixel p comes before pixel (x, y) in raster order: on an earlier
      line, or earlier on the same line. */
  predicate Before(p: (int, int), x: int, y: int)
  {
    p.1 < y || (p.1 == y && p.0 < x)
  }

  /** The size check of two images (CHECK_SIZE_2). */
  predicate SameSize(a: Image, b: Image)
  {
    a.width == b.width && a.height == b.height
  }

  /** The size check of three images (CHECK_SIZE_3): the second and third match the first. */
  predicate SameSize3(a: Image, b: Image, c: Image)
  {
    SameSize(a, b) && SameSize(a, c)
  }

  /** Size equality is an equivalence, so the three-image check is symmetric. */
  lemma SameSize3Symmetric(a: Image, b: Image, c: Image)
    ensures SameSize3(a, b, c) <==> SameSize3(b, a, c) && SameSize3(c, b, a)
  {
  }

  /** The depth-pair code of two images (MB_PROBE_PAIR). */
  function Probe(a: Image, b: Image): (p: nat)
    ensures p == 128 * a.depth + b.depth
  {
    Pair(a.depth, b.depth)
  }

  /** Pointwise order of two images of the same size. */
  ghost predicate Le(a: Image, b: Image)
  {
    SameSize(a, b) && forall x, y {:trigger Get(a, x, y), Get(b, x, y)} :: Inside(a, x, y) ==> Get(a, x, y) <= Get(b, x, y)
  }

  // ---------------------------------------------------------------------
  // Volume

  function RowSum(r: seq<nat>): nat
  {
    if |r| == 0 then 0 else RowSum(r[..|r| - 1]) + r[|r| - 1]
  }

  function RowsSum(p: seq<seq<nat>>): nat
  {
    if |p| == 0 then 0 else RowsSum(p[..|p| - 1]) + RowSum(p[|p| - 1])
  }

  /** Sum of all pixel values (the volume of the image). */
  function Volume(im: Image): nat
  {
    RowsSum(im.pix)
  }

  lemma {:induction false} RowSumMonotone(a: seq<nat>, b: seq<nat>)
    requires |a| == |b|
    requires forall i :: 0 <= i < |a| ==> a[i] <= b[i]
    ensures RowSum(a) <= RowSum(b)
    ensures RowSum(a) == RowSum(b) ==> a == b
  {
    if |a| > 0 {
      RowSumMonotone(a[..|a| - 1], b[..|b| - 1]);
      if RowSum(a) == RowSum(b) {
        assert a == a[..|a| - 1] + [a[|a| - 1]];
        assert b == b[..|b| - 1] + [b[|b| - 1]];
      }
    }
  }

  lemma {:induction false} RowsSumMonotone(a: seq<seq<nat>>, b: seq<seq<nat>>, w: nat)
    requires Shaped(a, w, |a|) && Shaped(b, w, |a|)
    requires forall y, x :: 0 <= y < |a| && 0 <= x < w ==> a[y][x] <= b[y][x]
    ensures RowsSum(a) <= RowsSum(b)
    ensures RowsSum(a) == RowsSum(b) ==> a == b
  {
    if |a| > 0 {
      var n := |a| - 1;
      RowsSumMonotone(a[..n], b[..n], w);
      RowSumMonotone(a[n], b[n]);
      if RowsSum(a) == RowsSum(b) {
        assert a == a[..n] + [a[n]];
        assert b == b[..n] + [b[n]];
      }
    }
  }

  /** Volume is monotone in the pointwise order, and strictly so: a pointwise
      smaller image of the same volume is the same image. */
  lemma VolumeMonotone(a: Image, b: Image)
    requires Shaped(a.pix, a.width, a.height) && Shaped(b.pix, b.width, b.height)
    requires a.depth == b.depth
    requires Le(a, b)
    ensures Volume(a) <= Volume(b)
    ensures Volume(a) == Volume(b) ==> a == b
  {
    forall y, x | 0 <= y < a.height && 0 <= x < a.width
      ensures a.pix[y][x] <= b.pix[y][x]
    {
      assert Inside(a, x, y) && Get(a, x, y) <= Get(b, x, y);
    }
    RowsSumMonotone(a.pix, b.pix, a.width);
  }

  lemma LeTransitive(a: Image, b: Image, c: Image)
    requires Le(a, b) && Le(b, c)
    ensures Le(a, c)
  {
    forall x, y | Inside(a, x, y)
      ensures Get(a, x, y) <= Get(c, x, y)
    {
      assert Get(a, x, y) <= Get(b, x, y) <= Get(c, x, y);
    }
  }

  /** Two well-shaped images of the same depth, each below the other, are equal. */
  lemma LeAntisymmetric(a: Image, b: Image)
    requires Shaped(a.pix, a.width, a.height) && Shaped(b.pix, b.width, b.height)
    requires a.depth == b.depth && Le(a, b) && Le(b, a)
    ensures a == b
  {
    forall x, y | Inside(a, x, y)
      ensures Get(a, x, y) == Get(b, x, y)
    {
      assert Inside(b, x, y) && Get(a, x, y) <= Get(b, x, y) <= Get(a, x, y);
    }
    Extensionality(a, b);
  }

  lemma {:induction false} RowSumBound(r: seq<nat>, m: nat)
    requires forall i :: 0 <= i < |r| ==> r[i] <= m
    ensures RowSum(r) <= |r| * m
  {
    if |r| > 0 {
      RowSumBound(r[..|r| - 1], m);
    }
  }

  // ---------------------------------------------------------------------
  // Creation and reference counting (MB_Create, MB_Destroy)

  const RoundWidth: nat := 64
  const RoundHeight: nat := 2
  const MaxImageSize: nat := 0x1_0000_0000

  /** Rounding up to a multiple of m (64 or 2) computed in unsigned 32-bit
      arithmetic, so that a value within m-1 of 2^32 wraps to a small result. */
  function RoundUp32(v: nat, m: nat): (r: nat)
    requires m == 64 || m == 2
    requires v < Two32
    ensures r % m == 0
    ensures v + m - 1 < Two32 ==> v <= r < v + m
    ensures v + m - 1 >= Two32 ==> r < m
  {
    var s := Wrap32(v + m - 1);
    RoundDown(s, m);
    (s / m) * m
  }

  /** (s / m) * m is the multiple of m at most m - 1 below s. */
  lemma RoundDown(s: nat, m: nat)
    requires m == 64 || m == 2
    ensures ((s / m) * m) % m == 0 && (s / m) * m <= s < (s / m) * m + m
  {
    var q, r := s / m, s % m;
    assert s == q * m + r && 0 <= r < m;
    if m == 64 {
      assert (q * 64) % 64 == 0;
    } else {
      assert (q * 2) % 2 == 0;
    }
  }

  /** The image MB_Create makes: sizes rounded up, every pixel 0; a rounded
      size of zero or an area above 2^32 is refused before the depth. */
  function Create(width: nat, height: nat, depth: nat): (r: Result<Image>)
    requires width < Two32 && height < Two32
    ensures var w := RoundUp32(width, RoundWidth);
            var h := RoundUp32(height, RoundHeight);
            && (r.Ok? <==> w > 0 && h > 0 && w * h <= MaxImageSize && ValidDepth(depth))
            && (r.Fail? && (w == 0 || h == 0 || w * h > MaxImageSize) ==> r.error == BadImageDimensions)
            && (r.Fail? && w > 0 && h > 0 && w * h <= MaxImageSize ==> r.error == BadDepth)
    ensures r.Ok? ==> Valid(r.value) && r.value.depth == depth
    ensures r.Ok? ==> r.value.width % 64 == 0 && r.value.height % 2 == 0
    ensures r.Ok? ==> width <= r.value.width < width + 64 && height <= r.value.height < height + 2
    ensures r.Ok? ==> r.value.width == RoundUp32(width, RoundWidth) && r.value.height == RoundUp32(height, RoundHeight)
    ensures r.Ok? ==> forall x, y :: Inside(r.value, x, y) ==> Get(r.value, x, y) == 0
  {
    var w := RoundUp32(width, RoundWidth);
    var h := RoundUp32(height, RoundHeight);
    if !(w > 0 && h > 0 && w * h <= MaxImageSize) then Fail(BadImageDimensions)
    else if !ValidDepth(depth) then Fail(BadDepth)
    else Ok(Make(w, h, depth, (x, y) => 0))
  }

  /** Width 0xFFFFFFFF wraps to 0 when rounded and is refused. */
  lemma CreateWrapsWidth()
    ensures Create(Max32, 1, 8) == Fail(BadImageDimensions)
  {
    assert RoundUp32(Max32, 64) == 0;
  }

  /** Rounding an already rounded size changes nothing. */
  lemma RoundUpFixed(v: nat, m: nat)
    requires m == 64 || m == 2
    requires v < Two32 && v % m == 0 && v + m - 1 < Two32
    ensures RoundUp32(v, m) == v
  {
  }

  /** A factor of a bounded product with another factor at least k is at
      most the bound divided by k. */
  lemma FactorBound(a: nat, b: nat, k: nat, m: nat)
    requires a * b <= m && b >= k
    ensures a * k <= m
  {
    assert a * b == a * k + a * (b - k);
  }

  /** Creating an image with the sizes MB_Create chose gives the same image:
      the rounding is idempotent. */
  lemma CreateRounded(width: nat, height: nat, depth: nat)
    requires width < Two32 && height < Two32
    requires Create(width, height, depth).Ok?
    ensures var im := Create(width, height, depth).value;
            im.width < Two32 && im.height < Two32 && Create(im.width, im.height, depth) == Create(width, height, depth)
  {
    var im := Create(width, height, depth).value;
    FactorBound(im.width, im.height, 2, MaxImageSize);
    assert im.width * im.height == im.height * im.width;
    FactorBound(im.height, im.width, 64, MaxImageSize);
    RoundUpFixed(im.width, 64);
    RoundUpFixed(im.height, 2);
  }

  /** Bytes of edge left and right of every line (X_LEFT, X_RIGHT), and
      lines of edge above and below the image (Y_TOP, Y_BOTTOM). */
  const EdgeBytes: nat := 16
  const EdgeLines: nat := 1

  /** The bytes an image occupies together with its edge: full_w bytes per
      line, full_h lines. */
  function BufferBytes(im: Image): nat
  {
    ((im.width * im.depth + 7) / 8 + 2 * EdgeBytes) * (im.height + 2 * EdgeLines)
  }

  /** The byte count MB_Create asks the allocator for.  full_w, full_h and
      their product are Uint32, and so is width * depth before it is turned
      into bytes, so each is taken modulo 2^32. */
  function AllocatedBytes(im: Image): (n: nat)
    ensures n < Two32
    ensures im.width * im.depth + 7 < Two32 && BufferBytes(im) < Two32 ==> n == BufferBytes(im)
  {
    FullSizesExact(im.width * im.depth, im.height);
    var fullW := Wrap32(Wrap32(Wrap32(im.width * im.depth) + 7) / 8 + 2 * EdgeBytes);
    var fullH := Wrap32(im.height + 2 * EdgeLines);
    Wrap32(fullW * fullH)
  }

  /** While the byte count fits, neither full_w nor full_h wraps. */
  lemma FullSizesExact(wd: nat, h: nat)
    ensures var fw := (wd + 7) / 8 + 2 * EdgeBytes;
            wd + 7 < Two32 && fw * (h + 2 * EdgeLines) < Two32 ==>
              Wrap32(Wrap32(Wrap32(wd) + 7) / 8 + 2 * EdgeBytes) == fw && Wrap32(h + 2 * EdgeLines) == h + 2 * EdgeLines
  {
    var fw := (wd + 7) / 8 + 2 * EdgeBytes;
    assert fw * (h + 2) == (fw - 1) * (h + 2) + (h + 2);
  }

  /** Three images MB_Create accepts whose buffer the allocator is asked for
      with a wrapped, far too small byte count: the 8-bit 65536 x 65536 image
      and the 32-bit 32768 x 32768 one, whose byte counts pass 2^32, and the
      32-bit 134217728 x 2 one, whose byte count fits but whose width * depth
      wraps to 0. */
  lemma CreateAllocationWraps()
    ensures Create(65536, 65536, 8).Ok?
    ensures var im := Create(65536, 65536, 8).value;
      BufferBytes(im) == 4297195584 && AllocatedBytes(im) == 2228288
    ensures Create(32768, 32768, 32).Ok?
    ensures var im := Create(32768, 32768, 32).value;
      BufferBytes(im) == 4296278080 && AllocatedBytes(im) == 1310784
    ensures Create(134217728, 2, 32).Ok?
    ensures var im := Create(134217728, 2, 32).value;
      BufferBytes(im) == 2147483776 && AllocatedBytes(im) == 128
  {
    var a := Create(65536, 65536, 8);
    assert RoundUp32(65536, RoundWidth) == 65536;
    assert RoundUp32(65536, RoundHeight) == 65536;
    assert a.Ok?;
    assert a.value.width == RoundUp32(65536, RoundWidth);
    AllocationAt(a.value);
    var b := Create(32768, 32768, 32);
    assert RoundUp32(32768, RoundWidth) == 32768;
    assert RoundUp32(32768, RoundHeight) == 32768;
    assert b.Ok?;
    assert b.value.width == RoundUp32(32768, RoundWidth);
    AllocationAt(b.value);
    var c := Create(134217728, 2, 32);
    assert RoundUp32(134217728, RoundWidth) == 134217728;
    assert RoundUp32(2, RoundHeight) == 2;
    assert c.Ok?;
    assert c.value.width == RoundUp32(134217728, RoundWidth);
    AllocationAt(c.value);
  }

  /** The byte counts of the three images of CreateAllocationWraps. */
  lemma AllocationAt(im: Image)
    requires (im.width, im.height, im.depth) in {(65536, 65536, 8), (32768, 32768, 32), (134217728, 2, 32)}
    ensures im.width == 65536 ==> BufferBytes(im) == 4297195584 && AllocatedBytes(im) == 2228288
    ensures im.width == 32768 ==> BufferBytes(im) == 4296278080 && AllocatedBytes(im) == 1310784
    ensures im.width == 134217728 ==> BufferBytes(im) == 2147483776 && AllocatedBytes(im) == 128
  {
  }

  // ---------------------------------------------------------------------
  // Pixel access (MB_PutPixel, MB_GetPixel)

  /** The value a pixel of the given depth stores when written with v. */
  function Stored(depth: nat, v: nat): (s: nat)
    ensures depth == 1 ==> (s == 1 <==> v != 0) && s <= 1
    ensures depth == 8 ==> s == v % 256
    ensures depth == 32 && v < Two32 ==> s == v
  {
    if depth == 1 then (if v != 0 then 1 else 0)
    else if depth == 8 then LowByte(v)
    else v
  }

  function SetAt(im: Image, x: nat, y: nat, v: nat): (r: Image)
    requires Shaped(im.pix, im.width, im.height) && Inside(im, x, y)
    ensures r.width == im.width && r.height == im.height && r.depth == im.depth
    ensures Shaped(r.pix, r.width, r.height)
    ensures Get(r, x, y) == v
    ensures forall x', y' :: (x' != x || y' != y) ==> Get(r, x', y') == Get(im, x', y')
  {
    var row: seq<nat> := im.pix[y][x := v];
    im.(pix := im.pix[y := row])
  }

  /** MB_PutPixel: a position outside the image is refused before the depth. */
  function PutPixel(im: Image, v: nat, x: nat, y: nat): (r: Result<Image>)
    requires Valid(im) || !ValidDepth(im.depth)
    requires Shaped(im.pix, im.width, im.height)
    requires v < Two32
    ensures !Inside(im, x, y) ==> r == Fail(BadSize)
    ensures Inside(im, x, y) && !ValidDepth(im.depth) ==> r == Fail(BadDepth)
    ensures r.Ok? ==> Valid(r.value) && SameSize(r.value, im) && r.value.depth == im.depth
    ensures r.Ok? ==> Get(r.value, x, y) == Stored(im.depth, v)
    ensures r.Ok? ==> forall x', y' :: (x' != x || y' != y) ==> Get(r.value, x', y') == Get(im, x', y')
  {
    if !Inside(im, x, y) then Fail(BadSize)
    else if !ValidDepth(im.depth) then Fail(BadDepth)
    else
      var r := SetAt(im, x, y, Stored(im.depth, v));
      assert forall y', x' :: 0 <= y' < r.height && 0 <= x' < r.width ==> r.pix[y'][x'] == Get(r, x', y');
      assert forall y', x' :: 0 <= y' < im.height && 0 <= x' < im.width ==> im.pix[y'][x'] == Get(im, x', y');
      Ok(r)
  }

  /** MB_GetPixel: the stored value, with the same position and depth checks. */
  function GetPixel(im: Image, x: nat, y: nat): (r: Result<nat>)
    ensures !Inside(im, x, y) ==> r == Fail(BadSize)
    ensures Inside(im, x, y) && !ValidDepth(im.depth) ==> r == Fail(BadDepth)
    ensures Inside(im, x, y) && ValidDepth(im.depth) ==> r == Ok(Get(im, x, y))
  {
    if !Inside(im, x, y) then Fail(BadSize)
    else if !ValidDepth(im.depth) then Fail(BadDepth)
    else Ok(Get(im, x, y))
  }

  /** Reading a pixel back after writing it returns the stored value, and
      every other pixel reads as before. */
  lemma PutThenGet(im: Image, v: nat, x: nat, y: nat, x': nat, y': nat)
    requires Valid(im) && v < Two32 && Inside(im, x, y) && Inside(im, x', y')
    ensures PutPixel(im, v, x, y).Ok?
    ensures GetPixel(PutPixel(im, v, x, y).value, x, y) == Ok(Stored(im.depth, v))
    ensures (x' != x || y' != y) ==> GetPixel(PutPixel(im, v, x, y).value, x', y') == GetPixel(im, x', y')
  {
  }

  // ---------------------------------------------------------------------
  // Loading and extracting raw bytes (MB_Load, MB_Extract)

  /** Every element is a byte. */
  predicate IsBytes(s: seq<nat>)
  {
    forall i :: 0 <= i < |s| ==> s[i] < 256
  }

  /** Bytes per pixel of a loadable depth. */
  function PixelBytes(depth: nat): (k: nat)
    ensures depth == 32 ==> k == 4
    ensures depth != 32 ==> k == 1
  {
    if depth == 32 then 4 else 1
  }

  /** The bytes of one pixel: itself for 8 bits, little-endian for 32 bits. */
  function EncodePixel(depth: nat, v: nat): (bs: seq<nat>)
    ensures |bs| == PixelBytes(depth)
    ensures IsBytes(bs)
  {
    if depth == 32 then Bytes(v) else [LowByte(v)]
  }

  function DecodePixel(depth: nat, bs: seq<nat>): (v: nat)
    requires |bs| == PixelBytes(depth)
    requires IsBytes(bs)
    ensures v <= MaxValue(if depth == 32 then 32 else 8)
  {
    if depth == 32 then Word(bs[0], bs[1], bs[2], bs[3]) else bs[0]
  }

  function EncodeRow(depth: nat, row: seq<nat>): (bs: seq<nat>)
    ensures |bs| == |row| * PixelBytes(depth)
    ensures IsBytes(bs)
  {
    if |row| == 0 then [] else EncodePixel(depth, row[0]) + EncodeRow(depth, row[1..])
  }

  function EncodeRows(depth: nat, w: nat, pix: seq<seq<nat>>): (bs: seq<nat>)
    requires Shaped(pix, w, |pix|)
    ensures |bs| == |pix| * (w * PixelBytes(depth))
    ensures IsBytes(bs)
  {
    if |pix| == 0 then []
    else
      var rest := EncodeRows(depth, w, pix[1..]);
      assert |pix| * (w * PixelBytes(depth)) == w * PixelBytes(depth) + (|pix| - 1) * (w * PixelBytes(depth));
      EncodeRow(depth, pix[0]) + rest
  }

  function DecodeRow(depth: nat, w: nat, bs: seq<nat>): (row: seq<nat>)
    requires |bs| == w * PixelBytes(depth)
    requires IsBytes(bs)
    ensures |row| == w
    ensures forall i :: 0 <= i < w ==> row[i] <= MaxValue(if depth == 32 then 32 else 8)
  {
    if w == 0 then []
    else
      var k := PixelBytes(depth);
      MulPeel(w, k);
      [DecodePixel(depth, bs[..k])] + DecodeRow(depth, w - 1, bs[k..])
  }

  function DecodeRows(depth: nat, w: nat, h: nat, bs: seq<nat>): (pix: seq<seq<nat>>)
    requires |bs| == h * (w * PixelBytes(depth))
    requires IsBytes(bs)
    ensures Shaped(pix, w, h)
    ensures forall y, x :: 0 <= y < h && 0 <= x < w ==> pix[y][x] <= MaxValue(if depth == 32 then 32 else 8)
  {
    if h == 0 then []
    else
      var n := w * PixelBytes(depth);
      MulPeel(h, n);
      [DecodeRow(depth, w, bs[..n])] + DecodeRows(depth, w, h - 1, bs[n..])
  }

  /** MB_Load: only 8- and 32-bit images load; the byte count must be
      w*h (8 bits) or 4*w*h (32 bits). */
  function Load(im: Image, data: seq<nat>): (r: Result<Image>)
    requires IsBytes(data)
    ensures im.depth != 8 && im.depth != 32 ==> r == Fail(BadDepth)
    ensures (im.depth == 8 || im.depth == 32) ==>
              (r.Ok? <==> |data| == im.height * im.width * PixelBytes(im.depth))
    ensures r.Fail? && (im.depth == 8 || im.depth == 32) ==> r.error == LoadData
    ensures r.Ok? ==> Valid(r.value) && SameSize(r.value, im) && r.value.depth == im.depth
  {
    if im.depth != 8 && im.depth != 32 then Fail(BadDepth)
    else if |data| != im.height * im.width * PixelBytes(im.depth) then Fail(LoadData)
    else
      assert |data| == im.height * (im.width * PixelBytes(im.depth));
      Ok(im.(pix := DecodeRows(im.depth, im.width, im.height, data)))
  }

  /** MB_Extract: the rows in order, each pixel as its bytes. */
  function Extract(im: Image): (r: Result<seq<nat>>)
    requires Shaped(im.pix, im.width, im.height)
    ensures im.depth != 8 && im.depth != 32 ==> r == Fail(BadDepth)
    ensures (im.depth == 8 || im.depth == 32) ==> r.Ok? && |r.value| == im.width * im.height * im.depth / 8
  {
    if im.depth != 8 && im.depth != 32 then Fail(BadDepth)
    else
      ExtractArithmetic(im.width, im.height, im.depth);
      Ok(EncodeRows(im.depth, im.width, im.pix))
  }

  lemma ExtractArithmetic(w: nat, h: nat, depth: nat)
    requires depth == 8 || depth == 32
    ensures h * (w * PixelBytes(depth)) == w * h * depth / 8 == h * w * PixelBytes(depth)
  {
    var n := w * h;
    assert h * (w * PixelBytes(depth)) == n * PixelBytes(depth);
    assert h * w * PixelBytes(depth) == n * PixelBytes(depth);
    if depth == 8 {
      assert n * 8 / 8 == n;
    } else {
      assert n * 32 / 8 == n * 4;
    }
  }

  /** The length MB_Extract reports: the byte count computed in a Uint32,
      so taken modulo 2^32, and 0 when the depth is refused. */
  function ExtractLength(im: Image): (n: nat)
    requires Shaped(im.pix, im.width, im.height)
    ensures n < Two32
    ensures im.depth != 8 && im.depth != 32 ==> n == 0
    ensures Extract(im).Ok? && |Extract(im).value| < Two32 ==> n == |Extract(im).value|
    ensures Extract(im).Ok? ==> (|Extract(im).value| - n) % Two32 == 0
  {
    var r := Extract(im);
    if r.Ok? then Wrap32(|r.value|) else 0
  }

  /** A 32-bit image of 32768 x 32768 pixels, which MB_Create makes, holds
      2^32 bytes of pixel data, but MB_Extract32 computes the count in a
      Uint32: it reports a length of 0 (and allocates that much). */
  lemma ExtractLengthWraps()
    ensures Create(32768, 32768, 32).Ok?
    ensures var im := Create(32768, 32768, 32).value;
      Extract(im).Ok? && |Extract(im).value| == Two32 && ExtractLength(im) == 0
  {
    var r := Create(32768, 32768, 32);
    assert RoundUp32(32768, RoundWidth) == 32768;
    assert RoundUp32(32768, RoundHeight) == 32768;
    assert r.Ok?;
    assert r.value.width == RoundUp32(32768, RoundWidth);
    ExtractArithmetic(r.value.width, r.value.height, r.value.depth);
  }

  /** The byte count MB_Load8 and MB_Load32 compare len with: w*h or 4*w*h
      computed in a Uint32, so taken modulo 2^32. */
  function LoadCount(im: Image): (n: nat)
    requires im.depth == 8 || im.depth == 32
    ensures n < Two32
    ensures im.height * im.width * PixelBytes(im.depth) < Two32 ==> n == im.height * im.width * PixelBytes(im.depth)
    ensures (im.height * im.width * PixelBytes(im.depth) - n) % Two32 == 0
  {
    Wrap32(im.height * im.width * PixelBytes(im.depth))
  }

  /** The C length check of MB_Load as written: the depth is 8 or 32 and
      the Uint32 len equals the wrapped count. */
  predicate LoadAccepts(im: Image, len: nat)
  {
    (im.depth == 8 || im.depth == 32) && len == LoadCount(im)
  }

  /** While the image holds fewer than 2^32 bytes the C check accepts
      exactly the buffers Load accepts. */
  lemma LoadAcceptsAgree(im: Image, data: seq<nat>)
    requires IsBytes(data) && |data| < Two32
    requires im.depth == 8 || im.depth == 32
    requires im.height * im.width * PixelBytes(im.depth) < Two32
    ensures LoadAccepts(im, |data|) <==> Load(im, data).Ok?
  {
  }

  /** An 8-bit image of 65536 x 65536 pixels, which MB_Create makes, holds
      2^32 bytes, whose Uint32 count wraps to 0: the C check accepts an
      empty buffer (and then copies 2^32 bytes out of it), while Load
      refuses it. */
  lemma LoadCountWraps()
    ensures Create(65536, 65536, 8).Ok?
    ensures var im := Create(65536, 65536, 8).value;
      LoadCount(im) == 0 && LoadAccepts(im, 0) && Load(im, []) == Fail(LoadData)
  {
    var r := Create(65536, 65536, 8);
    assert RoundUp32(65536, RoundWidth) == 65536;
    assert RoundUp32(65536, RoundHeight) == 65536;
    assert r.Ok?;
    assert r.value.width == RoundUp32(65536, RoundWidth);
    LoadWrapsAt(r.value);
  }

  lemma LoadWrapsAt(im: Image)
    requires im.width == 65536 && im.height == 65536 && im.depth == 8
    ensures LoadCount(im) == 0 && LoadAccepts(im, 0) && Load(im, []) == Fail(LoadData)
  {
    assert im.height * im.width * PixelBytes(im.depth) == Two32;
  }

  lemma {:induction false} RowRoundTrip(depth: nat, w: nat, bs: seq<nat>)
    requires depth == 8 || depth == 32
    requires |bs| == w * PixelBytes(depth)
    requires IsBytes(bs)
    ensures EncodeRow(depth, DecodeRow(depth, w, bs)) == bs
  {
    if w > 0 {
      var k := PixelBytes(depth);
      MulPeel(w, k);
      RowRoundTrip(depth, w - 1, bs[k..]);
      if depth == 32 {
        WordBytesRoundTrip(bs[0], bs[1], bs[2], bs[3]);
      }
      SplitAt(bs, k);
    }
  }

  lemma EncodeRowsCons(depth: nat, w: nat, pix: seq<seq<nat>>)
    requires Shaped(pix, w, |pix|) && |pix| > 0
    ensures EncodeRows(depth, w, pix) == EncodeRow(depth, pix[0]) + EncodeRows(depth, w, pix[1..])
  {
  }

  /** h rows of n bytes are one row of n bytes and h - 1 more rows. */
  lemma MulPeel(h: nat, n: nat)
    requires h > 0
    ensures h * n == n + (h - 1) * n && n <= h * n
  {
    assert (h - 1) * n >= 0;
  }

  lemma DecodeRowsCons(depth: nat, w: nat, h: nat, bs: seq<nat>, n: nat)
    requires h > 0 && n == w * PixelBytes(depth)
    requires |bs| == h * n && IsBytes(bs)
    ensures n <= |bs| && |bs[n..]| == (h - 1) * n && |bs[..n]| == n
    ensures IsBytes(bs[..n]) && IsBytes(bs[n..])
    ensures DecodeRows(depth, w, h, bs)[0] == DecodeRow(depth, w, bs[..n])
    ensures DecodeRows(depth, w, h, bs)[1..] == DecodeRows(depth, w, h - 1, bs[n..])
  {
    MulPeel(h, n);
    var rest := DecodeRows(depth, w, h - 1, bs[n..]);
    assert DecodeRows(depth, w, h, bs) == [DecodeRow(depth, w, bs[..n])] + rest;
  }

  /** One row of the round trip: if the first row and the remaining rows
      round-trip, so does the whole. */
  lemma RowsRoundTripStep(depth: nat, w: nat, h: nat, bs: seq<nat>, n: nat)
    requires h > 0 && n == w * PixelBytes(depth)
    requires |bs| == h * (w * PixelBytes(depth)) && IsBytes(bs)
    requires n <= |bs| && |bs[n..]| == (h - 1) * (w * PixelBytes(depth))
    requires EncodeRow(depth, DecodeRow(depth, w, bs[..n])) == bs[..n]
    requires EncodeRows(depth, w, DecodeRows(depth, w, h - 1, bs[n..])) == bs[n..]
    ensures EncodeRows(depth, w, DecodeRows(depth, w, h, bs)) == bs
  {
    var pix := DecodeRows(depth, w, h, bs);
    DecodeRowsCons(depth, w, h, bs, n);
    EncodeRowsCons(depth, w, pix);
    calc {
      EncodeRows(depth, w, pix);
      EncodeRow(depth, pix[0]) + EncodeRows(depth, w, pix[1..]);
      EncodeRow(depth, DecodeRow(depth, w, bs[..n])) + EncodeRows(depth, w, DecodeRows(depth, w, h - 1, bs[n..]));
      bs[..n] + bs[n..];
      { SplitAt(bs, n); }
      bs;
    }
  }

  lemma SplitAt(bs: seq<nat>, n: nat)
    requires n <= |bs|
    ensures bs[..n] + bs[n..] == bs
  {
  }

  lemma {:induction false} RowsRoundTrip(depth: nat, w: nat, h: nat, bs: seq<nat>)
    requires depth == 8 || depth == 32
    requires |bs| == h * (w * PixelBytes(depth))
    requires IsBytes(bs)
    ensures EncodeRows(depth, w, DecodeRows(depth, w, h, bs)) == bs
  {
    if h > 0 {
      var n := w * PixelBytes(depth);
      DecodeRowsCons(depth, w, h, bs, n);
      RowsRoundTrip(depth, w, h - 1, bs[n..]);
      RowRoundTrip(depth, w, bs[..n]);
      RowsRoundTripStep(depth, w, h, bs, n);
    }
  }

  /** Encoding a pixel value of the depth and decoding it gives it back. */
  lemma PixelRoundTrip(depth: nat, v: nat)
    requires depth == 8 || depth == 32
    requires v <= MaxValue(depth)
    ensures DecodePixel(depth, EncodePixel(depth, v)) == v
  {
    if depth == 32 {
      BytesWordRoundTrip(v);
    }
  }

  lemma {:induction false} RowDecodeEncode(depth: nat, row: seq<nat>)
    requires depth == 8 || depth == 32
    requires forall i :: 0 <= i < |row| ==> row[i] <= MaxValue(depth)
    ensures DecodeRow(depth, |row|, EncodeRow(depth, row)) == row
  {
    if |row| > 0 {
      var k := PixelBytes(depth);
      var bs := EncodeRow(depth, row);
      var first := EncodePixel(depth, row[0]);
      var rest := EncodeRow(depth, row[1..]);
      assert bs == first + rest;
      assert bs[..k] == first;
      assert bs[k..] == rest;
      PixelRoundTrip(depth, row[0]);
      RowDecodeEncode(depth, row[1..]);
      assert DecodeRow(depth, |row|, bs) == [DecodePixel(depth, first)] + DecodeRow(depth, |row| - 1, rest);
      assert row == [row[0]] + row[1..];
    }
  }

  lemma {:induction false} RowsDecodeEncode(depth: nat, w: nat, pix: seq<seq<nat>>)
    requires depth == 8 || depth == 32
    requires Shaped(pix, w, |pix|)
    requires forall y, x :: 0 <= y < |pix| && 0 <= x < w ==> pix[y][x] <= MaxValue(depth)
    ensures DecodeRows(depth, w, |pix|, EncodeRows(depth, w, pix)) == pix
  {
    if |pix| > 0 {
      var n := w * PixelBytes(depth);
      var bs := EncodeRows(depth, w, pix);
      var first := EncodeRow(depth, pix[0]);
      var rest := EncodeRows(depth, w, pix[1..]);
      assert bs == first + rest;
      assert bs[..n] == first && bs[n..] == rest;
      RowDecodeEncode(depth, pix[0]);
      RowsDecodeEncode(depth, w, pix[1..]);
      assert DecodeRows(depth, w, |pix|, bs) == [DecodeRow(depth, w, first)] + DecodeRows(depth, w, |pix| - 1, rest);
      assert pix == [pix[0]] + pix[1..];
    }
  }

  /** Loading bytes and extracting them again gives the same bytes. */
  lemma LoadExtractRoundTrip(im: Image, data: seq<nat>)
    requires im.depth == 8 || im.depth == 32
    requires IsBytes(data)
    requires |data| == im.height * im.width * PixelBytes(im.depth)
    ensures Load(im, data).Ok?
    ensures Extract(Load(im, data).value) == Ok(data)
  {
    assert |data| == im.height * (im.width * PixelBytes(im.depth));
    RowsRoundTrip(im.depth, im.width, im.height, data);
  }

  /** Extracting an image and loading the bytes back gives the same image. */
  lemma ExtractLoadRoundTrip(im: Image)
    requires Valid(im) && (im.depth == 8 || im.depth == 32)
    ensures Extract(im).Ok?
    ensures Load(im, Extract(im).value) == Ok(im)
  {
    RowsDecodeEncode(im.depth, im.width, im.pix);
    assert |Extract(im).value| == im.height * im.width * PixelBytes(im.depth);
  }

  /** A 32-bit pixel 0x11223344 extracts as the bytes 44 33 22 11. */
  lemma LittleEndianFixture()
    ensures EncodePixel(32, 0x11223344) == [0x44, 0x33, 0x22, 0x11]
  {
    assert 0x11223344 / 256 == 0x112233;
    assert 0x11223344 / 65536 == 0x1122;
    assert 0x11223344 / 16777216 == 0x11;
  }

  // ---------------------------------------------------------------------
  // Copies (MB_Copy, MB_CopyLine, MB_CropCopy)

  /** MB_Copy.  `aliased` says src and dest are the same image, which
      returns at once without any check. */
  function Copy(src: Image, dest: Image, aliased: bool): (r: Result<Image>)
    requires ValidDepth(src.depth) && ValidDepth(dest.depth)
    requires aliased ==> src == dest
    ensures aliased ==> r == Ok(dest)
    ensures !aliased && !SameSize(src, dest) ==> r == Fail(BadSize)
    ensures !aliased && SameSize(src, dest) ==>
              (r.Ok? <==> src.depth == dest.depth && ValidDepth(src.depth))
    ensures r.Fail? && SameSize(src, dest) ==> r.error == BadDepth
    ensures r.Ok? ==> SameSize(r.value, dest) && r.value.depth == dest.depth
    ensures r.Ok? && Valid(src) && Valid(dest) ==> Valid(r.value)
    ensures r.Ok? ==> forall x, y :: Inside(dest, x, y) ==> Get(r.value, x, y) == Get(src, x, y)
  {
    if aliased then Ok(dest)
    else if !SameSize(src, dest) then Fail(BadSize)
    else if !(Probe(src, dest) in {Pair1x1, Pair8x8, Pair32x32}) then Fail(BadDepth)
    else Ok(Make(dest.width, dest.height, dest.depth, (x, y) => Get(src, x, y)))
  }

  /** MB_CopyLine: the line indices are checked first; copying a line onto
      itself in the same image changes nothing. */
  function CopyLine(src: Image, dest: Image, aliased: bool, ys: nat, yd: nat): (r: Result<Image>)
    requires ValidDepth(src.depth) && ValidDepth(dest.depth)
    requires aliased ==> src == dest
    requires Shaped(dest.pix, dest.width, dest.height)
    ensures (ys >= src.height || yd >= dest.height) ==> r == Fail(BadValue)
    ensures ys < src.height && yd < dest.height && aliased && ys == yd ==> r == Ok(dest)
    ensures r.Ok? ==> SameSize(r.value, dest) && r.value.depth == dest.depth
    ensures r.Ok? ==> forall x, y :: Inside(dest, x, y) ==>
              Get(r.value, x, y) == (if y == yd then Get(src, x, ys) else Get(dest, x, y))
    ensures r.Fail? && ys < src.height && yd < dest.height ==>
              (r.error == BadSize <==> !SameSize(src, dest))
  {
    if ys >= src.height || yd >= dest.height then Fail(BadValue)
    else if aliased && ys == yd then Ok(dest)
    else if !SameSize(src, dest) then Fail(BadSize)
    else if !(Probe(src, dest) in {Pair1x1, Pair8x8, Pair32x32}) then Fail(BadDepth)
    else Ok(Make(dest.width, dest.height, dest.depth,
                 (x, y) => if y == yd then Get(src, x, ys) else Get(dest, x, y)))
  }

  /** MB_CropCopy: the depth pair first, then an empty request, then a start
      position outside either image.  The copied extent is the request
      clipped to both images. */
  function CropCopy(src: Image, xs: nat, ys: nat, dest: Image, xd: nat, yd: nat, w: nat, h: nat): (r: Result<Image>)
    requires ValidDepth(src.depth) && ValidDepth(dest.depth)
    requires Shaped(dest.pix, dest.width, dest.height)
    ensures !(Probe(src, dest) in {Pair8x8, Pair32x32}) ==> r == Fail(BadDepth)
    ensures Probe(src, dest) in {Pair8x8, Pair32x32} && (w == 0 || h == 0) ==> r == Fail(BadValue)
    ensures Probe(src, dest) in {Pair8x8, Pair32x32} && w > 0 && h > 0 ==>
              (r.Ok? <==> xd < dest.width && yd < dest.height && xs < src.width && ys < src.height)
    ensures r.Fail? && Probe(src, dest) in {Pair8x8, Pair32x32} && w > 0 && h > 0 ==> r.error == BadSize
    ensures r.Ok? ==> SameSize(r.value, dest) && r.value.depth == dest.depth
    ensures r.Ok? ==> forall x, y :: Inside(dest, x, y) ==>
              Get(r.value, x, y) ==
                (if xd <= x < xd + w && x - xd < src.width - xs && yd <= y < yd + h && y - yd < src.height - ys
                 then Get(src, xs + (x - xd), ys + (y - yd))
                 else Get(dest, x, y))
  {
    if !(Probe(src, dest) in {Pair8x8, Pair32x32}) then Fail(BadDepth)
    else if w == 0 || h == 0 then Fail(BadValue)
    else if xd >= dest.width || yd >= dest.height then Fail(BadSize)
    else if xs >= src.width || ys >= src.height then Fail(BadSize)
    else
      var cw := Min(Min(w, dest.width - xd), src.width - xs);
      var ch := Min(Min(h, dest.height - yd), src.height - ys);
      Ok(Make(dest.width, dest.height, dest.depth, (x, y) => CropPixel(src, xs, ys, dest, xd, yd, cw, ch, x, y)))
  }

  /** Pixel (x, y) of the destination after copying the cw x ch block. */
  function CropPixel(src: Image, xs: nat, ys: nat, dest: Image, xd: nat, yd: nat, cw: int, ch: int, x: int, y: int): nat
  {
    if xd <= x < xd + cw && yd <= y < yd + ch then Get(src, xs + (x - xd), ys + (y - yd)) else Get(dest, x, y)
  }

  /** Cropping the whole of a non-empty image onto the origin of one of the
      same size and depth is MB_Copy (an empty request is refused). */
  lemma CropCopyWhole(src: Image, dest: Image)
    requires Valid(src) && Valid(dest) && SameSize(src, dest)
    requires src.depth == dest.depth && src.depth in {8, 32}
    requires src.width > 0 && src.height > 0
    ensures CropCopy(src, 0, 0, dest, 0, 0, src.width, src.height) == Copy(src, dest, false)
  {
    var c := CropCopy(src, 0, 0, dest, 0, 0, src.width, src.height);
    var k := Copy(src, dest, false);
    assert c.Ok? && k.Ok?;
    forall x, y | Inside(dest, x, y)
      ensures Get(c.value, x, y) == Get(k.value, x, y)
    {
    }
    Extensionality(c.value, k.value);
  }

  /** Pixel (x, y) after the first i rows of an in-place crop copy: row
      yd + k receives cw pixels read from row ys + k, starting at column
      xs, of the image as the rows before it have left it. */
  function CropRowsPixel(im: Image, xs: nat, ys: nat, xd: nat, yd: nat, cw: nat, i: nat, x: int, y: int): (v: nat)
    ensures !(xd <= x < xd + cw && yd <= y < yd + i) ==> v == Get(im, x, y)
    decreases i
  {
    if i == 0 then Get(im, x, y)
    else if y == yd + i - 1 && xd <= x < xd + cw then CropRowsPixel(im, xs, ys, xd, yd, cw, i - 1, xs + (x - xd), ys + i - 1)
    else CropRowsPixel(im, xs, ys, xd, yd, cw, i - 1, x, y)
  }

  /** The image after the first i rows of an in-place crop copy. */
  function CropRows(im: Image, xs: nat, ys: nat, xd: nat, yd: nat, cw: nat, i: nat): (r: Image)
    requires Shaped(im.pix, im.width, im.height)
    ensures SameSize(r, im) && r.depth == im.depth && Shaped(r.pix, im.width, im.height)
    ensures forall x, y :: Inside(im, x, y) ==> Get(r, x, y) == CropRowsPixel(im, xs, ys, xd, yd, cw, i, x, y)
  {
    Make(im.width, im.height, im.depth, (x, y) => CropRowsPixel(im, xs, ys, xd, yd, cw, i, x, y))
  }

  /** MB_CropCopy with one image as both source and destination.  There is
      no test for that case: the clipped rows are copied one after the
      other from the top, so a row that is read may already hold pixels
      written by an earlier row of the same call.  The checks and the
      clipping are those of CropCopy. */
  function CropCopySelf(im: Image, xs: nat, ys: nat, xd: nat, yd: nat, w: nat, h: nat): (r: Result<Image>)
    requires ValidDepth(im.depth) && Shaped(im.pix, im.width, im.height)
    ensures r.Fail? <==> CropCopy(im, xs, ys, im, xd, yd, w, h).Fail?
    ensures r.Fail? ==> r == CropCopy(im, xs, ys, im, xd, yd, w, h)
    ensures r.Ok? ==> SameSize(r.value, im) && r.value.depth == im.depth && Shaped(r.value.pix, im.width, im.height)
    ensures r.Ok? ==> forall x, y :: Inside(im, x, y) && !(xd <= x < xd + w && yd <= y < yd + h) ==>
              Get(r.value, x, y) == Get(im, x, y)
  {
    if !(Probe(im, im) in {Pair8x8, Pair32x32}) then Fail(BadDepth)
    else if w == 0 || h == 0 then Fail(BadValue)
    else if xd >= im.width || yd >= im.height then Fail(BadSize)
    else if xs >= im.width || ys >= im.height then Fail(BadSize)
    else Ok(CropRows(im, xs, ys, xd, yd, CropWidth(im, xs, xd, w), CropHeight(im, ys, yd, h)))
  }

  /** The width MB_CropCopy copies: the request clipped to both images. */
  function CropWidth(im: Image, xs: nat, xd: nat, w: nat): (cw: int)
    ensures cw <= w && xs + cw <= im.width && xd + cw <= im.width
  {
    Min(Min(w, im.width - xd), im.width - xs)
  }

  /** The height MB_CropCopy copies: the request clipped to both images. */
  function CropHeight(im: Image, ys: nat, yd: nat, h: nat): (ch: int)
    ensures ch <= h && ys + ch <= im.height && yd + ch <= im.height
  {
    Min(Min(h, im.height - yd), im.height - ys)
  }

  /** While no row is read after it has been written, the in-place rows
      hold the block of the original image: one pixel. */
  lemma {:induction false} CropRowsApartAt(im: Image, xs: nat, ys: nat, xd: nat, yd: nat, cw: nat, i: nat, x: int, y: int)
    requires Shaped(im.pix, im.width, im.height)
    requires xs + cw <= im.width && ys + i <= im.height
    requires yd <= ys || ys + i <= yd
    requires Inside(im, x, y)
    ensures CropRowsPixel(im, xs, ys, xd, yd, cw, i, x, y) ==
              (if xd <= x < xd + cw && yd <= y < yd + i then Get(im, xs + (x - xd), ys + (y - yd)) else Get(im, x, y))
    decreases i
  {
    if i > 0 {
      if y == yd + i - 1 && xd <= x < xd + cw {
        CropRowsApartAt(im, xs, ys, xd, yd, cw, i - 1, xs + (x - xd), ys + i - 1);
      } else {
        CropRowsApartAt(im, xs, ys, xd, yd, cw, i - 1, x, y);
      }
    }
  }

  /** An in-place crop whose source rows all lie at or below the
      destination rows, or all above them, is the crop of two distinct
      images. */
  lemma CropCopySelfAgrees(im: Image, xs: nat, ys: nat, xd: nat, yd: nat, w: nat, h: nat)
    requires ValidDepth(im.depth) && Shaped(im.pix, im.width, im.height)
    requires yd <= ys || ys + h <= yd
    ensures CropCopySelf(im, xs, ys, xd, yd, w, h) == CropCopy(im, xs, ys, im, xd, yd, w, h)
  {
    var a := CropCopySelf(im, xs, ys, xd, yd, w, h);
    var b := CropCopy(im, xs, ys, im, xd, yd, w, h);
    if a.Ok? {
      var cw, ch := CropWidth(im, xs, xd, w), CropHeight(im, ys, yd, h);
      var c := CropRows(im, xs, ys, xd, yd, cw, ch);
      var m := Make(im.width, im.height, im.depth, (x, y) => CropPixel(im, xs, ys, im, xd, yd, cw, ch, x, y));
      assert a == Ok(c) && b == Ok(m);
      forall x, y | Inside(im, x, y)
        ensures Get(c, x, y) == Get(m, x, y)
      {
        CropRowsApartAt(im, xs, ys, xd, yd, cw, ch, x, y);
      }
      Extensionality(c, m);
    }
  }

  /** Rows written before step j are not touched again by later steps. */
  lemma {:induction false} CropRowsKeep(im: Image, xs: nat, ys: nat, xd: nat, yd: nat, cw: nat, i: nat, j: nat, x: int, y: int)
    requires j <= i && y < yd + j
    ensures CropRowsPixel(im, xs, ys, xd, yd, cw, i, x, y) == CropRowsPixel(im, xs, ys, xd, yd, cw, j, x, y)
    decreases i
  {
    if i > j {
      CropRowsKeep(im, xs, ys, xd, yd, cw, i - 1, j, x, y);
    }
  }

  /** Copying a block down within one image, at distance d = yd - ys, as
      the rows are written from the top: the first d rows of the block are
      the source rows, and every later row repeats the row d above it, so
      the block becomes a pattern of period d.  One pixel. */
  lemma CropRowsRepeatAt(im: Image, x0: nat, ys: nat, yd: nat, cw: nat, i: nat, x: int, y: int)
    requires ys < yd && x0 <= x < x0 + cw && yd <= y < yd + i
    ensures CropRowsPixel(im, x0, ys, x0, yd, cw, i, x, y) ==
              (if y < yd + (yd - ys) then Get(im, x, ys + (y - yd))
               else CropRowsPixel(im, x0, ys, x0, yd, cw, i, x, y - (yd - ys)))
  {
    var k := y - yd;
    CropRowsKeep(im, x0, ys, x0, yd, cw, i, k + 1, x, y);
    assert CropRowsPixel(im, x0, ys, x0, yd, cw, k + 1, x, y) == CropRowsPixel(im, x0, ys, x0, yd, cw, k, x, ys + k);
    if ys + k >= yd {
      CropRowsKeep(im, x0, ys, x0, yd, cw, i, k, x, ys + k);
    }
  }

  /** MB_CropCopy moving a block down by d = yd - ys rows inside one image:
      the first d rows of the destination block are the source rows, and
      every later row repeats the row d above it. */
  lemma CropCopySelfRepeats(im: Image, x0: nat, ys: nat, yd: nat, w: nat, h: nat)
    requires ValidDepth(im.depth) && Shaped(im.pix, im.width, im.height)
    requires ys < yd
    ensures var r := CropCopySelf(im, x0, ys, x0, yd, w, h);
            r.Ok? ==> forall x, y :: Inside(im, x, y) && x0 <= x < x0 + w && yd <= y < yd + h ==>
              Get(r.value, x, y) ==
                (if y < yd + (yd - ys) then Get(im, x, ys + (y - yd)) else Get(r.value, x, y - (yd - ys)))
  {
    var r := CropCopySelf(im, x0, ys, x0, yd, w, h);
    if r.Ok? {
      var cw, ch := CropWidth(im, x0, x0, w), CropHeight(im, ys, yd, h);
      forall x, y | Inside(im, x, y) && x0 <= x < x0 + w && yd <= y < yd + h
        ensures Get(r.value, x, y) ==
                  (if y < yd + (yd - ys) then Get(im, x, ys + (y - yd)) else Get(r.value, x, y - (yd - ys)))
      {
        CropRowsRepeatAt(im, x0, ys, yd, cw, ch, x, y);
        if y >= yd + (yd - ys) {
          assert Inside(im, x, y - (yd - ys));
        }
      }
    }
  }

  /** Copying the two top rows one row down inside one image writes row 0
      into row 2 as well, where a copy between distinct images writes
      row 1. */
  lemma CropCopySelfSmears(im: Image)
    requires Shaped(im.pix, im.width, im.height) && im.depth in {8, 32}
    requires im.width >= 1 && im.height >= 3
    ensures var r := CropCopySelf(im, 0, 0, 0, 1, im.width, 2);
            r.Ok? && forall x :: 0 <= x < im.width ==> Get(r.value, x, 2) == Get(im, x, 0)
    ensures var c := CropCopy(im, 0, 0, im, 0, 1, im.width, 2);
            c.Ok? && forall x :: 0 <= x < im.width ==> Get(c.value, x, 2) == Get(im, x, 1)
  {
    CropCopySelfRepeats(im, 0, 0, 1, im.width, 2);
    var r := CropCopySelf(im, 0, 0, 0, 1, im.width, 2);
    assert r.Ok?;
    forall x | 0 <= x < im.width
      ensures Get(r.value, x, 2) == Get(im, x, 0)
    {
      assert Inside(im, x, 2) && Inside(im, x, 1);
    }
  }

  /** MB_CopyLine applied to every line in turn, from the top: once all
      lines are copied the result is MB_Copy's. */
  method CopyByLines(src: Image, dest: Image) returns (r: Result<Image>)
    requires Valid(src) && Valid(dest) && SameSize(src, dest) && src.depth == dest.depth
    ensures r == Copy(src, dest, false)
  {
    var cur := dest;
    var y := 0;
    while y < dest.height
      invariant 0 <= y <= dest.height
      invariant Shaped(cur.pix, cur.width, cur.height) && SameSize(cur, dest) && cur.depth == dest.depth
      invariant forall x, j :: Inside(dest, x, j) ==> Get(cur, x, j) == (if j < y then Get(src, x, j) else Get(dest, x, j))
    {
      var next := CopyLine(src, cur, false, y, y);
      cur := next.value;
      y := y + 1;
    }
    r := Copy(src, dest, false);
    if r.Ok? {
      Extensionality(cur, r.value);
    }
    r := Ok(cur);
  }

  // ---------------------------------------------------------------------
  // Value ranges (MB_Range, MB_depthRange)

  /** MB_depthRange: the full value range of a depth. */
  function DepthRange(depth: nat): (r: Result<(nat, nat)>)
    ensures ValidDepth(depth) <==> r.Ok?
    ensures r.Fail? ==> r.error == BadDepth
    ensures r.Ok? ==> r.value.0 == 0 && r.value.1 == MaxValue(depth)
  {
    if ValidDepth(depth) then Ok((0, MaxValue(depth))) else Fail(BadDepth)
  }

  /** MB_Range: the smallest and largest pixel value, scanning from
      (depth maximum, 0); the binary scan stops early with the same answer. */
  method Range(im: Image) returns (r: Result<(nat, nat)>)
    requires Shaped(im.pix, im.width, im.height)
    ensures !ValidDepth(im.depth) <==> r.Fail?
    ensures r.Fail? ==> r.error == BadDepth
    ensures r.Ok? ==> forall x, y :: Inside(im, x, y) ==> r.value.0 <= Get(im, x, y) <= r.value.1
    ensures r.Ok? ==> (r.value.0 == MaxValue(im.depth) || exists x, y :: Inside(im, x, y) && Get(im, x, y) == r.value.0)
    ensures r.Ok? ==> (r.value.1 == 0 || exists x, y :: Inside(im, x, y) && Get(im, x, y) == r.value.1)
    ensures r.Ok? && (forall x, y :: Inside(im, x, y) ==> Get(im, x, y) <= MaxValue(im.depth)) ==> r.value.0 <= MaxValue(im.depth)
  {
    if !ValidDepth(im.depth) {
      return Fail(BadDepth);
    }
    var lo := MaxValue(im.depth);
    var hi := 0;
    var y := 0;
    while y < im.height
      invariant 0 <= y <= im.height
      invariant forall x', y' :: 0 <= x' < im.width && 0 <= y' < y ==> lo <= Get(im, x', y') <= hi
      invariant lo == MaxValue(im.depth) || exists x', y' :: Inside(im, x', y') && Get(im, x', y') == lo
      invariant hi == 0 || exists x', y' :: Inside(im, x', y') && Get(im, x', y') == hi
      invariant lo <= MaxValue(im.depth)
    {
      var x := 0;
      while x < im.width
        invariant 0 <= x <= im.width
        invariant forall x', y' :: 0 <= x' < im.width && 0 <= y' < y ==> lo <= Get(im, x', y') <= hi
        invariant forall x' :: 0 <= x' < x ==> lo <= Get(im, x', y) <= hi
        invariant lo == MaxValue(im.depth) || exists x', y' :: Inside(im, x', y') && Get(im, x', y') == lo
        invariant hi == 0 || exists x', y' :: Inside(im, x', y') && Get(im, x', y') == hi
        invariant lo <= MaxValue(im.depth)
      {
        var v := im.pix[y][x];
        assert v == Get(im, x, y) && Inside(im, x, y);
        if v < lo {
          lo := v;
        }
        if v > hi {
          hi := v;
        }
        x := x + 1;
      }
      y := y + 1;
    }
    return Ok((lo, hi));
  }
}
