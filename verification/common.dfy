// Shared vocabulary of the Mamba core: error codes, grids, edges, pixel
// depths, depth pairs, edge fill values and fixed-width integer arithmetic.

module Common {

  /** The error codes of the C core, in the order of their enumeration. */
  datatype Error =
    | NoErr
    | BadSize
    | BadDepth
    | BadParameter
    | BadValue
    | BadDirection
    | CantAllocateMemory
    | BadImageDimensions
    | LoadData
    | Unknown

  /** Numeric value of an error code: its position in the enumeration. */
  function ErrorCode(e: Error): (n: nat)
    ensures n < 10
    ensures n == 0 <==> e == NoErr
  {
    match e
    case NoErr => 0
    case BadSize => 1
    case BadDepth => 2
    case BadParameter => 3
    case BadValue => 4
    case BadDirection => 5
    case CantAllocateMemory => 6
    case BadImageDimensions => 7
    case LoadData => 8
    case Unknown => 9
  }

  /** An operation either succeeds with a value or reports an error. */
  datatype Result<T> = Ok(value: T) | Fail(error: Error)
  {
    predicate IsFailure() { Fail? }
  }

  /** What a Python wrapper raises: a core error code or a Python exception. */
  datatype PyError = MambaError(code: Error) | ValueError | IndexError | ZeroDivisionError | NameError

  /** Outcome of a Python wrapper: a value, or the exception it raises. */
  datatype PyResult<T> = PyOk(value: T) | Raised(exc: PyError)

  /** raiseExceptionOnError: a core error becomes a raised MambaError. */
  function RaiseOnError<T>(r: Result<T>): (p: PyResult<T>)
    ensures r.Ok? <==> p.PyOk?
    ensures r.Ok? ==> p.value == r.value
    ensures r.Fail? ==> p.exc == MambaError(r.error)
  {
    match r
    case Ok(v) => PyOk(v)
    case Fail(e) => Raised(MambaError(e))
  }

  /** The two 2D grids. */
  datatype Grid = Square | Hexagonal

  /** Numeric grid identifier, the row of every dispatch table. */
  function GridId(g: Grid): (n: nat)
    ensures n == (if g == Hexagonal then 1 else 0)
  {
    match g
    case Square => 0
    case Hexagonal => 1
  }

  /** Number of neighbours of a pixel on a 2D grid. */
  function Neighbors(g: Grid): (n: nat)
    ensures g == Square ==> n == 8
    ensures g == Hexagonal ==> n == 6
  {
    if g == Square then 8 else 6
  }

  /** How pixels outside the image are read. */
  datatype Edge = EmptyEdge | FilledEdge

  /** Numeric edge identifier. */
  function EdgeId(e: Edge): (n: nat)
    ensures n == (if e == FilledEdge then 1 else 0)
  {
    match e
    case EmptyEdge => 0
    case FilledEdge => 1
  }

  const Two32: nat := 0x1_0000_0000
  const Max32: nat := 0xFFFF_FFFF

  /** The depths an image can have. */
  predicate ValidDepth(d: nat)
  {
    d == 1 || d == 8 || d == 32
  }

  /** Largest pixel value at a given depth. */
  function MaxValue(depth: nat): (m: nat)
    ensures depth == 1 ==> m == 1
    ensures depth == 8 ==> m == 255
    ensures depth != 1 && depth != 8 ==> m == Max32
  {
    if depth == 1 then 1 else if depth == 8 then 255 else Max32
  }

  /** The depth-pair code of an (input, output) depth combination. */
  function Pair(din: nat, dout: nat): (p: nat)
    ensures p - 128 * din == dout
  {
    din * 128 + dout
  }

  const Pair1x1: nat := 129
  const Pair1x8: nat := 136
  const Pair1x32: nat := 160
  const Pair8x1: nat := 1025
  const Pair8x8: nat := 1032
  const Pair8x32: nat := 1056
  const Pair32x1: nat := 4097
  const Pair32x8: nat := 4104
  const Pair32x32: nat := 4128

  /** The named pair constants are exactly the pair codes of their depths. */
  lemma PairConstants()
    ensures Pair(1, 1) == Pair1x1 && Pair(1, 8) == Pair1x8 && Pair(1, 32) == Pair1x32
    ensures Pair(8, 1) == Pair8x1 && Pair(8, 8) == Pair8x8 && Pair(8, 32) == Pair8x32
    ensures Pair(32, 1) == Pair32x1 && Pair(32, 8) == Pair32x8 && Pair(32, 32) == Pair32x32
  {
  }

  /** For valid depths the pair code determines both depths. */
  lemma PairInjective(a: nat, b: nat, c: nat, d: nat)
    requires ValidDepth(a) && ValidDepth(b) && ValidDepth(c) && ValidDepth(d)
    ensures Pair(a, b) == Pair(c, d) <==> a == c && b == d
  {
  }

  /** Value read outside an image of the given depth. */
  function FillValue(depth: nat, e: Edge): (v: nat)
    ensures e == EmptyEdge ==> v == 0
    ensures e == FilledEdge ==> v == MaxValue(depth)
  {
    if e == FilledEdge then MaxValue(depth) else 0
  }

  /** Bytes of the interior of one line. */
  function LineBytes(width: nat, depth: nat): (n: nat)
    ensures n * 8 <= width * depth < n * 8 + 8
  {
    width * depth / 8
  }

  /** Margins around the pixel array: lines above and below, bytes left and right. */
  const TopMargin: nat := 1
  const BottomMargin: nat := 1
  const LeftMargin: nat := 16
  const RightMargin: nat := 16

  /** Marker ending a hierarchical list. */
  const ListEnd: int := -1

  /** Size of the binary word in bits, and the index of its top bit. */
  function WordBits(binary64: bool): (n: nat)
    ensures n == 32 || n == 64
  {
    if binary64 then 64 else 32
  }

  function ShiftOneBit(binary64: bool): (n: nat)
    ensures n + 1 == WordBits(binary64)
  {
    if binary64 then 63 else 31
  }

  /** Reduction of an integer modulo 2^32, as an unsigned 32-bit store does. */
  function Wrap32(x: int): (r: nat)
    ensures r < Two32
    ensures 0 <= x < Two32 ==> r == x
    ensures (x - r) % Two32 == 0
  {
    x % Two32
  }

  /** Reduction modulo 2^16 and reinterpretation as a signed 16-bit value. */
  function ToSint16(x: int): (r: int)
    ensures -32768 <= r < 32768
    ensures -32768 <= x < 32768 ==> r == x
    ensures (x - r) % 0x10000 == 0
  {
    var u := x % 0x10000;
    if u < 0x8000 then u else u - 0x10000
  }

  /** Reduction of an integer modulo 2^8, as an unsigned byte store does. */
  function LowByte(x: int): (r: nat)
    ensures r < 256
    ensures 0 <= x < 256 ==> r == x
    ensures (x - r) % 256 == 0
  {
    x % 256
  }

  /** Clamping to the byte range, as the saturating 8-bit operators do. */
  function Clamp8(x: int): (r: nat)
    ensures r <= 255
    ensures 0 <= x <= 255 ==> r == x
    ensures x < 0 ==> r == 0
    ensures x > 255 ==> r == 255
  {
    if x < 0 then 0 else if x > 255 then 255 else x
  }

  function Min(a: int, b: int): (m: int)
    ensures m <= a && m <= b && (m == a || m == b)
  {
    if a <= b then a else b
  }

  function Max(a: int, b: int): (m: int)
    ensures m >= a && m >= b && (m == a || m == b)
  {
    if a >= b then a else b
  }

  /** Bitwise AND of two naturals, bit by bit from the least significant. */
  function BitAnd(a: nat, b: nat): (r: nat)
    ensures r <= a && r <= b
    decreases a
  {
    if a == 0 || b == 0 then 0
    else 2 * BitAnd(a / 2, b / 2) + (if a % 2 == 1 && b % 2 == 1 then 1 else 0)
  }

  /** Bitwise OR of two naturals. */
  function BitOr(a: nat, b: nat): (r: nat)
    ensures r >= a && r >= b && r <= a + b
    decreases a + b
  {
    if a == 0 then b
    else if b == 0 then a
    else 2 * BitOr(a / 2, b / 2) + (if a % 2 == 1 || b % 2 == 1 then 1 else 0)
  }

  /** Bitwise XOR of two naturals. */
  function BitXor(a: nat, b: nat): (r: nat)
    ensures r <= a + b
    decreases a + b
  {
    if a == 0 then b
    else if b == 0 then a
    else 2 * BitXor(a / 2, b / 2) + (if a % 2 != b % 2 then 1 else 0)
  }

  /** Bitwise complement within a depth is subtraction from the depth maximum. */
  function Complement(depth: nat, v: nat): (r: nat)
    requires v <= MaxValue(depth)
    ensures r <= MaxValue(depth)
    ensures r + v == MaxValue(depth)
  {
    MaxValue(depth) - v
  }

  /** Bitwise AND is commutative, and zero absorbs it. */
  lemma {:induction false} BitAndComm(a: nat, b: nat)
    ensures BitAnd(a, b) == BitAnd(b, a)
    ensures BitAnd(a, 0) == 0
    decreases a
  {
    if a != 0 && b != 0 {
      BitAndComm(a / 2, b / 2);
    }
  }

  /** Bitwise AND is idempotent. */
  lemma {:induction false} BitAndIdem(a: nat)
    ensures BitAnd(a, a) == a
    decreases a
  {
    if a != 0 {
      BitAndIdem(a / 2);
    }
  }

  /** Bitwise OR is commutative, and zero is its unit. */
  lemma {:induction false} BitOrComm(a: nat, b: nat)
    ensures BitOr(a, b) == BitOr(b, a)
    ensures BitOr(a, 0) == a
    decreases a + b
  {
    if a != 0 && b != 0 {
      BitOrComm(a / 2, b / 2);
    }
  }

  /** Bitwise OR is idempotent. */
  lemma {:induction false} BitOrIdem(a: nat)
    ensures BitOr(a, a) == a
    decreases a
  {
    if a != 0 {
      BitOrIdem(a / 2);
    }
  }

  /** XOR is commutative. */
  lemma {:induction false} BitXorComm(a: nat, b: nat)
    ensures BitXor(a, b) == BitXor(b, a)
    decreases a + b
  {
    if a != 0 && b != 0 {
      BitXorComm(a / 2, b / 2);
    }
  }

  /** XOR of a value with itself is zero. */
  lemma {:induction false} BitXorSelf(a: nat)
    ensures BitXor(a, a) == 0
    decreases a
  {
    if a != 0 {
      BitXorSelf(a / 2);
    }
  }

  /** The 32-bit word with little-endian bytes b0 (lowest) to b3 (highest). */
  function Word(b0: nat, b1: nat, b2: nat, b3: nat): (w: nat)
    requires b0 < 256 && b1 < 256 && b2 < 256 && b3 < 256
    ensures w < Two32
  {
    b0 + 256 * (b1 + 256 * (b2 + 256 * b3))
  }

  /** The four little-endian bytes of a 32-bit word. */
  function Bytes(w: nat): (bs: seq<nat>)
    ensures |bs| == 4
    ensures forall i :: 0 <= i < 4 ==> bs[i] < 256
  {
    [w % 256, (w / 256) % 256, (w / 65536) % 256, (w / 16777216) % 256]
  }

  lemma DivMod256(w: nat, q: nat, r: nat)
    requires r < 256 && w == r + 256 * q
    ensures w % 256 == r && w / 256 == q
  {
  }

  /** Splitting a word into bytes and reassembling it are inverse. */
  lemma {:induction false} WordBytesRoundTrip(b0: nat, b1: nat, b2: nat, b3: nat)
    requires b0 < 256 && b1 < 256 && b2 < 256 && b3 < 256
    ensures Bytes(Word(b0, b1, b2, b3)) == [b0, b1, b2, b3]
  {
    var w := Word(b0, b1, b2, b3);
    var q1 := b1 + 256 * (b2 + 256 * b3);
    var q2 := b2 + 256 * b3;
    DivMod256(w, q1, b0);
    DivMod256(q1, q2, b1);
    DivMod256(q2, b3, b2);
    assert w / 65536 == q2;
    assert w / 16777216 == b3;
  }

  /** Reassembling the bytes of a 32-bit word gives the word back. */
  lemma {:induction false} BytesWordRoundTrip(w: nat)
    requires w < Two32
    ensures Word(Bytes(w)[0], Bytes(w)[1], Bytes(w)[2], Bytes(w)[3]) == w
  {
    var bs := Bytes(w);
    DivMod256(w, w / 256, bs[0]);
    DivMod256(w / 256, w / 65536, bs[1]);
    DivMod256(w / 65536, w / 16777216, bs[2]);
    assert w / 16777216 < 256;
    assert bs[3] == w / 16777216;
  }

  /** A 32-bit word whose four bytes all equal b, as memset writes it. */
  function MemsetWord(b: nat): (w: nat)
    requires b < 256
    ensures w < Two32
    ensures Bytes(w) == [b, b, b, b]
  {
    WordBytesRoundTrip(b, b, b, b);
    Word(b, b, b, b)
  }
}
