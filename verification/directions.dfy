// Direction algebra of the 2D grids: the direction lists and rotations of the
// Python layer, the structuring elements built on them, and the pixel
// offsets of each direction (with the row-parity rule of the hexagonal grid).

module Directions {
  import opened Common

  /** A grid argument of the Python layer: one of the two grids, or any other object. */
  datatype GridArg = GridOf(grid: Grid) | OtherGrid

  /** getDirections: 0..6 on the hexagonal grid, 0..8 on the square grid, none otherwise. */
  function GetDirections(g: GridArg): (ds: seq<int>)
    ensures g.GridOf? ==> |ds| == Neighbors(g.grid) + 1
    ensures g.OtherGrid? ==> ds == []
    ensures forall i :: 0 <= i < |ds| ==> ds[i] == i
  {
    match g
    case GridOf(Hexagonal) => seq(7, i => i)
    case GridOf(Square) => seq(9, i => i)
    case OtherGrid => []
  }

  /** gridNeighbors: 6, 8, or 0 for any other object. */
  function GridNeighbors(g: GridArg): (n: nat)
    ensures g.GridOf? ==> n == Neighbors(g.grid)
    ensures g.OtherGrid? ==> n == 0
  {
    if g.GridOf? then Neighbors(g.grid) else 0
  }

  /** The direction check of the C neighbour operators. */
  predicate DirectionOk(g: Grid, d: int)
  {
    0 <= d && (if g == Hexagonal then d <= 6 else d <= 8)
  }

  /** The Python direction list is exactly the set of directions the C core accepts,
      and it holds one direction per neighbour plus the centre. */
  lemma GetDirectionsMatchesCore(g: Grid, d: int)
    ensures d in GetDirections(GridOf(g)) <==> DirectionOk(g, d)
    ensures |GetDirections(GridOf(g))| == GridNeighbors(GridOf(g)) + 1
  {
    var ds := GetDirections(GridOf(g));
    if DirectionOk(g, d) {
      assert ds[d] == d;
    }
  }

  /** setDefaultGrid: only a real grid replaces the default; anything else
      leaves it and produces a warning (the boolean). */
  function SetDefaultGrid(current: Grid, arg: GridArg): (r: (Grid, bool))
    ensures arg.GridOf? ==> r.0 == arg.grid && !r.1
    ensures arg.OtherGrid? ==> r.0 == current && r.1
  {
    match arg
    case GridOf(g) => (g, false)
    case OtherGrid => (current, true)
  }

  /** rotateDirection: 0 is fixed, any other direction moves `step` places
      round the N neighbours (Python's modulo, never negative).  On an
      invalid grid the modulo by zero raises. */
  function RotateDirection(d: int, step: int, g: GridArg): (r: PyResult<int>)
    ensures d == 0 ==> r == PyOk(0)
    ensures d != 0 && g.OtherGrid? ==> r == Raised(ZeroDivisionError)
    ensures d != 0 && g.GridOf? ==> r.PyOk? && 1 <= r.value <= Neighbors(g.grid)
    ensures d != 0 && g.GridOf? ==> (r.value - d - step) % Neighbors(g.grid) == 0
  {
    if d == 0 then PyOk(0)
    else if GridNeighbors(g) == 0 then Raised(ZeroDivisionError)
    else PyOk((d + step - 1) % GridNeighbors(g) + 1)
  }

  /** Rotation on a known grid (the value of RotateDirection). */
  function Rotate(d: int, step: int, g: Grid): (r: int)
    ensures d == 0 <==> r == 0
    ensures d != 0 ==> 1 <= r <= Neighbors(g)
  {
    if d == 0 then 0 else (d + step - 1) % Neighbors(g) + 1
  }

  /** On a known grid rotateDirection never raises and gives Rotate. */
  lemma RotateIsRotateDirection(d: int, step: int, g: Grid)
    ensures RotateDirection(d, step, GridOf(g)) == PyOk(Rotate(d, step, g))
  {
  }

  /** transposeDirection: rotation by half the neighbours. */
  function Transpose(d: int, g: Grid): (r: int)
    ensures d == 0 <==> r == 0
    ensures d != 0 ==> 1 <= r <= Neighbors(g)
  {
    Rotate(d, Neighbors(g) / 2, g)
  }

  /** Adding a multiple of the modulus does not change a remainder (for the
      two neighbour counts). */
  lemma ModShift(x: int, k: int, n: nat)
    requires n == 6 || n == 8
    ensures (x + n * k) % n == x % n
  {
    var q, r := x / n, x % n;
    assert x == q * n + r && 0 <= r < n;
    if n == 6 {
      assert x + 6 * k == 6 * (q + k) + r;
    } else {
      assert x + 8 * k == 8 * (q + k) + r;
    }
  }

  /** Two rotations add their steps. */
  lemma RotateCompose(d: int, a: int, b: int, g: Grid)
    ensures Rotate(Rotate(d, a, g), b, g) == Rotate(d, a + b, g)
  {
    var n := Neighbors(g);
    if d != 0 {
      var q := (d + a - 1) / n;
      assert (d + a - 1) % n == d + a - 1 - n * q;
      ModShift(d + a + b - 1, -q, n);
    }
  }

  /** Rotation by a full turn leaves every direction 1..N in place. */
  lemma RotateFullTurn(d: int, g: Grid)
    requires DirectionOk(g, d)
    ensures Rotate(d, Neighbors(g), g) == d
  {
    if d != 0 {
      ModShift(d - 1, 1, Neighbors(g));
    }
  }

  /** Transposing twice is the identity on the directions of the grid. */
  lemma TransposeInvolution(d: int, g: Grid)
    requires DirectionOk(g, d)
    ensures Transpose(Transpose(d, g), g) == d
  {
    TransposeTable(d, g);
    TransposeTable(Transpose(d, g), g);
  }

  /** The transposed direction of each direction of the grid, as a table. */
  lemma TransposeTable(d: int, g: Grid)
    requires DirectionOk(g, d)
    ensures g == Square ==> Transpose(d, g) == [0, 5, 6, 7, 8, 1, 2, 3, 4][d]
    ensures g == Hexagonal ==> Transpose(d, g) == [0, 4, 5, 6, 1, 2, 3][d]
  {
    if g == Square {
      TransposeSquare(d);
    } else {
      TransposeHexagonal(d);
    }
  }

  lemma TransposeSquare(d: int)
    requires 0 <= d <= 8
    ensures Transpose(d, Square) == [0, 5, 6, 7, 8, 1, 2, 3, 4][d]
  {
    if d == 0 {
      assert Transpose(0, Square) == 0;
    } else if d == 1 {
      assert Transpose(1, Square) == 5;
    } else if d == 2 {
      assert Transpose(2, Square) == 6;
    } else if d == 3 {
      assert Transpose(3, Square) == 7;
    } else if d == 4 {
      assert Transpose(4, Square) == 8;
    } else if d == 5 {
      assert Transpose(5, Square) == 1;
    } else if d == 6 {
      assert Transpose(6, Square) == 2;
    } else if d == 7 {
      assert Transpose(7, Square) == 3;
    } else if d == 8 {
      assert Transpose(8, Square) == 4;
    }
  }

  lemma TransposeHexagonal(d: int)
    requires 0 <= d <= 6
    ensures Transpose(d, Hexagonal) == [0, 4, 5, 6, 1, 2, 3][d]
  {
    if d == 0 {
      assert Transpose(0, Hexagonal) == 0;
    } else if d == 1 {
      assert Transpose(1, Hexagonal) == 4;
    } else if d == 2 {
      assert Transpose(2, Hexagonal) == 5;
    } else if d == 3 {
      assert Transpose(3, Hexagonal) == 6;
    } else if d == 4 {
      assert Transpose(4, Hexagonal) == 1;
    } else if d == 5 {
      assert Transpose(5, Hexagonal) == 2;
    } else if d == 6 {
      assert Transpose(6, Hexagonal) == 3;
    }
  }

  // ---------------------------------------------------------------------
  // Pixel offsets of the directions

  /** Offset (dx, dy) of the neighbour in direction d of a pixel on row y.
      On the hexagonal grid even rows are shifted left of odd rows, so the
      diagonal offsets depend on the parity of the row. */
  function Offset(g: Grid, d: int, y: int): (o: (int, int))
    ensures -1 <= o.0 <= 1 && -1 <= o.1 <= 1
    ensures d == 0 ==> o == (0, 0)
  {
    if g == Square then
      if d == 1 then (0, -1) else if d == 2 then (1, -1) else if d == 3 then (1, 0)
      else if d == 4 then (1, 1) else if d == 5 then (0, 1) else if d == 6 then (-1, 1)
      else if d == 7 then (-1, 0) else if d == 8 then (-1, -1) else (0, 0)
    else if y % 2 == 0 then
      if d == 1 then (0, -1) else if d == 2 then (1, 0) else if d == 3 then (0, 1)
      else if d == 4 then (-1, 1) else if d == 5 then (-1, 0) else if d == 6 then (-1, -1) else (0, 0)
    else
      if d == 1 then (1, -1) else if d == 2 then (1, 0) else if d == 3 then (1, 1)
      else if d == 4 then (0, 1) else if d == 5 then (-1, 0) else if d == 6 then (0, -1) else (0, 0)
  }

  /** Vertical part of a direction: the same on every row. */
  function DirY(g: Grid, d: int): (dy: int)
    ensures forall y :: Offset(g, d, y).1 == dy
  {
    Offset(g, d, 0).1
  }

  /** The neighbour of pixel p in direction d. */
  function Step(g: Grid, d: int, p: (int, int)): (q: (int, int))
    ensures q.1 == p.1 + DirY(g, d)
  {
    var o := Offset(g, d, p.1);
    (p.0 + o.0, p.1 + o.1)
  }

  /** The pixel reached by k steps in direction d. */
  function Far(g: Grid, d: int, k: nat, p: (int, int)): (q: (int, int))
    ensures q.1 == p.1 + k * DirY(g, d)
  {
    if k == 0 then p else Far(g, d, k - 1, Step(g, d, p))
  }

  /** Every non-centre direction moves the pixel. */
  lemma StepMoves(g: Grid, d: int, p: (int, int))
    requires DirectionOk(g, d) && d != 0
    ensures Step(g, d, p) != p
  {
  }

  /** Distinct directions lead to distinct neighbours. */
  lemma StepInjective(g: Grid, d: int, e: int, p: (int, int))
    requires 1 <= d <= Neighbors(g) && 1 <= e <= Neighbors(g)
    requires Step(g, d, p) == Step(g, e, p)
    ensures d == e
  {
  }

  /** Stepping in a direction and then in the transposed direction returns
      to the start, on both grids and on rows of either parity. */
  lemma StepTranspose(g: Grid, d: int, p: (int, int))
    requires DirectionOk(g, d)
    ensures Step(g, Transpose(d, g), Step(g, d, p)) == p
  {
    TransposeTable(d, g);
    var y := p.1;
    assert (y + 1) % 2 == (if y % 2 == 0 then 1 else 0);
    assert (y - 1) % 2 == (if y % 2 == 0 then 1 else 0);
  }

  /** k steps and then k transposed steps return to the start. */
  lemma {:induction false} FarTranspose(g: Grid, d: int, k: nat, p: (int, int))
    requires DirectionOk(g, d)
    ensures Far(g, Transpose(d, g), k, Far(g, d, k, p)) == p
  {
    if k > 0 {
      var m := Far(g, d, k - 1, p);
      FarLast(g, d, k - 1, p);
      StepTranspose(g, d, m);
      FarTranspose(g, d, k - 1, p);
    }
  }

  /** k steps are k-1 steps followed by one more. */
  lemma {:induction false} FarLast(g: Grid, d: int, k: nat, p: (int, int))
    ensures Far(g, d, k + 1, p) == Step(g, d, Far(g, d, k, p))
  {
    if k > 0 {
      FarLast(g, d, k - 1, Step(g, d, p));
    }
  }

  /** The horizontal coordinate moves monotonically along a direction: every
      step changes it by the same sign (or not at all). */
  function DirXSign(g: Grid, d: int): (s: int)
    ensures -1 <= s <= 1
    ensures forall y :: (s > 0 ==> Offset(g, d, y).0 >= 0) && (s < 0 ==> Offset(g, d, y).0 <= 0)
                        && (s == 0 ==> Offset(g, d, y).0 == 0)
  {
    if g == Square then Offset(g, d, 0).0
    else if d == 1 || d == 2 || d == 3 then 1
    else if d == 4 || d == 5 || d == 6 then -1
    else 0
  }

  // ---------------------------------------------------------------------
  // Structuring elements (erodil.py)

  predicate StrictlySorted(s: seq<int>)
  {
    forall i, j :: 0 <= i < j < |s| ==> s[i] < s[j]
  }

  /** Inserts d into a strictly sorted list unless it is there already. */
  function InsertSorted(s: seq<int>, d: int): (r: seq<int>)
    requires StrictlySorted(s)
    ensures StrictlySorted(r)
    ensures forall x :: x in r <==> x in s || x == d
  {
    if |s| == 0 then [d]
    else if d < s[0] then [d] + s
    else if d == s[0] then s
    else
      var t := InsertSorted(s[1..], d);
      SortedHeadBelow(s);
      ConsSorted(s[0], t);
      assert s == [s[0]] + s[1..];
      [s[0]] + t
  }

  /** The head of a strictly sorted list is below every later element. */
  lemma SortedHeadBelow(s: seq<int>)
    requires StrictlySorted(s) && |s| > 0
    ensures forall x :: x in s[1..] ==> s[0] < x
  {
    forall x | x in s[1..]
      ensures s[0] < x
    {
      var i :| 0 <= i < |s[1..]| && s[1..][i] == x;
      assert s[i + 1] == x;
    }
  }

  /** A value below every element of a strictly sorted list extends it. */
  lemma ConsSorted(a: int, t: seq<int>)
    requires StrictlySorted(t) && forall x :: x in t ==> a < x
    ensures StrictlySorted([a] + t)
  {
    var r := [a] + t;
    forall i, j | 0 <= i < j < |r|
      ensures r[i] < r[j]
    {
      assert r[j] == t[j - 1] && t[j - 1] in t;
      if i > 0 {
        assert r[i] == t[i - 1];
      }
    }
  }

  /** The direction list of a new structuring element: duplicates dropped, sorted. */
  function Normalize(ds: seq<int>): (r: seq<int>)
    ensures StrictlySorted(r)
    ensures forall x :: x in r <==> x in ds
  {
    if |ds| == 0 then [] else InsertSorted(Normalize(ds[..|ds| - 1]), ds[|ds| - 1])
  }

  /** A strictly sorted list is determined by its elements. */
  lemma {:induction false} SortedUnique(a: seq<int>, b: seq<int>)
    requires StrictlySorted(a) && StrictlySorted(b)
    requires forall x :: x in a <==> x in b
    ensures a == b
  {
    if |a| > 0 {
      assert a[0] in a;
      assert |b| > 0;
    }
    if |b| > 0 {
      assert b[0] in b;
      assert |a| > 0;
    }
    if |a| > 0 {
      assert a[0] == b[0] by {
        assert a[0] in b && b[0] in a;
      }
      forall x | x in a[1..]
        ensures x in b[1..]
      {
        var j :| 1 <= j < |a| && a[j] == x;
        assert x in a;
        var i :| 0 <= i < |b| && b[i] == x;
        assert i != 0;
        assert b[1..][i - 1] == x;
      }
      forall x | x in b[1..]
        ensures x in a[1..]
      {
        var j :| 1 <= j < |b| && b[j] == x;
        assert x in b;
        var i :| 0 <= i < |a| && a[i] == x;
        assert i != 0;
        assert a[1..][i - 1] == x;
      }
      SortedUnique(a[1..], b[1..]);
      assert a == [a[0]] + a[1..];
      assert b == [b[0]] + b[1..];
    }
  }

  /** Normalizing a list that is already strictly sorted leaves it unchanged. */
  lemma NormalizeSorted(ds: seq<int>)
    requires StrictlySorted(ds)
    ensures Normalize(ds) == ds
  {
    SortedUnique(Normalize(ds), ds);
  }

  /** A structuring element: its grid and its sorted, duplicate-free directions. */
  datatype StructuringElement = SE(directions: seq<int>, grid: Grid)

  /** The constructor: keeps each direction once, in increasing order. */
  function MakeSE(ds: seq<int>, g: Grid): (se: StructuringElement)
    ensures StrictlySorted(se.directions) && se.grid == g
    ensures forall x :: x in se.directions <==> x in ds
  {
    SE(Normalize(ds), g)
  }

  /** Two lists with the same elements make the same structuring element. */
  lemma MakeSEDependsOnlyOnSet(a: seq<int>, b: seq<int>, g: Grid)
    requires forall x :: x in a <==> x in b
    ensures MakeSE(a, g) == MakeSE(b, g)
  {
    SortedUnique(Normalize(a), Normalize(b));
  }

  /** hasZero: whether the centre belongs to the element. */
  function HasZero(se: StructuringElement): (b: bool)
    ensures b <==> 0 in se.directions
  {
    0 in se.directions
  }

  /** getDirections(withoutZero=True): the list without the centre, still in order. */
  function WithoutZero(ds: seq<int>): (r: seq<int>)
    ensures forall x :: x in r <==> x in ds && x != 0
    ensures StrictlySorted(ds) ==> StrictlySorted(r)
    ensures |r| <= |ds|
  {
    if |ds| == 0 then []
    else
      var rest := WithoutZero(ds[1..]);
      if ds[0] == 0 then rest
      else
        assert forall j :: 0 <= j < |rest| ==> rest[j] in ds[1..];
        [ds[0]] + rest
  }

  function GetSEDirections(se: StructuringElement, withoutZero: bool): (ds: seq<int>)
    ensures withoutZero ==> forall x :: x in ds <==> x in se.directions && x != 0
    ensures !withoutZero ==> ds == se.directions
  {
    if withoutZero then WithoutZero(se.directions) else se.directions
  }

  /** __eq__: equal grids and equal direction lists. */
  predicate SEEqual(a: StructuringElement, b: StructuringElement)
  {
    a.grid == b.grid && a.directions == b.directions
  }

  /** rotate: every direction rotated, then rebuilt (so re-sorted). */
  function RotateSE(se: StructuringElement, step: int): (r: StructuringElement)
    ensures r.grid == se.grid && StrictlySorted(r.directions)
    ensures forall x :: x in r.directions <==> exists d :: d in se.directions && x == Rotate(d, step, se.grid)
    ensures HasZero(r) <==> HasZero(se)
  {
    var ds := seq(|se.directions|, i requires 0 <= i < |se.directions| => Rotate(se.directions[i], step, se.grid));
    var r := MakeSE(ds, se.grid);
    forall x | x in r.directions
      ensures exists d :: d in se.directions && x == Rotate(d, step, se.grid)
    {
      var i :| 0 <= i < |ds| && ds[i] == x;
      assert se.directions[i] in se.directions;
    }
    forall d | d in se.directions
      ensures Rotate(d, step, se.grid) in r.directions
    {
      var i :| 0 <= i < |se.directions| && se.directions[i] == d;
      assert ds[i] == Rotate(d, step, se.grid);
    }
    r
  }

  /** transpose: rotation by half the neighbours. */
  function TransposeSE(se: StructuringElement): (r: StructuringElement)
    ensures r.grid == se.grid
    ensures forall x :: x in r.directions <==> exists d :: d in se.directions && x == Transpose(d, se.grid)
  {
    RotateSE(se, Neighbors(se.grid) / 2)
  }

  predicate WellFormedSE(se: StructuringElement)
  {
    StrictlySorted(se.directions) && forall d :: d in se.directions ==> DirectionOk(se.grid, d)
  }

  /** A direction belongs to the transposed element exactly when it is a
      direction of the grid whose transpose belongs to the element. */
  lemma TransposeSEMember(se: StructuringElement, x: int)
    requires WellFormedSE(se)
    ensures x in TransposeSE(se).directions <==> DirectionOk(se.grid, x) && Transpose(x, se.grid) in se.directions
  {
    var g := se.grid;
    var t := TransposeSE(se);
    if x in t.directions {
      var e :| e in se.directions && x == Transpose(e, g);
      TransposeTable(e, g);
      TransposeInvolution(e, g);
    }
    if DirectionOk(g, x) && Transpose(x, g) in se.directions {
      TransposeInvolution(x, g);
      assert x == Transpose(Transpose(x, g), g);
    }
  }

  /** Transposing a structuring element twice gives it back. */
  lemma TransposeSETwice(se: StructuringElement)
    requires WellFormedSE(se)
    ensures TransposeSE(TransposeSE(se)) == se
  {
    var g := se.grid;
    var t := TransposeSE(se);
    var tt := TransposeSE(t);
    forall x | x in t.directions
      ensures DirectionOk(g, x)
    {
      TransposeSEMember(se, x);
    }
    forall x
      ensures x in tt.directions <==> x in se.directions
    {
      TransposeSEMember(t, x);
      if DirectionOk(g, x) {
        TransposeSEMember(se, Transpose(x, g));
        TransposeTable(x, g);
        TransposeInvolution(x, g);
      }
    }
    SortedUnique(tt.directions, se.directions);
  }

  const Hexagon := MakeSE([0, 1, 2, 3, 4, 5, 6], Hexagonal)
  const Square3x3 := MakeSE([0, 1, 2, 3, 4, 5, 6, 7, 8], Square)
  const Triangle := MakeSE([0, 3, 4], Hexagonal)
  const Square2x2 := MakeSE([0, 1, 2, 3], Square)
  const Tripod := MakeSE([0, 1, 3, 5], Hexagonal)
  const Segment := MakeSE([0, 3], Square)
  const Diamond := MakeSE([0, 1, 3, 5, 7], Square)

  lemma TriangleTransposes()
    ensures Transpose(0, Hexagonal) == 0 && Transpose(3, Hexagonal) == 6 && Transpose(4, Hexagonal) == 1
  {
    assert Neighbors(Hexagonal) / 2 == 3;
    assert (3 + 3 - 1) % 6 + 1 == 6;
    assert (4 + 3 - 1) % 6 + 1 == 1;
  }

  /** The transposed TRIANGLE [0,3,4] is [0,1,6]. */
  lemma TriangleTransposed()
    ensures TransposeSE(Triangle).directions == [0, 1, 6]
  {
    TriangleTransposedMembers();
    SortedUnique(TransposeSE(Triangle).directions, [0, 1, 6]);
  }

  lemma TriangleTransposedMembers()
    ensures forall x :: x in TransposeSE(Triangle).directions <==> x in [0, 1, 6]
  {
    NormalizeSorted([0, 3, 4]);
    TriangleTransposes();
    var t := TransposeSE(Triangle);
    assert Triangle.directions == [0, 3, 4];
    forall x
      ensures x in t.directions <==> x in [0, 1, 6]
    {
      if x == 1 {
        assert 4 in Triangle.directions;
      } else if x == 6 {
        assert 3 in Triangle.directions;
      } else if x == 0 {
        assert 0 in Triangle.directions;
      }
    }
  }

  /** Rotating SEGMENT [0,3] by one step gives [0,4]. */
  lemma SegmentRotated()
    ensures RotateSE(Segment, 1).directions == [0, 4]
  {
    NormalizeSorted([0, 3]);
    var r := RotateSE(Segment, 1);
    assert Rotate(0, 1, Square) == 0;
    assert Rotate(3, 1, Square) == 4;
    assert Segment.directions == [0, 3];
    assert forall d :: d in Segment.directions ==> d == 0 || d == 3;
    forall x
      ensures x in r.directions <==> x in [0, 4]
    {
      if x == 4 {
        assert 3 in Segment.directions;
      } else if x == 0 {
        assert 0 in Segment.directions;
      }
    }
    SortedUnique(r.directions, [0, 4]);
  }

  /** Building from a list with duplicates keeps each direction once, in order. */
  lemma MakeSEDropsDuplicates()
    ensures MakeSE([3, 0, 3, 1], Square).directions == [0, 1, 3]
  {
    SortedUnique(MakeSE([3, 0, 3, 1], Square).directions, [0, 1, 3]);
  }

  /** TRIPOD without its centre is [1,3,5]. */
  lemma TripodWithoutZero()
    ensures GetSEDirections(Tripod, true) == [1, 3, 5]
  {
    NormalizeSorted([0, 1, 3, 5]);
    assert WithoutZero([0, 1, 3, 5]) == [1, 3, 5];
  }
}
