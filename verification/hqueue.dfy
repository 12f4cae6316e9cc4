// The hierarchical queue shared by MB_HierarBld and MB_Watershed: 256 FIFO
// lists of pixel positions, one per grey level.  The C code threads the
// lists through a token array (one `next` link per pixel); here every list is
// a sequence, appended at the back and read from the front.  Also the
// neighbour offset tables both algorithms use.

module HierQueue {
  import opened Common
  import opened Images
  import opened Directions

  /** A pixel position (x, y). */
  type Pos = (int, int)

  predicate InsideP(im: Image, p: Pos)
  {
    Inside(im, p.0, p.1)
  }

  function At(im: Image, p: Pos): nat
  {
    Get(im, p.0, p.1)
  }

  /** The positions of the pixels of an image. */
  function Pixels(im: Image): (s: set<Pos>)
    ensures forall p :: p in s <==> InsideP(im, p)
  {
    set x, y | 0 <= x < im.width && 0 <= y < im.height :: (x, y)
  }

  /** An 8-bit image holds values up to 255. */
  lemma Bounded8(im: Image)
    requires Valid(im) && im.depth == 8
    ensures forall x, y :: Inside(im, x, y) ==> Get(im, x, y) <= 255
  {
    forall x, y | Inside(im, x, y)
      ensures Get(im, x, y) <= 255
    {
      assert Get(im, x, y) == im.pix[y][x];
    }
  }

  /** The 256 lists, all empty (the reset loop of MB_HierarchyInit). */
  const EmptyQueues: seq<seq<Pos>> := seq(256, l => [])

  /** Appends a token at the back of the list of level l. */
  function Enqueue(q: seq<seq<Pos>>, l: nat, p: Pos): (r: seq<seq<Pos>>)
    requires l < |q|
    ensures |r| == |q| && r[l] == q[l] + [p]
    ensures forall k :: 0 <= k < |q| && k != l ==> r[k] == q[k]
  {
    q[l := q[l] + [p]]
  }

  /** The tokens of one list, each labelled with its level. */
  function Tagged(l: int, s: seq<Pos>): (t: seq<(int, Pos)>)
    ensures |t| == |s|
    ensures forall k :: 0 <= k < |s| ==> t[k] == (l, s[k])
  {
    seq(|s|, k requires 0 <= k < |s| => (l, s[k]))
  }

  /** The lists of levels 255 down to l, each read front to back: the order
      in which a flooding from the top level down visits the tokens. */
  function Downward(q: seq<seq<Pos>>, l: nat): (t: seq<(int, Pos)>)
    requires |q| == 256 && l <= 256
    decreases 256 - l
  {
    if l == 256 then [] else Downward(q, l + 1) + Tagged(l, q[l])
  }

  /** The lists of levels 0 up to l - 1, each read front to back: the order
      of a flooding from level 0 up. */
  function Upward(q: seq<seq<Pos>>, l: nat): (t: seq<(int, Pos)>)
    requires |q| == 256 && l <= 256
  {
    if l == 0 then [] else Upward(q, l - 1) + Tagged(l - 1, q[l - 1])
  }

  /** Levels never rise along a downward visit. */
  lemma {:induction false} DownwardLevels(q: seq<seq<Pos>>, l: nat)
    requires |q| == 256 && l <= 256
    ensures forall k :: 0 <= k < |Downward(q, l)| ==> l <= Downward(q, l)[k].0 < 256
    ensures forall a, b :: 0 <= a < b < |Downward(q, l)| ==> Downward(q, l)[a].0 >= Downward(q, l)[b].0
    decreases 256 - l
  {
    if l < 256 {
      DownwardLevels(q, l + 1);
    }
  }

  /** Levels never fall along an upward visit. */
  lemma {:induction false} UpwardLevels(q: seq<seq<Pos>>, l: nat)
    requires |q| == 256 && l <= 256
    ensures forall k :: 0 <= k < |Upward(q, l)| ==> 0 <= Upward(q, l)[k].0 < l
    ensures forall a, b :: 0 <= a < b < |Upward(q, l)| ==> Upward(q, l)[a].0 <= Upward(q, l)[b].0
  {
    if l > 0 {
      UpwardLevels(q, l - 1);
    }
  }

  /** The downward visit from l only reads the lists of levels l and above. */
  lemma {:induction false} DownwardFrame(q: seq<seq<Pos>>, q': seq<seq<Pos>>, l: nat)
    requires |q| == 256 && |q'| == 256 && l <= 256
    requires forall k :: l <= k < 256 ==> q[k] == q'[k]
    ensures Downward(q, l) == Downward(q', l)
    decreases 256 - l
  {
    if l < 256 {
      DownwardFrame(q, q', l + 1);
    }
  }

  /** The upward visit up to l only reads the lists of levels below l. */
  lemma {:induction false} UpwardFrame(q: seq<seq<Pos>>, q': seq<seq<Pos>>, l: nat)
    requires |q| == 256 && |q'| == 256 && l <= 256
    requires forall k :: 0 <= k < l ==> q[k] == q'[k]
    ensures Upward(q, l) == Upward(q', l)
  {
    if l > 0 {
      UpwardFrame(q, q', l - 1);
    }
  }

  /** One more token of the current list extends the visit by that token. */
  lemma TaggedStep(l: int, s: seq<Pos>, i: nat)
    requires i < |s|
    ensures Tagged(l, s[..i + 1]) == Tagged(l, s[..i]) + [(l, s[i])]
  {
  }

  // ---------------------------------------------------------------------
  // The neighbour tables of MB_Watershed.c, also used by MB_HierarBld.c

  /** sqNbDir: the offsets of the square directions 0..8. */
  const SqNbDir: seq<(int, int)> :=
    [(0, 0), (0, -1), (1, -1), (1, 0), (1, 1), (0, 1), (-1, 1), (-1, 0), (-1, -1)]

  /** hxNbDir: the offsets of the hexagonal directions 0..6, for even and
      for odd lines. */
  const HxNbDir: seq<seq<(int, int)>> := [
    [(0, 0), (0, -1), (1, 0), (0, 1), (-1, 1), (-1, 0), (-1, -1)],
    [(0, 0), (1, -1), (1, 0), (1, 1), (0, 1), (-1, 0), (0, -1)]
  ]

  /** The tables give the same neighbours as the direction offsets used
      everywhere else (the hexagonal row selected by y % 2). */
  lemma NbDirTables(d: nat, y: int)
    ensures d <= 8 ==> SqNbDir[d] == Offset(Square, d, y)
    ensures d <= 6 ==> HxNbDir[y % 2][d] == Offset(Hexagonal, d, y)
  {
  }
}
