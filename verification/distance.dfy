// MB_Distanceb: for every set pixel of a binary image, its distance to the
// edge of the set it lies in, written to a 32-bit image.  Two raster passes
// compute it.  The first goes from the top-left corner down: a set pixel
// whose already-visited neighbours are all set takes one more than the
// least of their values, and any other set pixel takes 1.  The second goes
// back from the bottom-right corner and lowers each value through the
// neighbours that pass has visited.  Outside the image a pixel reads as set
// with a huge distance when the edge is filled, and as unset when it is
// empty.

module Distance {
  import opened Common
  import opened Images
  import opened HierQueue
  import opened Labelling

  /** EDGE_DIST: the distance of a pixel outside the image when the edge is
      filled, larger than any distance computed inside an image. */
  const EdgeDist: nat := 0x1_0000

  /** The value the passes write beside the image before reading it
      (edge_val & EDGE_DIST): EDGE_DIST for a filled edge, 0 for an empty
      one. */
  function EdgeValue(e: Edge): (v: nat)
    ensures v == if e == FilledEdge then EdgeDist else 0
  {
    if e == FilledEdge then EdgeDist else 0
  }

  /** Whether p reads as set: inside the image a nonzero pixel of src, and
      outside it iff the edge is filled. */
  predicate SetE(src: Image, e: Edge, p: Pos)
  {
    if InsideP(src, p) then At(src, p) != 0 else e == FilledEdge
  }

  predicate AllSet(src: Image, e: Edge, c: seq<Pos>)
  {
    forall i :: 0 <= i < |c| ==> SetE(src, e, c[i])
  }

  /** The neighbours the second pass has visited before p: the right one,
      then those on the line below from right to left.  They mirror
      Labelling.Causal, the neighbours the first pass has visited. */
  function Anti(g: Grid, p: Pos): (c: seq<Pos>)
    ensures |c| == if g == Square then 4 else 3
  {
    var x, y := p.0, p.1;
    if g == Square then [(x + 1, y), (x + 1, y + 1), (x, y + 1), (x - 1, y + 1)]
    else if y % 2 == 0 then [(x + 1, y), (x, y + 1), (x - 1, y + 1)]
    else [(x + 1, y), (x + 1, y + 1), (x, y + 1)]
  }

  /** The neighbours of p are the ones the first pass visits before it and
      the ones the second pass visits before it. */
  lemma NeighboursSplit(g: Grid, p: Pos)
    ensures forall q :: Adjacent(g, p, q) <==> q in Causal(g, p) || q in Anti(g, p)
    ensures forall i :: 0 <= i < |Anti(g, p)| ==> Adjacent(g, p, Anti(g, p)[i])
    ensures forall i :: 0 <= i < |Causal(g, p)| ==> Adjacent(g, p, Causal(g, p)[i])
  {
    assert (p.1 + 1) % 2 == (if p.1 % 2 == 0 then 1 else 0);
    assert (p.1 - 1) % 2 == (if p.1 % 2 == 0 then 1 else 0);
  }

  /** FIND_MIN2 / FIND_MIN3 / FIND_MIN4: the least of a few values. */
  function Least(vs: seq<nat>): (m: nat)
    requires |vs| > 0
    ensures m in vs && forall i :: 0 <= i < |vs| ==> m <= vs[i]
  {
    if |vs| == 1 then vs[0]
    else
      var t := Least(vs[1..]);
      assert forall i :: 1 <= i < |vs| ==> vs[i] == vs[1..][i - 1];
      if vs[0] < t then vs[0] else t
  }

  // ---------------------------------------------------------------------
  // The two passes

  /** The value the first pass leaves at (x, y) (UPEDGE_LINE on line 0,
      UL2DR_QDIS_LINE or UL2DR_HDIS_LINE_EVEN / _ODD below it).  It reads
      only neighbours the pass has already written. */
  function Forward(g: Grid, src: Image, e: Edge, x: nat, y: nat): (v: nat)
    requires x < src.width && y < src.height
    decreases y, x + 1, 2
  {
    if Get(src, x, y) == 0 then 0
    else if !AllSet(src, e, Causal(g, (x, y))) then 1
    else 1 + Least(ForwardReads(g, src, e, x, y))
  }

  /** The value the first pass reads at a neighbour q it has already
      written: q's own value inside the image, the edge value outside. */
  function ForwardAt(g: Grid, src: Image, e: Edge, q: Pos): nat
    decreases if InsideP(src, q) then q.1 else 0, if InsideP(src, q) then q.0 + 1 else 0, if InsideP(src, q) then 3 else 0
  {
    if InsideP(src, q) then Forward(g, src, e, q.0, q.1) else EdgeValue(e)
  }

  /** The value the second pass leaves at (x, y) (DOWNEDGE_LINE on the last
      line, DR2UL_QDIS_LINE or DR2UL_HDIS_LINE_EVEN / _ODD above it): the
      first pass's value, lowered through the neighbours the second pass has
      already written. */
  function Backward(g: Grid, src: Image, e: Edge, x: nat, y: nat): (v: nat)
    requires x < src.width && y < src.height
    decreases src.height - y, src.width - x + 1, 2
  {
    if Get(src, x, y) == 0 then 0
    else if !AllSet(src, e, Anti(g, (x, y))) then 1
    else
      var prov := 1 + Least(BackwardReads(g, src, e, x, y));
      var f := Forward(g, src, e, x, y);
      if f < prov then f else prov
  }

  /** The value the second pass reads at a neighbour q it has already
      written: q's own value inside the image, the edge value outside. */
  function BackwardAt(g: Grid, src: Image, e: Edge, q: Pos): nat
    decreases if InsideP(src, q) then src.height - q.1 else 0, if InsideP(src, q) then src.width - q.0 + 1 else 0, if InsideP(src, q) then 3 else 0
  {
    if InsideP(src, q) then Backward(g, src, e, q.0, q.1) else EdgeValue(e)
  }

  // ---------------------------------------------------------------------
  // The passes as local rules

  /** The values the first pass reads at p's earlier neighbours, in the
      order of Labelling.Causal. */
  function ForwardReads(g: Grid, src: Image, e: Edge, x: nat, y: nat): (vs: seq<nat>)
    requires x < src.width && y < src.height
    decreases y, x + 1, 1
  {
    var c := Causal(g, (x, y));
    if g == Square then [ForwardAt(g, src, e, c[0]), ForwardAt(g, src, e, c[1]), ForwardAt(g, src, e, c[2]), ForwardAt(g, src, e, c[3])]
    else [ForwardAt(g, src, e, c[0]), ForwardAt(g, src, e, c[1]), ForwardAt(g, src, e, c[2])]
  }

  lemma ForwardReadsAt(g: Grid, src: Image, e: Edge, x: nat, y: nat)
    requires x < src.width && y < src.height
    ensures |ForwardReads(g, src, e, x, y)| == |Causal(g, (x, y))|
    ensures forall i :: 0 <= i < |Causal(g, (x, y))| ==>
      ForwardReads(g, src, e, x, y)[i] == ForwardAt(g, src, e, Causal(g, (x, y))[i])
  {
  }

  /** The values the second pass reads at p's later neighbours, in the
      order of Anti. */
  function BackwardReads(g: Grid, src: Image, e: Edge, x: nat, y: nat): (vs: seq<nat>)
    requires x < src.width && y < src.height
    decreases src.height - y, src.width - x + 1, 1
  {
    var c := Anti(g, (x, y));
    if g == Square then [BackwardAt(g, src, e, c[0]), BackwardAt(g, src, e, c[1]), BackwardAt(g, src, e, c[2]), BackwardAt(g, src, e, c[3])]
    else [BackwardAt(g, src, e, c[0]), BackwardAt(g, src, e, c[1]), BackwardAt(g, src, e, c[2])]
  }

  lemma BackwardReadsAt(g: Grid, src: Image, e: Edge, x: nat, y: nat)
    requires x < src.width && y < src.height
    ensures |BackwardReads(g, src, e, x, y)| == |Anti(g, (x, y))|
    ensures forall i :: 0 <= i < |Anti(g, (x, y))| ==>
      BackwardReads(g, src, e, x, y)[i] == BackwardAt(g, src, e, Anti(g, (x, y))[i])
  {
  }

  /** A set pixel whose earlier neighbours are all set takes one more than
      the least of them: no more than one more than any of them, and
      exactly one more than one of them. */
  lemma ForwardRule(g: Grid, src: Image, e: Edge, x: nat, y: nat)
    requires x < src.width && y < src.height && Get(src, x, y) != 0
    requires AllSet(src, e, Causal(g, (x, y)))
    ensures forall i :: 0 <= i < |Causal(g, (x, y))| ==>
      Forward(g, src, e, x, y) <= ForwardAt(g, src, e, Causal(g, (x, y))[i]) + 1
    ensures exists i :: 0 <= i < |Causal(g, (x, y))| && Forward(g, src, e, x, y) == ForwardAt(g, src, e, Causal(g, (x, y))[i]) + 1
  {
    ForwardReadsAt(g, src, e, x, y);
    var vs := ForwardReads(g, src, e, x, y);
    var k :| 0 <= k < |vs| && vs[k] == Least(vs);
  }

  /** The second pass keeps the least of the first pass's value and one more
      than each later neighbour's. */
  lemma BackwardRule(g: Grid, src: Image, e: Edge, x: nat, y: nat)
    requires x < src.width && y < src.height && Get(src, x, y) != 0
    requires AllSet(src, e, Anti(g, (x, y)))
    ensures Backward(g, src, e, x, y) <= Forward(g, src, e, x, y)
    ensures forall i :: 0 <= i < |Anti(g, (x, y))| ==>
      Backward(g, src, e, x, y) <= BackwardAt(g, src, e, Anti(g, (x, y))[i]) + 1
  {
    BackwardReadsAt(g, src, e, x, y);
    var vs := BackwardReads(g, src, e, x, y);
    assert Backward(g, src, e, x, y) <= 1 + Least(vs);
  }

  /** Of those, the second pass keeps the first pass's value or one more
      than a later neighbour's. */
  lemma BackwardChoice(g: Grid, src: Image, e: Edge, x: nat, y: nat)
    requires x < src.width && y < src.height && Get(src, x, y) != 0
    requires AllSet(src, e, Anti(g, (x, y)))
    ensures Backward(g, src, e, x, y) == Forward(g, src, e, x, y)
      || exists i :: 0 <= i < |Anti(g, (x, y))| && Backward(g, src, e, x, y) == BackwardAt(g, src, e, Anti(g, (x, y))[i]) + 1
  {
    BackwardReadsAt(g, src, e, x, y);
    var vs := BackwardReads(g, src, e, x, y);
    var prov, f := 1 + Least(vs), Forward(g, src, e, x, y);
    assert Backward(g, src, e, x, y) == if f < prov then f else prov;
    var k :| 0 <= k < |vs| && vs[k] == Least(vs);
    assert prov == BackwardAt(g, src, e, Anti(g, (x, y))[k]) + 1;
  }

  /** A pixel's value is 0 exactly when it is unset, in either pass. */
  lemma ZeroIffUnset(g: Grid, src: Image, e: Edge, x: nat, y: nat)
    requires x < src.width && y < src.height
    ensures Forward(g, src, e, x, y) == 0 <==> Get(src, x, y) == 0
    ensures Backward(g, src, e, x, y) == 0 <==> Get(src, x, y) == 0
  {
  }

  /** The first pass never exceeds one more than an earlier neighbour,
      whether the pixel and its neighbours are set or not. */
  lemma ForwardBelow(g: Grid, src: Image, e: Edge, x: nat, y: nat, i: nat)
    requires x < src.width && y < src.height && i < |Causal(g, (x, y))|
    ensures Forward(g, src, e, x, y) <= ForwardAt(g, src, e, Causal(g, (x, y))[i]) + 1
  {
    if Get(src, x, y) != 0 && AllSet(src, e, Causal(g, (x, y))) {
      ForwardRule(g, src, e, x, y);
    }
  }

  /** The second pass never exceeds the first, nor one more than a later
      neighbour. */
  lemma BackwardBelow(g: Grid, src: Image, e: Edge, x: nat, y: nat)
    requires x < src.width && y < src.height
    ensures Backward(g, src, e, x, y) <= Forward(g, src, e, x, y)
    ensures forall i :: 0 <= i < |Anti(g, (x, y))| ==>
      Backward(g, src, e, x, y) <= BackwardAt(g, src, e, Anti(g, (x, y))[i]) + 1
  {
    if Get(src, x, y) != 0 && AllSet(src, e, Anti(g, (x, y))) {
      BackwardRule(g, src, e, x, y);
    }
  }

  /** A value read outside the image, or at an unset pixel, is 0 whenever
      that pixel does not read as set. */
  lemma UnsetReadsZero(g: Grid, src: Image, e: Edge, q: Pos)
    requires !SetE(src, e, q)
    ensures ForwardAt(g, src, e, q) == 0 && BackwardAt(g, src, e, q) == 0
  {
  }

  /** A set pixel's first-pass value is one more than an earlier
      neighbour's. */
  lemma ForwardWitness(g: Grid, src: Image, e: Edge, x: nat, y: nat) returns (i: nat)
    requires x < src.width && y < src.height && Get(src, x, y) != 0
    ensures i < |Causal(g, (x, y))|
    ensures Forward(g, src, e, x, y) == ForwardAt(g, src, e, Causal(g, (x, y))[i]) + 1
  {
    var c := Causal(g, (x, y));
    if AllSet(src, e, c) {
      ForwardRule(g, src, e, x, y);
      i :| 0 <= i < |c| && Forward(g, src, e, x, y) == ForwardAt(g, src, e, c[i]) + 1;
    } else {
      i :| 0 <= i < |c| && !SetE(src, e, c[i]);
      UnsetReadsZero(g, src, e, c[i]);
    }
  }

  /** A set pixel's second-pass value is its first-pass value or one more
      than a later neighbour's. */
  lemma BackwardWitness(g: Grid, src: Image, e: Edge, x: nat, y: nat) returns (fromForward: bool, i: nat)
    requires x < src.width && y < src.height && Get(src, x, y) != 0
    ensures fromForward ==> Backward(g, src, e, x, y) == Forward(g, src, e, x, y)
    ensures !fromForward ==> i < |Anti(g, (x, y))| && Backward(g, src, e, x, y) == BackwardAt(g, src, e, Anti(g, (x, y))[i]) + 1
  {
    var c := Anti(g, (x, y));
    if AllSet(src, e, c) {
      BackwardChoice(g, src, e, x, y);
      if Backward(g, src, e, x, y) == Forward(g, src, e, x, y) {
        fromForward, i := true, 0;
      } else {
        fromForward := false;
        i :| 0 <= i < |c| && Backward(g, src, e, x, y) == BackwardAt(g, src, e, c[i]) + 1;
      }
    } else {
      fromForward := false;
      i :| 0 <= i < |c| && !SetE(src, e, c[i]);
      UnsetReadsZero(g, src, e, c[i]);
    }
  }

  /** The second pass only lowers what the first pass wrote. */
  lemma AtBelow(g: Grid, src: Image, e: Edge, q: Pos)
    ensures BackwardAt(g, src, e, q) <= ForwardAt(g, src, e, q)
  {
    if InsideP(src, q) {
      BackwardBelow(g, src, e, q.0, q.1);
    }
  }

  // ---------------------------------------------------------------------
  // The two passes together compute a distance over all neighbours

  /** How a later neighbour a of an earlier neighbour c of p is reached from
      p: it is p, or a neighbour of p, or a neighbour of a neighbour m of p,
      taken in one of three ways. */
  datatype Route =
    | Itself
    | Later(j: nat)
    | Earlier(j: nat)
    | LaterLater(j: nat, l: nat)
    | LaterEarlier(j: nat, l: nat)
    | EarlierEarlier(j: nat, l: nat)

  /** The geometry of the two scan orders, grid by grid: each of the cases
      of Route covers the later neighbours of p's earlier neighbours.  When
      the middle pixel m is a later neighbour of p and lies outside the
      image, so does a; when it is an earlier one, it lies inside the image
      whenever c does, and on a later line than c. */
  lemma Bridge(g: Grid, src: Image, p: Pos, i: nat, k: nat) returns (r: Route)
    requires InsideP(src, p) && i < |Causal(g, p)| && k < |Anti(g, Causal(g, p)[i])|
    ensures Routes(g, src, p, i, k, r)
  {
    if g == Square {
      r := BridgeSquare(src, p, i, k);
    } else {
      r := BridgeHex(src, p, i, k);
    }
  }

  /** How the later neighbour k of the earlier neighbour i of p is reached
      from p. */
  predicate Routes(g: Grid, src: Image, p: Pos, i: nat, k: nat, r: Route)
    requires i < |Causal(g, p)| && k < |Anti(g, Causal(g, p)[i])|
  {
    var a := Anti(g, Causal(g, p)[i])[k];
      match r
      case Itself => a == p
      case Later(j) => j < |Anti(g, p)| && a == Anti(g, p)[j]
      case Earlier(j) => j < |Causal(g, p)| && a == Causal(g, p)[j]
      case LaterLater(j, l) =>
        j < |Anti(g, p)| && l < |Anti(g, Anti(g, p)[j])| && a == Anti(g, Anti(g, p)[j])[l]
        && (!InsideP(src, Anti(g, p)[j]) ==> !InsideP(src, a))
      case LaterEarlier(j, l) =>
        j < |Anti(g, p)| && l < |Causal(g, Anti(g, p)[j])| && a == Causal(g, Anti(g, p)[j])[l]
        && (!InsideP(src, Anti(g, p)[j]) ==> !InsideP(src, a))
      case EarlierEarlier(j, l) =>
        j < |Causal(g, p)| && l < |Causal(g, Causal(g, p)[j])| && a == Causal(g, Causal(g, p)[j])[l]
        && (InsideP(src, Causal(g, p)[i]) ==> InsideP(src, Causal(g, p)[j]))
        && Causal(g, p)[j].1 > Causal(g, p)[i].1
  }

  lemma BridgeSquare(src: Image, p: Pos, i: nat, k: nat) returns (r: Route)
    requires InsideP(src, p) && i < 4 && k < 4
    ensures var a := Anti(Square, Causal(Square, p)[i])[k];
      match r
      case Itself => a == p
      case Later(j) => j < |Anti(Square, p)| && a == Anti(Square, p)[j]
      case Earlier(j) => j < |Causal(Square, p)| && a == Causal(Square, p)[j]
      case LaterLater(j, l) =>
        j < |Anti(Square, p)| && l < |Anti(Square, Anti(Square, p)[j])| && a == Anti(Square, Anti(Square, p)[j])[l]
        && (!InsideP(src, Anti(Square, p)[j]) ==> !InsideP(src, a))
      case LaterEarlier(j, l) =>
        j < |Anti(Square, p)| && l < |Causal(Square, Anti(Square, p)[j])| && a == Causal(Square, Anti(Square, p)[j])[l]
        && (!InsideP(src, Anti(Square, p)[j]) ==> !InsideP(src, a))
      case EarlierEarlier(j, l) =>
        j < |Causal(Square, p)| && l < |Causal(Square, Causal(Square, p)[j])| && a == Causal(Square, Causal(Square, p)[j])[l]
        && (InsideP(src, Causal(Square, p)[i]) ==> InsideP(src, Causal(Square, p)[j]))
        && Causal(Square, p)[j].1 > Causal(Square, p)[i].1
  {
    // earlier: L, AL, A, AR; later: R, BR, B, BL
    r := if i == 0 then [Itself, Later(2), Later(3), LaterEarlier(3, 0)][k]
      else if i == 1 then [Earlier(2), Itself, Earlier(0), EarlierEarlier(0, 0)][k]
      else if i == 2 then [Earlier(3), Later(0), Itself, Earlier(0)][k]
      else [LaterEarlier(0, 3), LaterLater(0, 0), Later(0), Itself][k];
  }

  lemma BridgeHex(src: Image, p: Pos, i: nat, k: nat) returns (r: Route)
    requires InsideP(src, p) && i < 3 && k < 3
    ensures var a := Anti(Hexagonal, Causal(Hexagonal, p)[i])[k];
      match r
      case Itself => a == p
      case Later(j) => j < |Anti(Hexagonal, p)| && a == Anti(Hexagonal, p)[j]
      case Earlier(j) => j < |Causal(Hexagonal, p)| && a == Causal(Hexagonal, p)[j]
      case LaterLater(j, l) =>
        j < |Anti(Hexagonal, p)| && l < |Anti(Hexagonal, Anti(Hexagonal, p)[j])| && a == Anti(Hexagonal, Anti(Hexagonal, p)[j])[l]
        && (!InsideP(src, Anti(Hexagonal, p)[j]) ==> !InsideP(src, a))
      case LaterEarlier(j, l) =>
        j < |Anti(Hexagonal, p)| && l < |Causal(Hexagonal, Anti(Hexagonal, p)[j])| && a == Causal(Hexagonal, Anti(Hexagonal, p)[j])[l]
        && (!InsideP(src, Anti(Hexagonal, p)[j]) ==> !InsideP(src, a))
      case EarlierEarlier(j, l) =>
        j < |Causal(Hexagonal, p)| && l < |Causal(Hexagonal, Causal(Hexagonal, p)[j])| && a == Causal(Hexagonal, Causal(Hexagonal, p)[j])[l]
        && (InsideP(src, Causal(Hexagonal, p)[i]) ==> InsideP(src, Causal(Hexagonal, p)[j]))
        && Causal(Hexagonal, p)[j].1 > Causal(Hexagonal, p)[i].1
  {
    var y := p.1;
    assert (y - 1) % 2 == (if y % 2 == 0 then 1 else 0);
    assert (y + 1) % 2 == (if y % 2 == 0 then 1 else 0);
    // even line: earlier L, AL, A; later R, B, BL
    // odd line: earlier L, A, AR; later R, BR, B
    r := if i == 0 then [Itself, Later(2), LaterEarlier(2, 0)][k]
      else if i == 1 then [Earlier(2), Itself, Earlier(0)][k]
      else [LaterEarlier(0, 2), Later(0), Itself][k];
  }

  /** A position's place in the second pass's order: lines nearer the bottom
      come first. */
  function Rank(src: Image, q: Pos): nat
  {
    if InsideP(src, q) then src.height - q.1 else 0
  }

  /** The result never exceeds one more than an earlier neighbour's result
      either, although the second pass does not read those neighbours. */
  lemma {:induction false} CausalBelow(g: Grid, src: Image, e: Edge, p: Pos, i: nat)
    requires InsideP(src, p) && i < |Causal(g, p)|
    ensures BackwardAt(g, src, e, p) <= BackwardAt(g, src, e, Causal(g, p)[i]) + 1
    decreases BackwardAt(g, src, e, Causal(g, p)[i]), Rank(src, Causal(g, p)[i]), 1
  {
    var q := Causal(g, p)[i];
    BackwardBelow(g, src, e, p.0, p.1);
    ForwardBelow(g, src, e, p.0, p.1, i);
    if !InsideP(src, q) || At(src, q) == 0 {
      return;
    }
    var fromForward, k := BackwardWitness(g, src, e, q.0, q.1);
    if fromForward {
      return;
    }
    var r := Bridge(g, src, p, i, k);
    CausalBelowRoute(g, src, e, p, i, k, r);
  }

  /** The case analysis of CausalBelow once the earlier neighbour's value is
      known to come from its later neighbour k, reached from p by route r. */
  lemma {:induction false} CausalBelowRoute(g: Grid, src: Image, e: Edge, p: Pos, i: nat, k: nat, r: Route)
    requires InsideP(src, p) && i < |Causal(g, p)| && InsideP(src, Causal(g, p)[i])
    requires k < |Anti(g, Causal(g, p)[i])| && Routes(g, src, p, i, k, r)
    requires BackwardAt(g, src, e, Causal(g, p)[i]) == BackwardAt(g, src, e, Anti(g, Causal(g, p)[i])[k]) + 1
    ensures BackwardAt(g, src, e, p) <= BackwardAt(g, src, e, Causal(g, p)[i]) + 1
    decreases BackwardAt(g, src, e, Causal(g, p)[i]), Rank(src, Causal(g, p)[i]), 0
  {
    BackwardBelow(g, src, e, p.0, p.1);
    match r
    case Itself =>
    case Later(j) =>
    case Earlier(j) =>
      CausalBelow(g, src, e, p, j);
    case LaterLater(j, l) =>
      var m := Anti(g, p)[j];
      if InsideP(src, m) {
        BackwardBelow(g, src, e, m.0, m.1);
      }
    case LaterEarlier(j, l) =>
      var m := Anti(g, p)[j];
      if InsideP(src, m) {
        CausalBelow(g, src, e, m, l);
      }
    case EarlierEarlier(j, l) =>
      var m := Causal(g, p)[j];
      CausalBelow(g, src, e, m, l);
      CausalBelow(g, src, e, p, j);
  }

  /** The distance equation over the whole neighbourhood: d gives the edge
      value outside the image and 0 at unset pixels, and a set pixel is one
      more than its least neighbour. */
  ghost predicate Solves(g: Grid, src: Image, e: Edge, d: Pos -> nat)
  {
    && (forall q :: !InsideP(src, q) ==> d(q) == EdgeValue(e))
    && (forall q :: InsideP(src, q) && At(src, q) == 0 ==> d(q) == 0)
    && (forall q, n :: Fg(src, q) && Adjacent(g, q, n) ==> d(q) <= d(n) + 1)
    && (forall q :: Fg(src, q) ==> exists n :: Adjacent(g, q, n) && d(q) == d(n) + 1)
  }

  /** A set pixel's result is at most one more than any neighbour's. */
  lemma NeighbourBelow(g: Grid, src: Image, e: Edge, q: Pos, n: Pos)
    requires Fg(src, q) && Adjacent(g, q, n)
    ensures BackwardAt(g, src, e, q) <= BackwardAt(g, src, e, n) + 1
  {
    NeighboursSplit(g, q);
    if n in Causal(g, q) {
      var i :| 0 <= i < |Causal(g, q)| && Causal(g, q)[i] == n;
      CausalBelow(g, src, e, q, i);
    } else {
      BackwardBelow(g, src, e, q.0, q.1);
    }
  }

  /** A set pixel's result is exactly one more than some neighbour's. */
  lemma NeighbourWitness(g: Grid, src: Image, e: Edge, q: Pos) returns (n: Pos)
    requires Fg(src, q)
    ensures Adjacent(g, q, n) && BackwardAt(g, src, e, q) == BackwardAt(g, src, e, n) + 1
  {
    NeighboursSplit(g, q);
    var fromForward, k := BackwardWitness(g, src, e, q.0, q.1);
    if fromForward {
      var i := ForwardWitness(g, src, e, q.0, q.1);
      n := Causal(g, q)[i];
      AtBelow(g, src, e, n);
      CausalBelow(g, src, e, q, i);
    } else {
      n := Anti(g, q)[k];
    }
  }

  /** The values the two passes leave solve the distance equation, though
      each pass looks at only half of the neighbours. */
  lemma PassesSolve(g: Grid, src: Image, e: Edge)
    ensures Solves(g, src, e, q => BackwardAt(g, src, e, q))
  {
    var b := q => BackwardAt(g, src, e, q);
    forall q | InsideP(src, q) && At(src, q) == 0
      ensures b(q) == 0
    {
      ZeroIffUnset(g, src, e, q.0, q.1);
    }
    forall q, n | Fg(src, q) && Adjacent(g, q, n)
      ensures b(q) <= b(n) + 1
    {
      NeighbourBelow(g, src, e, q, n);
    }
    forall q | Fg(src, q)
      ensures exists n :: Adjacent(g, q, n) && b(q) == b(n) + 1
    {
      var n := NeighbourWitness(g, src, e, q);
    }
  }

  /** Any solution of the distance equation is at most any other. */
  lemma {:induction false} SolutionBelow(g: Grid, src: Image, e: Edge, d1: Pos -> nat, d2: Pos -> nat, q: Pos)
    requires Solves(g, src, e, d1) && Solves(g, src, e, d2)
    ensures d1(q) <= d2(q)
    decreases d2(q)
  {
    if Fg(src, q) {
      var n :| Adjacent(g, q, n) && d2(q) == d2(n) + 1;
      SolutionBelow(g, src, e, d1, d2, n);
    }
  }

  /** The distance equation has exactly one solution, and it is what the
      two passes compute. */
  lemma PassesUnique(g: Grid, src: Image, e: Edge, d: Pos -> nat)
    requires Solves(g, src, e, d)
    ensures forall q :: d(q) == BackwardAt(g, src, e, q)
  {
    PassesSolve(g, src, e);
    var b := q => BackwardAt(g, src, e, q);
    forall q
      ensures d(q) == BackwardAt(g, src, e, q)
    {
      SolutionBelow(g, src, e, d, b, q);
      SolutionBelow(g, src, e, b, d, q);
    }
  }

  /** Along a line the first pass grows by at most one per pixel from the
      edge value at the left border. */
  lemma {:induction false} ForwardBound(g: Grid, src: Image, e: Edge, x: nat, y: nat)
    requires x < src.width && y < src.height
    ensures Forward(g, src, e, x, y) <= EdgeDist + x + 1
  {
    ForwardBelow(g, src, e, x, y, 0);
    if x > 0 {
      ForwardBound(g, src, e, x - 1, y);
    }
  }

  // ---------------------------------------------------------------------
  // The operator

  /** How the distance equation reads an output image: its pixels inside
      the image, the edge value outside. */
  function Reading(src: Image, e: Edge, out: Image): (d: Pos -> nat)
    ensures forall q :: !InsideP(src, q) ==> d(q) == EdgeValue(e)
  {
    q => if InsideP(src, q) then At(out, q) else EdgeValue(e)
  }

  /** Two functions with the same values solve the equation together. */
  lemma SolvesPointwise(g: Grid, src: Image, e: Edge, d1: Pos -> nat, d2: Pos -> nat)
    requires Solves(g, src, e, d1) && forall q :: d1(q) == d2(q)
    ensures Solves(g, src, e, d2)
  {
    forall q | Fg(src, q)
      ensures exists n :: Adjacent(g, q, n) && d2(q) == d2(n) + 1
    {
      var n :| Adjacent(g, q, n) && d1(q) == d1(n) + 1;
      assert d2(q) == d2(n) + 1;
    }
  }

  /** The 32-bit image of the two passes' values. */
  function Distances(g: Grid, src: Image, e: Edge): (im: Image)
    ensures im.width == src.width && im.height == src.height && im.depth == 32
    ensures forall q :: InsideP(src, q) ==> At(im, q) == BackwardAt(g, src, e, q)
  {
    Make(src.width, src.height, 32, (x, y) => if 0 <= x < src.width && 0 <= y < src.height then Backward(g, src, e, x, y) else 0)
  }

  /** MB_Distanceb: the distance of every set pixel of the binary image src
      to the edge of its set, in a 32-bit image of src's size; the edge mode
      says whether the outside of the image counts as set.  The result is
      the one solution of the distance equation; it is 0 exactly on the
      unset pixels, and it fits in 32 bits unless the image is wider than
      2^32 - 1 - EDGE_DIST pixels. */
  function Distanceb(src: Image, dest: Image, g: Grid, e: Edge): (r: Result<Image>)
    ensures r.Ok? <==> SameSize(src, dest) && Probe(src, dest) == Pair1x32
    ensures !SameSize(src, dest) ==> r == Fail(BadSize)
    ensures SameSize(src, dest) && Probe(src, dest) != Pair1x32 ==> r == Fail(BadDepth)
    ensures r.Ok? ==> r.value.width == dest.width && r.value.height == dest.height && r.value.depth == 32
    ensures r.Ok? ==> Solves(g, src, e, Reading(src, e, r.value))
    ensures r.Ok? ==> forall q :: InsideP(src, q) ==> (At(r.value, q) == 0 <==> At(src, q) == 0)
    ensures r.Ok? && src.width + EdgeDist <= Max32 ==> Valid(r.value)
  {
    if !SameSize(src, dest) then Fail(BadSize)
    else if Probe(src, dest) != Pair1x32 then Fail(BadDepth)
    else
      var out := Distances(g, src, e);
      DistancesFacts(g, src, e);
      Ok(out)
  }

  lemma DistancesFacts(g: Grid, src: Image, e: Edge)
    ensures Solves(g, src, e, Reading(src, e, Distances(g, src, e)))
    ensures forall q :: InsideP(src, q) ==> (At(Distances(g, src, e), q) == 0 <==> At(src, q) == 0)
    ensures src.width + EdgeDist <= Max32 ==> Valid(Distances(g, src, e))
  {
    var out := Distances(g, src, e);
    PassesSolve(g, src, e);
    SolvesPointwise(g, src, e, q => BackwardAt(g, src, e, q), Reading(src, e, out));
    forall q | InsideP(src, q)
      ensures At(out, q) == 0 <==> At(src, q) == 0
    {
      ZeroIffUnset(g, src, e, q.0, q.1);
    }
    if src.width + EdgeDist <= Max32 {
      forall x, y | 0 <= x < src.width && 0 <= y < src.height
        ensures out.pix[y][x] <= Max32
      {
        BackwardBelow(g, src, e, x, y);
        ForwardBound(g, src, e, x, y);
        assert out.pix[y][x] == At(out, (x, y));
      }
    }
  }

  /** Whatever solves the distance equation is the operator's result. */
  lemma DistancebUnique(src: Image, dest: Image, g: Grid, e: Edge, d: Pos -> nat)
    requires Distanceb(src, dest, g, e).Ok? && Solves(g, src, e, d)
    ensures forall q :: InsideP(src, q) ==> d(q) == At(Distanceb(src, dest, g, e).value, q)
  {
    PassesUnique(g, src, e, d);
  }
}
