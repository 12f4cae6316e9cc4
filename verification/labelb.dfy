// MB_Labelb: connected-component labelling of a binary image into a 32-bit
// image.  A raster scan gives every set pixel a provisional label, taken
// from its already-scanned neighbours or freshly created, and records in an
// equivalence table which labels meet.  This file holds that scan; the
// second raster pass, which renumbers the classes in the order they are
// first met, and the operator itself are in labeltidy.dfy.

module Labelling {
  import opened Common
  import opened Images
  import opened Directions
  import opened HierQueue

  // ---------------------------------------------------------------------
  // Grid adjacency and connectivity

  /** A set pixel of the binary source; nothing is set outside the image. */
  predicate Fg(src: Image, p: Pos)
  {
    InsideP(src, p) && At(src, p) != 0
  }

  /** p and q are neighbours on grid g: the 8 surrounding pixels on the
      square grid; on the hexagonal grid the two on the same line and two on
      each adjacent line, shifted left from even lines and right from odd
      ones (line 0 is even). */
  predicate Adjacent(g: Grid, p: Pos, q: Pos)
  {
    var dx, dy := q.0 - p.0, q.1 - p.1;
    if g == Square then p != q && -1 <= dx <= 1 && -1 <= dy <= 1
    else if dy == 0 then dx == -1 || dx == 1
    else (dy == -1 || dy == 1) && (if p.1 % 2 == 0 then dx == -1 || dx == 0 else dx == 0 || dx == 1)
  }

  /** The direction number leading from p to a neighbour q. */
  function DirectionTo(g: Grid, p: Pos, q: Pos): (d: int)
    requires Adjacent(g, p, q)
    ensures 1 <= d <= Neighbors(g) && Step(g, d, p) == q
  {
    var dx, dy := q.0 - p.0, q.1 - p.1;
    if g == Square then
      if dy == -1 then (if dx == 0 then 1 else if dx == 1 then 2 else 8)
      else if dy == 0 then (if dx == 1 then 3 else 7)
      else (if dx == 1 then 4 else if dx == 0 then 5 else 6)
    else if dy == 0 then (if dx == 1 then 2 else 5)
    else if p.1 % 2 == 0 then
      if dy == -1 then (if dx == 0 then 1 else 6) else (if dx == 0 then 3 else 4)
    else
      if dy == -1 then (if dx == 1 then 1 else 6) else (if dx == 1 then 3 else 4)
  }

  /** The neighbours are exactly the pixels one step away in a direction of
      the grid, as every neighbour operator reads them. */
  lemma AdjacentSteps(g: Grid, p: Pos, q: Pos)
    ensures Adjacent(g, p, q) <==> exists d :: 1 <= d <= Neighbors(g) && Step(g, d, p) == q
  {
    if Adjacent(g, p, q) {
      var d := DirectionTo(g, p, q);
      assert 1 <= d <= Neighbors(g) && Step(g, d, p) == q;
    }
  }

  /** Adjacency is symmetric. */
  lemma AdjacentSymmetric(g: Grid, p: Pos, q: Pos)
    ensures Adjacent(g, p, q) <==> Adjacent(g, q, p)
  {
    assert (p.1 + 1) % 2 == (if p.1 % 2 == 0 then 1 else 0);
    assert (p.1 - 1) % 2 == (if p.1 % 2 == 0 then 1 else 0);
  }

  /** A path of set pixels, each a neighbour of the one before. */
  ghost predicate IsPath(g: Grid, src: Image, ps: seq<Pos>)
  {
    |ps| > 0
    && (forall i :: 0 <= i < |ps| ==> Fg(src, ps[i]))
    && (forall i :: 0 < i < |ps| ==> Adjacent(g, ps[i - 1], ps[i]))
  }

  /** p and q lie in the same connected component of the set pixels. */
  ghost predicate Linked(g: Grid, src: Image, p: Pos, q: Pos)
  {
    exists ps :: IsPath(g, src, ps) && ps[0] == p && ps[|ps| - 1] == q
  }

  lemma LinkedSelf(g: Grid, src: Image, p: Pos)
    requires Fg(src, p)
    ensures Linked(g, src, p, p)
  {
    assert IsPath(g, src, [p]);
  }

  lemma LinkedExtend(g: Grid, src: Image, p: Pos, q: Pos, r: Pos)
    requires Linked(g, src, p, q) && Fg(src, r) && Adjacent(g, q, r)
    ensures Linked(g, src, p, r)
  {
    var ps :| IsPath(g, src, ps) && ps[0] == p && ps[|ps| - 1] == q;
    var qs := ps + [r];
    assert IsPath(g, src, qs) && qs[0] == p && qs[|qs| - 1] == r;
  }

  /** A path read backwards. */
  function Reverse(ps: seq<Pos>): (rs: seq<Pos>)
    ensures |rs| == |ps|
    ensures forall i :: 0 <= i < |ps| ==> rs[i] == ps[|ps| - 1 - i]
  {
    if ps == [] then [] else Reverse(ps[1..]) + [ps[0]]
  }

  lemma ReversePath(g: Grid, src: Image, ps: seq<Pos>)
    requires IsPath(g, src, ps)
    ensures IsPath(g, src, Reverse(ps))
  {
    var rs := Reverse(ps);
    var n := |ps|;
    forall i | 0 < i < n
      ensures Adjacent(g, rs[i - 1], rs[i])
    {
      assert rs[i - 1] == ps[n - i] && rs[i] == ps[n - 1 - i];
      assert Adjacent(g, ps[n - 1 - i], ps[n - i]);
      AdjacentSymmetric(g, ps[n - 1 - i], ps[n - i]);
    }
    forall i | 0 <= i < n
      ensures Fg(src, rs[i])
    {
      assert rs[i] == ps[n - 1 - i];
    }
  }

  /** Connectivity is symmetric: a path read backwards is a path. */
  lemma LinkedSymmetric(g: Grid, src: Image, p: Pos, q: Pos)
    requires Linked(g, src, p, q)
    ensures Linked(g, src, q, p)
  {
    var ps :| IsPath(g, src, ps) && ps[0] == p && ps[|ps| - 1] == q;
    var rs := Reverse(ps);
    ReversePath(g, src, ps);
    assert rs[0] == q && rs[|rs| - 1] == p;
  }

  /** Connectivity is transitive: two paths that meet join into one. */
  lemma LinkedTransitive(g: Grid, src: Image, p: Pos, q: Pos, r: Pos)
    requires Linked(g, src, p, q) && Linked(g, src, q, r)
    ensures Linked(g, src, p, r)
  {
    var ps :| IsPath(g, src, ps) && ps[0] == p && ps[|ps| - 1] == q;
    var qs :| IsPath(g, src, qs) && qs[0] == q && qs[|qs| - 1] == r;
    var ts := ps + qs[1..];
    forall i | 0 < i < |ts|
      ensures Adjacent(g, ts[i - 1], ts[i])
    {
      if i >= |ps| {
        assert ts[i - 1] == qs[i - |ps|] && ts[i] == qs[i - |ps| + 1];
      }
    }
    assert IsPath(g, src, ts) && ts[0] == p && ts[|ts| - 1] == r;
  }

  /** Two neighbouring set pixels are linked. */
  lemma LinkedAdjacent(g: Grid, src: Image, p: Pos, q: Pos)
    requires Fg(src, p) && Fg(src, q) && Adjacent(g, p, q)
    ensures Linked(g, src, p, q) && Linked(g, src, q, p)
  {
    LinkedSelf(g, src, p);
    LinkedExtend(g, src, p, p, q);
    LinkedSymmetric(g, src, p, q);
  }

  // ---------------------------------------------------------------------
  // The neighbours a line labeler reads

  /** The already-scanned neighbours of p that the line labelers read, in
      the order of the bits of their neighbour state: the left pixel, then
      the neighbours on the line above from left to right.  On line 0
      (EDGE_LINE) the line above is outside the image and reads as unset. */
  function Causal(g: Grid, p: Pos): (c: seq<Pos>)
    ensures |c| == if g == Square then 4 else 3
  {
    var x, y := p.0, p.1;
    if g == Square then [(x - 1, y), (x - 1, y - 1), (x, y - 1), (x + 1, y - 1)]
    else if y % 2 == 0 then [(x - 1, y), (x - 1, y - 1), (x, y - 1)]
    else [(x - 1, y), (x, y - 1), (x + 1, y - 1)]
  }

  /** The cells read are exactly the neighbours scanned before p; each cell
      above except the last one touches the left cell, and consecutive cells
      above touch each other. */
  lemma CausalShape(g: Grid, p: Pos)
    ensures forall i :: 0 <= i < |Causal(g, p)| ==>
      Adjacent(g, Causal(g, p)[i], p) && Adjacent(g, p, Causal(g, p)[i]) && Before(Causal(g, p)[i], p.0, p.1)
    ensures forall i :: 1 <= i < |Causal(g, p)| - 1 ==>
      Adjacent(g, Causal(g, p)[i], Causal(g, p)[0]) && Adjacent(g, Causal(g, p)[i], Causal(g, p)[i + 1])
    ensures forall q :: (Adjacent(g, q, p) || Adjacent(g, p, q)) && Before(q, p.0, p.1) ==> q in Causal(g, p)
  {
    assert (p.1 - 1) % 2 == (if p.1 % 2 == 0 then 1 else 0);
  }

  // ---------------------------------------------------------------------
  // The scan

  /** The scan state: the provisional label of every set pixel scanned so
      far (the output image during the scan), the equivalence table, and the
      next free label (labels.current, which starts at 1).  The table is
      represented by the root each label resolves to, which is what
      FIND_ABOVE_LABEL returns; the union `EQ[l] = root` of a root l then
      redirects every label resolving to l. */
  datatype Scan = Scan(prov: map<Pos, nat>, root: map<nat, nat>, current: nat)

  function Prov(st: Scan, q: Pos): nat
  {
    if q in st.prov then st.prov[q] else 0
  }

  /** FIND_ABOVE_LABEL. */
  function Find(st: Scan, l: nat): nat
  {
    if l in st.root then st.root[l] else l
  }

  /** The root of the label of a scanned pixel. */
  function Root(st: Scan, q: Pos): nat
  {
    Find(st, Prov(st, q))
  }

  /** Index of the last set cell among c[1..i] (the highest set bit of the
      neighbour state), or 0 when none is set. */
  function LastSet(src: Image, c: seq<Pos>, i: nat): (j: nat)
    requires i < |c|
    ensures j <= i && (j > 0 ==> Fg(src, c[j]))
    ensures forall t :: j < t <= i ==> !Fg(src, c[t])
  {
    if i == 0 then 0 else if Fg(src, c[i]) then i else LastSet(src, c, i - 1)
  }

  /** Index of the first set cell among c[i..k], or 0 when none is set. */
  function FirstSet(src: Image, c: seq<Pos>, i: nat, k: nat): (j: nat)
    requires 1 <= i && k < |c|
    ensures j == 0 || (i <= j <= k && Fg(src, c[j]))
    ensures forall t :: i <= t <= k && Fg(src, c[t]) ==> 0 < j <= t
    decreases k + 1 - i
  {
    if i > k then 0 else if Fg(src, c[i]) then i else FirstSet(src, c, i + 1, k)
  }

  /** `EQ[a] = b` for a root a: every label resolving to a resolves to b. */
  function Join(root: map<nat, nat>, a: nat, b: nat): (r: map<nat, nat>)
    ensures r.Keys == root.Keys
    ensures forall l :: l in root ==> r[l] == if root[l] == a then b else root[l]
  {
    map l | l in root :: if root[l] == a then b else root[l]
  }

  /** Gives the scanned pixel p the label l. */
  function Attach(st: Scan, p: Pos, l: nat): Scan
  {
    st.(prov := st.prov[p := l])
  }

  /** `if (VAL(n) != l) EQ[l] = FIND_ABOVE_LABEL(VAL(n))`: the class of the
      root l joins the class of the pixel n. */
  function Merge(st: Scan, l: nat, n: Pos): Scan
  {
    if Prov(st, n) != l then st.(root := Join(st.root, l, Root(st, n))) else st
  }

  /** The line labelers' switch on the neighbour state as the code has it
      (AsWritten), and with the union the square grid's state 10 misses
      (Corrected). */
  datatype Rule = AsWritten | Corrected

  /** One set pixel p of a line labeler.  With the left cell set, p takes
      its root and the class of the last set cell above joins it; otherwise p
      takes the root of the last set cell above; with nothing set, p opens a
      new label.  The corrected rule also joins the first set cell above
      when the left cell is unset. */
  function Visit(g: Grid, src: Image, rule: Rule, st: Scan, p: Pos): Scan
  {
    var c := Causal(g, p);
    var j := LastSet(src, c, |c| - 1);
    if Fg(src, c[0]) then
      var l := Root(st, c[0]);
      if j == 0 then Attach(st, p, l) else Merge(Attach(st, p, l), l, c[j])
    else if j > 0 then
      var l := Root(st, c[j]);
      if rule == Corrected then Merge(Attach(st, p, l), l, c[FirstSet(src, c, 1, |c| - 1)])
      else Attach(st, p, l)
    else
      Scan(st.prov[p := st.current], st.root[st.current := st.current], st.current + 1)
  }

  /** The scan moves past p: only set pixels are labelled. */
  function Next(g: Grid, src: Image, rule: Rule, st: Scan, p: Pos): Scan
  {
    if Fg(src, p) then Visit(g, src, rule, st, p) else st
  }

  /** The scan state once every pixel before (x, y) is visited: line 0 by
      EDGE_LINE, the later ones by the grid's line labelers. */
  function ScanTo(g: Grid, src: Image, rule: Rule, x: nat, y: nat): Scan
    decreases y, x
  {
    if x > 0 then Next(g, src, rule, ScanTo(g, src, rule, x - 1, y), (x - 1, y))
    else if y > 0 then ScanTo(g, src, rule, src.width, y - 1)
    else Scan(map[], map[], 1)
  }

  // ---------------------------------------------------------------------
  // What the scan keeps

  /** The labels 1 .. current - 1 are in the table, each resolving to a
      root that resolves to itself. */
  ghost predicate RootsOk(root: map<nat, nat>, current: nat)
  {
    (forall l :: l in root <==> 1 <= l < current)
    && (forall l :: l in root ==> 1 <= root[l] < current && root[root[l]] == root[l])
  }

  /** Every provisional label is in the table. */
  ghost predicate Tables(st: Scan)
  {
    st.current >= 1
    && (forall q :: q in st.prov ==> 1 <= st.prov[q] < st.current)
    && RootsOk(st.root, st.current)
  }

  /** The pixels labelled so far are the set pixels before (x, y). */
  ghost predicate Shape(src: Image, st: Scan, x: int, y: int)
  {
    (forall q :: q in st.prov <==> Fg(src, q) && Before(q, x, y))
    && Tables(st)
  }

  /** Pixels whose labels resolve to one root are connected. */
  ghost predicate Sound(g: Grid, src: Image, st: Scan)
  {
    forall q, r :: q in st.prov && r in st.prov && Root(st, q) == Root(st, r) ==> Linked(g, src, q, r)
  }

  /** Neighbouring labelled pixels have labels resolving to one root. */
  ghost predicate Complete(g: Grid, st: Scan)
  {
    forall q, r :: q in st.prov && r in st.prov && Adjacent(g, q, r) ==> Root(st, q) == Root(st, r)
  }

  /** The invariant of the scan before pixel (x, y).  Completeness holds for
      the corrected rule, and for the code's rule on the hexagonal grid; at
      most one new label is opened per pixel. */
  ghost predicate ScanInv(g: Grid, src: Image, rule: Rule, st: Scan, x: int, y: int)
  {
    Shape(src, st, x, y)
    && Sound(g, src, st)
    && (rule == Corrected || g == Hexagonal ==> Complete(g, st))
    && st.current <= y * src.width + x + 1
  }

  // ---------------------------------------------------------------------
  // One visit keeps the invariant

  /** A union keeps every label resolving to a root. */
  lemma JoinOk(root: map<nat, nat>, current: nat, a: nat, b: nat)
    requires RootsOk(root, current) && b in root && root[b] == b
    ensures RootsOk(Join(root, a, b), current)
  {
  }

  /** After a union of the root a into b, a pixel's root is redirected
      exactly when it was a. */
  lemma JoinRoots(st: Scan, a: nat, b: nat)
    requires Tables(st)
    ensures forall q :: q in st.prov ==>
      Root(st.(root := Join(st.root, a, b)), q) == if Root(st, q) == a then b else Root(st, q)
  {
  }

  /** The cells a visit reads that are set are labelled already. */
  lemma CausalLabelled(g: Grid, src: Image, st: Scan, x: int, y: int)
    requires Shape(src, st, x, y)
    ensures forall i :: 0 <= i < |Causal(g, (x, y))| && Fg(src, Causal(g, (x, y))[i]) ==> Causal(g, (x, y))[i] in st.prov
    ensures (x, y) !in st.prov
  {
    CausalShape(g, (x, y));
  }

  lemma AttachShape(src: Image, st: Scan, x: int, y: int, l: nat)
    requires Shape(src, st, x, y) && Fg(src, (x, y)) && l in st.root
    ensures Shape(src, Attach(st, (x, y), l), x + 1, y)
  {
    LabelPixel(src, st, x, y, l, st.current, st.prov[(x, y) := l]);
  }

  lemma MergeShape(src: Image, st: Scan, x: int, y: int, l: nat, n: Pos)
    requires Shape(src, st, x, y) && n in st.prov
    ensures Shape(src, Merge(st, l, n), x, y)
  {
    if Prov(st, n) != l {
      JoinOk(st.root, st.current, l, Root(st, n));
    }
  }

  lemma FreshShape(src: Image, st: Scan, x: int, y: int)
    requires Shape(src, st, x, y) && Fg(src, (x, y))
    ensures Shape(src, Scan(st.prov[(x, y) := st.current], st.root[st.current := st.current], st.current + 1), x + 1, y)
  {
    LabelPixel(src, st, x, y, st.current, st.current + 1, st.prov[(x, y) := st.current]);
    FreshRoots(st.root, st.current);
  }

  /** Labelling p with v, a label below cur, extends the labelled pixels by
      p. */
  lemma LabelPixel(src: Image, st: Scan, x: int, y: int, v: nat, cur: nat, prov: map<Pos, nat>)
    requires Shape(src, st, x, y) && Fg(src, (x, y)) && 1 <= v < cur && st.current <= cur
    requires prov == st.prov[(x, y) := v]
    ensures forall q :: q in prov <==> Fg(src, q) && Before(q, x + 1, y)
    ensures forall q :: q in prov ==> 1 <= prov[q] < cur
  {
    forall q
      ensures q in prov <==> Fg(src, q) && Before(q, x + 1, y)
    {
      assert Before(q, x + 1, y) <==> Before(q, x, y) || q == (x, y);
    }
  }

  /** A new label is a root of its own. */
  lemma FreshRoots(root: map<nat, nat>, current: nat)
    requires current >= 1 && RootsOk(root, current)
    ensures RootsOk(root[current := current], current + 1)
  {
    var root' := root[current := current];
    forall l | l in root'
      ensures 1 <= root'[l] < current + 1 && root'[root'[l]] == root'[l]
    {
      if l != current {
        assert root'[l] == root[l] && root[l] != current;
      }
    }
  }

  /** Left cell set: p takes the left cell's root. */
  lemma LeftShape(g: Grid, src: Image, st: Scan, x: int, y: int)
    requires Shape(src, st, x, y) && Fg(src, (x, y))
    requires Fg(src, Causal(g, (x, y))[0])
    ensures var c := Causal(g, (x, y)); var j := LastSet(src, c, |c| - 1); var l := Root(st, c[0]);
      var st' := if j == 0 then Attach(st, (x, y), l) else Merge(Attach(st, (x, y), l), l, c[j]);
      Shape(src, st', x + 1, y) && st'.current == st.current
  {
    var p := (x, y);
    var c := Causal(g, p);
    var j := LastSet(src, c, |c| - 1);
    var l := Root(st, c[0]);
    CausalLabelled(g, src, st, x, y);
    RootIsRoot(st, c[0]);
    AttachShape(src, st, x, y, l);
    if j > 0 {
      MergeShape(src, Attach(st, p, l), x + 1, y, l, c[j]);
    }
  }

  /** Left cell unset, a cell above set: p takes the root of the last one. */
  lemma AboveShape(g: Grid, src: Image, rule: Rule, st: Scan, x: int, y: int)
    requires Shape(src, st, x, y) && Fg(src, (x, y))
    requires !Fg(src, Causal(g, (x, y))[0]) && LastSet(src, Causal(g, (x, y)), |Causal(g, (x, y))| - 1) > 0
    ensures var c := Causal(g, (x, y)); var j := LastSet(src, c, |c| - 1); var l := Root(st, c[j]);
      var st' := if rule == Corrected then Merge(Attach(st, (x, y), l), l, c[FirstSet(src, c, 1, |c| - 1)])
        else Attach(st, (x, y), l);
      Shape(src, st', x + 1, y) && st'.current == st.current
  {
    var p := (x, y);
    var c := Causal(g, p);
    var j := LastSet(src, c, |c| - 1);
    var l := Root(st, c[j]);
    CausalLabelled(g, src, st, x, y);
    RootIsRoot(st, c[j]);
    AttachShape(src, st, x, y, l);
    if rule == Corrected {
      var i := FirstSet(src, c, 1, |c| - 1);
      assert Fg(src, c[j]);
      MergeShape(src, Attach(st, p, l), x + 1, y, l, c[i]);
    }
  }

  /** A visit labels p and keeps the table well formed. */
  lemma VisitShape(g: Grid, src: Image, rule: Rule, st: Scan, x: int, y: int)
    requires Shape(src, st, x, y) && Fg(src, (x, y))
    ensures Shape(src, Visit(g, src, rule, st, (x, y)), x + 1, y)
    ensures Visit(g, src, rule, st, (x, y)).current <= st.current + 1
  {
    var c := Causal(g, (x, y));
    var j := LastSet(src, c, |c| - 1);
    var v := Visit(g, src, rule, st, (x, y));
    if Fg(src, c[0]) {
      LeftShape(g, src, st, x, y);
      var l := Root(st, c[0]);
      assert v == if j == 0 then Attach(st, (x, y), l) else Merge(Attach(st, (x, y), l), l, c[j]);
    } else if j > 0 {
      AboveShape(g, src, rule, st, x, y);
      var l := Root(st, c[j]);
      assert v == if rule == Corrected then Merge(Attach(st, (x, y), l), l, c[FirstSet(src, c, 1, |c| - 1)])
                 else Attach(st, (x, y), l);
    } else {
      FreshShape(src, st, x, y);
      assert v == Scan(st.prov[(x, y) := st.current], st.root[st.current := st.current], st.current + 1);
    }
  }

  // Soundness: a visit joins only classes that touch p.

  lemma AttachSound(g: Grid, src: Image, st: Scan, x: int, y: int, w: Pos)
    requires Shape(src, st, x, y) && Sound(g, src, st) && Fg(src, (x, y))
    requires w in st.prov && Adjacent(g, w, (x, y))
    ensures Sound(g, src, Attach(st, (x, y), Root(st, w)))
  {
    var p := (x, y);
    var st1 := Attach(st, p, Root(st, w));
    LinkedAdjacent(g, src, w, p);
    forall q, r | q in st1.prov && r in st1.prov && Root(st1, q) == Root(st1, r)
      ensures Linked(g, src, q, r)
    {
      if q == p && r == p {
        LinkedSelf(g, src, p);
      } else if q == p {
        LinkedTransitive(g, src, p, w, r);
      } else if r == p {
        LinkedTransitive(g, src, q, w, p);
      }
    }
  }

  lemma MergeSound(g: Grid, src: Image, st: Scan, l: nat, u: Pos, n: Pos)
    requires Tables(st) && Sound(g, src, st)
    requires u in st.prov && n in st.prov && Root(st, u) == l && Linked(g, src, u, n)
    ensures Sound(g, src, Merge(st, l, n))
  {
    if Prov(st, n) != l {
      var b := Root(st, n);
      var st' := Merge(st, l, n);
      JoinRoots(st, l, b);
      forall q, r | q in st'.prov && r in st'.prov && Root(st', q) == Root(st', r)
        ensures Linked(g, src, q, r)
      {
        if Root(st, q) != Root(st, r) {
          if Root(st, q) == l {
            LinkedTransitive(g, src, q, u, n);
            LinkedTransitive(g, src, q, n, r);
          } else {
            LinkedSymmetric(g, src, u, n);
            LinkedTransitive(g, src, q, n, u);
            LinkedTransitive(g, src, q, u, r);
          }
        }
      }
    }
  }

  lemma FreshSound(g: Grid, src: Image, st: Scan, x: int, y: int)
    requires Shape(src, st, x, y) && Sound(g, src, st) && Fg(src, (x, y))
    ensures Sound(g, src, Scan(st.prov[(x, y) := st.current], st.root[st.current := st.current], st.current + 1))
  {
    var p := (x, y);
    var st' := Scan(st.prov[p := st.current], st.root[st.current := st.current], st.current + 1);
    forall q, r | q in st'.prov && r in st'.prov && Root(st', q) == Root(st', r)
      ensures Linked(g, src, q, r)
    {
      if q == p && r == p {
        LinkedSelf(g, src, p);
      } else if q != p && r != p {
        assert Root(st', q) == Root(st, q) && Root(st', r) == Root(st, r);
      }
    }
  }

  // Completeness: after a visit p shares its root with every labelled
  // neighbour.

  lemma AttachComplete(g: Grid, src: Image, st: Scan, x: int, y: int, l: nat)
    requires Shape(src, st, x, y) && Complete(g, st) && Fg(src, (x, y))
    requires l in st.root && st.root[l] == l
    requires forall r :: r in st.prov && (Adjacent(g, r, (x, y)) || Adjacent(g, (x, y), r)) ==> Root(st, r) == l
    ensures Complete(g, Attach(st, (x, y), l))
  {
  }

  /** Joining class a into class b keeps adjacent cells together when every
      adjacent pair already shared a root or carried the roots a and b. */
  lemma JoinComplete(g: Grid, st: Scan, a: nat, b: nat)
    requires Tables(st)
    requires forall q, r :: q in st.prov && r in st.prov && Adjacent(g, q, r) ==>
      Root(st, q) == Root(st, r) || (Root(st, q) in {a, b} && Root(st, r) in {a, b})
    ensures Complete(g, st.(root := Join(st.root, a, b)))
  {
    JoinRoots(st, a, b);
  }

  lemma AttachMergeComplete(g: Grid, src: Image, st: Scan, x: int, y: int, l: nat, n: Pos)
    requires Shape(src, st, x, y) && Complete(g, st) && Fg(src, (x, y))
    requires l in st.root && st.root[l] == l && n in st.prov
    requires forall r :: r in st.prov && (Adjacent(g, r, (x, y)) || Adjacent(g, (x, y), r)) ==>
      Root(st, r) == l || Root(st, r) == Root(st, n)
    ensures Complete(g, Merge(Attach(st, (x, y), l), l, n))
  {
    var p := (x, y);
    var st1 := Attach(st, p, l);
    AttachShape(src, st, x, y, l);
    if Prov(st1, n) == l {
      AttachComplete(g, src, st, x, y, l);
    } else {
      var b := Root(st, n);
      assert Root(st1, n) == b;
      assert forall q :: q in st1.prov ==> Root(st1, q) == if q == p then l else Root(st, q);
      JoinComplete(g, st1, l, b);
    }
  }

  lemma FreshComplete(g: Grid, src: Image, st: Scan, x: int, y: int)
    requires Shape(src, st, x, y) && Complete(g, st) && Fg(src, (x, y))
    requires forall r :: r in st.prov ==> !Adjacent(g, r, (x, y)) && !Adjacent(g, (x, y), r)
    ensures Complete(g, Scan(st.prov[(x, y) := st.current], st.root[st.current := st.current], st.current + 1))
  {
  }

  // Which roots the labelled neighbours of p carry, branch by branch.

  /** Left cell set: every labelled neighbour shares the root of the left
      cell or of the last set cell above. */
  lemma LeftNeighbours(g: Grid, src: Image, st: Scan, x: int, y: int)
    requires Shape(src, st, x, y) && Complete(g, st)
    requires Fg(src, Causal(g, (x, y))[0])
    ensures var c := Causal(g, (x, y)); var j := LastSet(src, c, |c| - 1);
      forall r :: r in st.prov && (Adjacent(g, r, (x, y)) || Adjacent(g, (x, y), r)) ==>
        Root(st, r) == Root(st, c[0]) || Root(st, r) == Root(st, c[j])
  {
    var p := (x, y);
    var c := Causal(g, p);
    var j := LastSet(src, c, |c| - 1);
    CausalShape(g, p);
    forall r | r in st.prov && (Adjacent(g, r, p) || Adjacent(g, p, r))
      ensures Root(st, r) == Root(st, c[0]) || Root(st, r) == Root(st, c[j])
    {
      var i :| 0 <= i < |c| && c[i] == r;
      if 0 < i && i != j {
        assert i < j && Adjacent(g, c[i], c[0]);
      }
    }
  }

  /** Left cell unset: every labelled neighbour shares the root of the last
      or of the first set cell above. */
  lemma AboveNeighbours(g: Grid, src: Image, st: Scan, x: int, y: int)
    requires Shape(src, st, x, y) && Complete(g, st)
    requires !Fg(src, Causal(g, (x, y))[0])
    ensures var c := Causal(g, (x, y)); var j := LastSet(src, c, |c| - 1); var i := FirstSet(src, c, 1, |c| - 1);
      forall r :: r in st.prov && (Adjacent(g, r, (x, y)) || Adjacent(g, (x, y), r)) ==>
        Root(st, r) == Root(st, c[j]) || Root(st, r) == Root(st, c[i])
  {
    var p := (x, y);
    var c := Causal(g, p);
    var j := LastSet(src, c, |c| - 1);
    var f := FirstSet(src, c, 1, |c| - 1);
    CausalShape(g, p);
    forall r | r in st.prov && (Adjacent(g, r, p) || Adjacent(g, p, r))
      ensures Root(st, r) == Root(st, c[j]) || Root(st, r) == Root(st, c[f])
    {
      var i :| 0 <= i < |c| && c[i] == r;
      if i != j && i != f {
        assert 0 < f < i < j && i + 1 == j && Adjacent(g, c[i], c[i + 1]);
      }
    }
  }

  /** On the hexagonal grid the set cells above touch each other, so they
      share one root already. */
  lemma HexAboveNeighbours(src: Image, st: Scan, x: int, y: int)
    requires Shape(src, st, x, y) && Complete(Hexagonal, st)
    requires !Fg(src, Causal(Hexagonal, (x, y))[0])
    ensures var c := Causal(Hexagonal, (x, y)); var j := LastSet(src, c, |c| - 1);
      forall r :: r in st.prov && (Adjacent(Hexagonal, r, (x, y)) || Adjacent(Hexagonal, (x, y), r)) ==>
        Root(st, r) == Root(st, c[j])
  {
    var p := (x, y);
    var c := Causal(Hexagonal, p);
    var j := LastSet(src, c, |c| - 1);
    CausalShape(Hexagonal, p);
    forall r | r in st.prov && (Adjacent(Hexagonal, r, p) || Adjacent(Hexagonal, p, r))
      ensures Root(st, r) == Root(st, c[j])
    {
      var i :| 0 <= i < |c| && c[i] == r;
      if i != j {
        assert i == 1 && j == 2 && Adjacent(Hexagonal, c[1], c[2]);
      }
    }
  }

  /** Nothing set around p: p has no labelled neighbour. */
  lemma LoneNeighbours(g: Grid, src: Image, st: Scan, x: int, y: int)
    requires Shape(src, st, x, y)
    requires !Fg(src, Causal(g, (x, y))[0]) && LastSet(src, Causal(g, (x, y)), |Causal(g, (x, y))| - 1) == 0
    ensures forall r :: r in st.prov ==> !Adjacent(g, r, (x, y)) && !Adjacent(g, (x, y), r)
  {
    var p := (x, y);
    var c := Causal(g, p);
    CausalShape(g, p);
    forall r | r in st.prov
      ensures r !in c
    {
      forall i | 0 <= i < |c|
        ensures c[i] != r
      {
        assert !Fg(src, c[i]);
      }
    }
  }

  /** Left cell set: p joins the left cell's class, which then joins the
      class of the last set cell above. */
  lemma LeftSound(g: Grid, src: Image, st: Scan, x: int, y: int)
    requires Shape(src, st, x, y) && Sound(g, src, st) && Fg(src, (x, y))
    requires Fg(src, Causal(g, (x, y))[0])
    ensures var c := Causal(g, (x, y)); var j := LastSet(src, c, |c| - 1); var l := Root(st, c[0]);
      Sound(g, src, if j == 0 then Attach(st, (x, y), l) else Merge(Attach(st, (x, y), l), l, c[j]))
  {
    var p := (x, y);
    var c := Causal(g, p);
    var j := LastSet(src, c, |c| - 1);
    var l := Root(st, c[0]);
    CausalLabelled(g, src, st, x, y);
    CausalShape(g, p);
    AttachSound(g, src, st, x, y, c[0]);
    if j > 0 {
      AttachShape(src, st, x, y, l);
      LinkedAdjacent(g, src, p, c[j]);
      MergeSound(g, src, Attach(st, p, l), l, p, c[j]);
    }
  }

  /** Left cell unset: p joins the class of the last set cell above, and
      under the corrected rule that class joins the first set cell's. */
  lemma AboveSound(g: Grid, src: Image, rule: Rule, st: Scan, x: int, y: int)
    requires Shape(src, st, x, y) && Sound(g, src, st) && Fg(src, (x, y))
    requires !Fg(src, Causal(g, (x, y))[0]) && LastSet(src, Causal(g, (x, y)), |Causal(g, (x, y))| - 1) > 0
    ensures var c := Causal(g, (x, y)); var j := LastSet(src, c, |c| - 1); var l := Root(st, c[j]);
      Sound(g, src, if rule == Corrected then Merge(Attach(st, (x, y), l), l, c[FirstSet(src, c, 1, |c| - 1)])
        else Attach(st, (x, y), l))
  {
    var p := (x, y);
    var c := Causal(g, p);
    var j := LastSet(src, c, |c| - 1);
    CausalLabelled(g, src, st, x, y);
    CausalShape(g, p);
    AttachSound(g, src, st, x, y, c[j]);
    if rule == Corrected {
      AboveMergeSound(g, src, st, x, y);
    }
  }

  /** Under the corrected rule the class p joined then joins the first set
      cell's. */
  /** The root of a labelled pixel is a label of the table that resolves to
      itself. */
  lemma RootIsRoot(st: Scan, q: Pos)
    requires Tables(st) && q in st.prov
    ensures Root(st, q) in st.root && st.root[Root(st, q)] == Root(st, q)
  {
    assert st.prov[q] in st.root;
  }

  lemma AboveMergeSound(g: Grid, src: Image, st: Scan, x: int, y: int)
    requires Shape(src, st, x, y) && Fg(src, (x, y))
    requires !Fg(src, Causal(g, (x, y))[0]) && LastSet(src, Causal(g, (x, y)), |Causal(g, (x, y))| - 1) > 0
    requires var c := Causal(g, (x, y)); var j := LastSet(src, c, |c| - 1);
      Sound(g, src, Attach(st, (x, y), Root(st, c[j])))
    ensures var c := Causal(g, (x, y)); var j := LastSet(src, c, |c| - 1); var l := Root(st, c[j]);
      Sound(g, src, Merge(Attach(st, (x, y), l), l, c[FirstSet(src, c, 1, |c| - 1)]))
  {
    var p := (x, y);
    var c := Causal(g, p);
    var j := LastSet(src, c, |c| - 1);
    var l := Root(st, c[j]);
    var i := FirstSet(src, c, 1, |c| - 1);
    CausalLabelled(g, src, st, x, y);
    CausalShape(g, p);
    assert Fg(src, c[j]) && Fg(src, c[i]);
    RootIsRoot(st, c[j]);
    AttachShape(src, st, x, y, l);
    var st1 := Attach(st, p, l);
    assert Tables(st1);
    assert p in st1.prov && c[i] in st1.prov && Root(st1, p) == l;
    JoinNeighbourSound(g, src, st1, l, p, c[i]);
  }

  /** Joining the class of a neighbour keeps the classes connected. */
  lemma JoinNeighbourSound(g: Grid, src: Image, st: Scan, l: nat, p: Pos, n: Pos)
    requires Tables(st) && Sound(g, src, st)
    requires p in st.prov && n in st.prov && Root(st, p) == l
    requires Fg(src, p) && Fg(src, n) && Adjacent(g, p, n)
    ensures Sound(g, src, Merge(st, l, n))
  {
    LinkedAdjacent(g, src, p, n);
    MergeSound(g, src, st, l, p, n);
  }

  /** A visit only joins classes of connected pixels. */
  lemma VisitSound(g: Grid, src: Image, rule: Rule, st: Scan, x: int, y: int)
    requires Shape(src, st, x, y) && Sound(g, src, st) && Fg(src, (x, y))
    ensures Sound(g, src, Visit(g, src, rule, st, (x, y)))
  {
    var c := Causal(g, (x, y));
    if Fg(src, c[0]) {
      LeftSound(g, src, st, x, y);
    } else if LastSet(src, c, |c| - 1) > 0 {
      AboveSound(g, src, rule, st, x, y);
    } else {
      FreshSound(g, src, st, x, y);
    }
  }

  /** Left cell set: p ends in the class of each labelled neighbour. */
  lemma LeftComplete(g: Grid, src: Image, st: Scan, x: int, y: int)
    requires Shape(src, st, x, y) && Complete(g, st) && Fg(src, (x, y))
    requires Fg(src, Causal(g, (x, y))[0])
    ensures var c := Causal(g, (x, y)); var j := LastSet(src, c, |c| - 1); var l := Root(st, c[0]);
      Complete(g, if j == 0 then Attach(st, (x, y), l) else Merge(Attach(st, (x, y), l), l, c[j]))
  {
    var c := Causal(g, (x, y));
    var j := LastSet(src, c, |c| - 1);
    var l := Root(st, c[0]);
    CausalLabelled(g, src, st, x, y);
    LeftNeighbours(g, src, st, x, y);
    if j == 0 {
      AttachComplete(g, src, st, x, y, l);
    } else {
      AttachMergeComplete(g, src, st, x, y, l, c[j]);
    }
  }

  /** Left cell unset, a cell above set: under the corrected rule, or the
      code's rule on the hexagonal grid, p ends in the class of each
      labelled neighbour. */
  lemma AboveComplete(g: Grid, src: Image, rule: Rule, st: Scan, x: int, y: int)
    requires Shape(src, st, x, y) && Complete(g, st) && Fg(src, (x, y))
    requires rule == Corrected || g == Hexagonal
    requires !Fg(src, Causal(g, (x, y))[0]) && LastSet(src, Causal(g, (x, y)), |Causal(g, (x, y))| - 1) > 0
    ensures var c := Causal(g, (x, y)); var j := LastSet(src, c, |c| - 1); var l := Root(st, c[j]);
      Complete(g, if rule == Corrected then Merge(Attach(st, (x, y), l), l, c[FirstSet(src, c, 1, |c| - 1)])
        else Attach(st, (x, y), l))
  {
    var c := Causal(g, (x, y));
    var j := LastSet(src, c, |c| - 1);
    var l := Root(st, c[j]);
    CausalLabelled(g, src, st, x, y);
    if rule == Corrected {
      var i := FirstSet(src, c, 1, |c| - 1);
      assert Fg(src, c[j]);
      AboveNeighbours(g, src, st, x, y);
      AttachMergeComplete(g, src, st, x, y, l, c[i]);
    } else {
      HexAboveNeighbours(src, st, x, y);
      AttachComplete(g, src, st, x, y, l);
    }
  }

  /** A visit under the corrected rule, or under the code's rule on the
      hexagonal grid, leaves p in the class of each labelled neighbour. */
  lemma VisitComplete(g: Grid, src: Image, rule: Rule, st: Scan, x: int, y: int)
    requires Shape(src, st, x, y) && Complete(g, st) && Fg(src, (x, y))
    requires rule == Corrected || g == Hexagonal
    ensures Complete(g, Visit(g, src, rule, st, (x, y)))
  {
    var c := Causal(g, (x, y));
    if Fg(src, c[0]) {
      LeftComplete(g, src, st, x, y);
    } else if LastSet(src, c, |c| - 1) > 0 {
      AboveComplete(g, src, rule, st, x, y);
    } else {
      LoneNeighbours(g, src, st, x, y);
      FreshComplete(g, src, st, x, y);
    }
  }

  // ---------------------------------------------------------------------
  // The whole scan

  /** Moving past one pixel keeps the invariant. */
  lemma NextKeeps(g: Grid, src: Image, rule: Rule, st: Scan, x: int, y: int)
    requires ScanInv(g, src, rule, st, x, y)
    ensures ScanInv(g, src, rule, Next(g, src, rule, st, (x, y)), x + 1, y)
  {
    if Fg(src, (x, y)) {
      VisitShape(g, src, rule, st, x, y);
      VisitSound(g, src, rule, st, x, y);
      if rule == Corrected || g == Hexagonal {
        VisitComplete(g, src, rule, st, x, y);
      }
    }
  }

  /** The end of a line is the start of the next one. */
  lemma LineKeeps(g: Grid, src: Image, rule: Rule, st: Scan, y: int)
    requires ScanInv(g, src, rule, st, src.width, y - 1)
    ensures ScanInv(g, src, rule, st, 0, y)
  {
    assert forall q :: Fg(src, q) ==> (Before(q, src.width, y - 1) <==> Before(q, 0, y));
  }

  /** The invariant holds wherever the scan stands. */
  lemma {:induction false} ScanReach(g: Grid, src: Image, rule: Rule, x: nat, y: nat)
    requires x <= src.width
    ensures ScanInv(g, src, rule, ScanTo(g, src, rule, x, y), x, y)
    decreases y, x
  {
    if x > 0 {
      ScanReach(g, src, rule, x - 1, y);
      NextKeeps(g, src, rule, ScanTo(g, src, rule, x - 1, y), x - 1, y);
    } else if y > 0 {
      ScanReach(g, src, rule, src.width, y - 1);
      LineKeeps(g, src, rule, ScanTo(g, src, rule, src.width, y - 1), y);
    } else {
      StartKeeps(g, src, rule);
    }
  }

  /** Before the first pixel nothing is labelled. */
  lemma StartKeeps(g: Grid, src: Image, rule: Rule)
    ensures ScanInv(g, src, rule, ScanTo(g, src, rule, 0, 0), 0, 0)
  {
  }

  /** The scan state once every pixel is visited. */
  function Scanned(g: Grid, src: Image, rule: Rule): Scan
  {
    ScanTo(g, src, rule, 0, src.height)
  }

  /** Labels along a path of set pixels all resolve to one root. */
  lemma {:induction false} PathRoot(g: Grid, src: Image, st: Scan, ps: seq<Pos>, k: nat)
    requires IsPath(g, src, ps) && k < |ps| && Complete(g, st)
    requires forall q :: Fg(src, q) ==> q in st.prov
    ensures Root(st, ps[k]) == Root(st, ps[0])
  {
    if k > 0 {
      PathRoot(g, src, st, ps, k - 1);
      assert Adjacent(g, ps[k - 1], ps[k]);
    }
  }

  /** Once the scan is over, every set pixel is labelled, and under the
      corrected rule (or the code's rule on the hexagonal grid) two set
      pixels' labels resolve to one root exactly when the pixels are
      connected. */
  lemma ScanCorrect(g: Grid, src: Image, rule: Rule)
    ensures var st := Scanned(g, src, rule);
      Tables(st) && (forall q :: q in st.prov <==> Fg(src, q))
    ensures rule == Corrected || g == Hexagonal ==> var st := Scanned(g, src, rule);
      forall p, q :: p in st.prov && q in st.prov ==> (Root(st, p) == Root(st, q) <==> Linked(g, src, p, q))
  {
    var st := Scanned(g, src, rule);
    ScanReach(g, src, rule, 0, src.height);
    if rule == Corrected || g == Hexagonal {
      forall p, q | p in st.prov && q in st.prov && Linked(g, src, p, q)
        ensures Root(st, p) == Root(st, q)
      {
        var ps :| IsPath(g, src, ps) && ps[0] == p && ps[|ps| - 1] == q;
        PathRoot(g, src, st, ps, |ps| - 1);
      }
    }
  }

  /** The scan opens at most one label per pixel: labels.current never
      exceeds width * height + 1. */
  lemma ScanLabels(g: Grid, src: Image, rule: Rule)
    ensures Scanned(g, src, rule).current <= src.width * src.height + 1
  {
    ScanReach(g, src, rule, 0, src.height);
  }

  /** A run of unset pixels leaves the scan state as it is. */
  lemma {:induction false} ScanSkip(g: Grid, src: Image, rule: Rule, a: nat, b: nat, y: nat)
    requires a <= b
    requires forall x :: a <= x < b ==> !Fg(src, (x, y))
    ensures ScanTo(g, src, rule, b, y) == ScanTo(g, src, rule, a, y)
    decreases b - a
  {
    if b > a {
      ScanSkip(g, src, rule, a, b - 1, y);
    }
  }

  // ---------------------------------------------------------------------
  // Two defects of the code

  /** A 64 x 2 binary image holding a V: (0, 0) and (2, 0) on the first
      line, (1, 1) between them on the second. */
  function VShape(): (im: Image)
    ensures im.width == 64 && im.height == 2
    ensures forall p :: Fg(im, p) <==> p == (0, 0) || p == (2, 0) || p == (1, 1)
  {
    Make(64, 2, 1, (x, y) => if (x, y) == (0, 0) || (x, y) == (2, 0) || (x, y) == (1, 1) then 1 else 0)
  }

  /** The first arm of the V opens label 1. */
  lemma VShapeFirst()
    ensures ScanTo(Square, VShape(), AsWritten, 1, 0) == Scan(map[(0, 0) := 1], map[1 := 1], 2)
  {
    var src := VShape();
    var c := Causal(Square, (0, 0));
    assert !Fg(src, c[0]) && LastSet(src, c, 3) == 0;
  }

  /** The second arm opens label 2. */
  lemma VShapeSecond()
    ensures ScanTo(Square, VShape(), AsWritten, 3, 0) == Scan(map[(0, 0) := 1, (2, 0) := 2], map[1 := 1, 2 := 2], 3)
  {
    var src := VShape();
    VShapeFirst();
    assert ScanTo(Square, src, AsWritten, 2, 0) == ScanTo(Square, src, AsWritten, 1, 0);
    var c := Causal(Square, (2, 0));
    assert !Fg(src, c[0]) && LastSet(src, c, 3) == 0;
  }

  /** With the left cell unset and a cell above set, the code's rule
      copies the root of the last set cell above and joins nothing. */
  lemma VisitAbove(g: Grid, src: Image, st: Scan, p: Pos)
    requires !Fg(src, Causal(g, p)[0]) && LastSet(src, Causal(g, p), |Causal(g, p)| - 1) > 0
    ensures Visit(g, src, AsWritten, st, p)
      == Attach(st, p, Root(st, Causal(g, p)[LastSet(src, Causal(g, p), |Causal(g, p)| - 1)]))
  {
  }

  /** The rest of the first line is empty. */
  lemma VShapeLine()
    ensures ScanTo(Square, VShape(), AsWritten, 0, 1) == Scan(map[(0, 0) := 1, (2, 0) := 2], map[1 := 1, 2 := 2], 3)
  {
    VShapeSecond();
    ScanSkip(Square, VShape(), AsWritten, 3, 64, 0);
  }

  /** The pixel between the arms sees state 10 and takes label 2 alone. */
  lemma VShapeJoint()
    ensures ScanTo(Square, VShape(), AsWritten, 2, 1)
      == Scan(map[(0, 0) := 1, (2, 0) := 2, (1, 1) := 2], map[1 := 1, 2 := 2], 3)
  {
    VShapeBlank();
    VShapeState10(Scan(map[(0, 0) := 1, (2, 0) := 2], map[1 := 1, 2 := 2], 3));
  }

  /** The first pixel of the second line is unset. */
  lemma VShapeBlank()
    ensures ScanTo(Square, VShape(), AsWritten, 1, 1) == Scan(map[(0, 0) := 1, (2, 0) := 2], map[1 := 1, 2 := 2], 3)
  {
    VShapeLine();
    assert !Fg(VShape(), (0, 1));
  }

  /** State 10 at (1, 1). */
  lemma VShapeState10(st: Scan)
    requires st == Scan(map[(0, 0) := 1, (2, 0) := 2], map[1 := 1, 2 := 2], 3)
    ensures Visit(Square, VShape(), AsWritten, st, (1, 1)) == Attach(st, (1, 1), 2)
  {
    var src := VShape();
    var c := Causal(Square, (1, 1));
    assert c[3] == (2, 0) && !Fg(src, c[0]) && Fg(src, c[3]);
    VisitAbove(Square, src, st, (1, 1));
  }

  /** The V is one 8-connected object. */
  lemma VShapeConnected()
    ensures Linked(Square, VShape(), (0, 0), (2, 0))
  {
    var src := VShape();
    assert Fg(src, (0, 0)) && Fg(src, (1, 1)) && Fg(src, (2, 0));
    LinkedAdjacent(Square, src, (0, 0), (1, 1));
    LinkedAdjacent(Square, src, (1, 1), (2, 0));
    LinkedTransitive(Square, src, (0, 0), (1, 1), (2, 0));
  }

  /** The square line labeler's state 10 (upper-left and upper-right set,
      left and up unset) takes the upper-right label and records no
      equivalence: the V is one 8-connected object, yet its two arms keep
      different roots. */
  lemma VShapeSplits()
    ensures var st := Scanned(Square, VShape(), AsWritten);
      (0, 0) in st.prov && (2, 0) in st.prov && Root(st, (0, 0)) != Root(st, (2, 0))
    ensures Linked(Square, VShape(), (0, 0), (2, 0))
  {
    var st := Scan(map[(0, 0) := 1, (2, 0) := 2, (1, 1) := 2], map[1 := 1, 2 := 2], 3);
    VShapeEnd();
    assert Root(st, (0, 0)) == 1 && Root(st, (2, 0)) == 2;
    VShapeConnected();
  }

  /** The rest of the second line is empty. */
  lemma VShapeEnd()
    ensures Scanned(Square, VShape(), AsWritten)
      == Scan(map[(0, 0) := 1, (2, 0) := 2, (1, 1) := 2], map[1 := 1, 2 := 2], 3)
  {
    var src := VShape();
    VShapeJoint();
    assert forall x :: 2 <= x < 64 ==> !Fg(src, (x, 1));
    ScanSkip(Square, src, AsWritten, 2, 64, 1);
    assert Scanned(Square, src, AsWritten) == ScanTo(Square, src, AsWritten, 64, 1);
  }

  /** The size of the equivalence tables MB_Labelb allocates: a quarter of
      the pixel count. */
  function MaxEQ(w: nat, h: nat): (n: nat)
    ensures 4 * n <= w * h < 4 * n + 4
  {
    (w * h) / 4
  }

  /** A 64 x 2 binary image whose first line holds a dot at every even x. */
  function DotRow(): (im: Image)
    ensures im.width == 64 && im.height == 2
    ensures forall p :: Fg(im, p) <==> p.1 == 0 && 0 <= p.0 < 64 && p.0 % 2 == 0
  {
    Make(64, 2, 1, (x, y) => if y == 0 && x % 2 == 0 then 1 else 0)
  }

  /** A set pixel with no set cell around it opens a new label. */
  lemma VisitLone(g: Grid, src: Image, rule: Rule, st: Scan, p: Pos)
    requires !Fg(src, Causal(g, p)[0]) && LastSet(src, Causal(g, p), |Causal(g, p)| - 1) == 0
    ensures Visit(g, src, rule, st, p).current == st.current + 1
  {
  }

  /** On the first line the cells above are outside the image. */
  lemma FirstLineAbove(g: Grid, src: Image, x: int)
    ensures LastSet(src, Causal(g, (x, 0)), |Causal(g, (x, 0))| - 1) == 0
  {
    var c := Causal(g, (x, 0));
    assert forall i :: 1 <= i < |c| ==> c[i].1 == -1;
  }

  /** One more pixel of the dot row: a dot opens a label. */
  lemma DotRowStep(g: Grid, rule: Rule, x: nat)
    requires 0 < x <= 64
    ensures ScanTo(g, DotRow(), rule, x, 0).current
      == ScanTo(g, DotRow(), rule, x - 1, 0).current + (if (x - 1) % 2 == 0 then 1 else 0)
  {
    var src := DotRow();
    var p := (x - 1, 0);
    if (x - 1) % 2 == 0 {
      assert Causal(g, p)[0] == (x - 2, 0);
      assert !Fg(src, (x - 2, 0));
      FirstLineAbove(g, src, x - 1);
      VisitLone(g, src, rule, ScanTo(g, src, rule, x - 1, 0), p);
    }
  }

  /** Every dot of the row opens a label of its own. */
  lemma {:induction false} DotRowLabels(g: Grid, rule: Rule, x: nat)
    requires x <= 64
    ensures ScanTo(g, DotRow(), rule, x, 0).current == (x + 1) / 2 + 1
  {
    if x > 0 {
      DotRowLabels(g, rule, x - 1);
      DotRowStep(g, rule, x);
    }
  }

  /** The dot row opens labels 1 .. 32, so the code writes EQ[32] and
      CEQ[32] into tables of MaxEQ(64, 2) = 32 entries, past their end. */
  lemma DotRowOverflows(g: Grid, rule: Rule)
    ensures Scanned(g, DotRow(), rule).current - 1 >= MaxEQ(64, 2)
  {
    DotRowLabels(g, rule, 64);
    ScanSkip(g, DotRow(), rule, 0, 64, 1);
  }

  /** Tables of width * height + 1 entries hold every label the scan opens
      (labels.current is at most that), on any image, grid and rule. */
  function LabelCapacity(w: nat, h: nat): (n: nat)
    ensures n > w * h
  {
    w * h + 1
  }

  /** Every label the scan opens indexes tables of LabelCapacity entries. */
  lemma CapacitySuffices(g: Grid, src: Image, rule: Rule)
    ensures Scanned(g, src, rule).current <= LabelCapacity(src.width, src.height)
  {
    ScanLabels(g, src, rule);
  }
}
