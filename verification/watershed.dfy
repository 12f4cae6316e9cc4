// MB_Watershed: watershed segmentation of an 8-bit image by flooding from
// labelled markers with a hierarchical queue.  The 32-bit marker image holds
// a label in its low 24 bits and a status in its top byte; the model keeps
// the two apart in a Cell per pixel and assembles the words at the end.
// The token array of the C code is replaced by one sequence per level, and
// the reinsert list by a sequence built while the neighbours are inspected.
//
// The invariants here are large conjunctions.  Where one of them is a
// premise, it is written `Inv(...) == true`: the verifier then keeps it as
// one fact and expands it only when a step needs one of its conjuncts,
// which keeps the proofs of the flooding steps within the solver's budget.

module Watershed {
  import opened Common
  import opened Images
  import opened Directions
  import opened HierQueue

  // ---------------------------------------------------------------------
  // Status encoding in the top byte of the marker words

  const CANDIDATE: nat := 0x0100_0000
  const QUEUED: nat := 0x0200_0000
  const RG_LAB: nat := 0
  const WTS_LAB: nat := 0xFF00_0000

  /** One more than the largest label: labels live in the low 24 bits. */
  const LabelBound: nat := 0x100_0000

  datatype Status = Candidate | Queued | RgLab | WtsLab

  /** The top-byte value of a status. */
  function Code(st: Status): (c: nat)
    ensures c % LabelBound == 0 && c <= WTS_LAB
  {
    match st
    case Candidate => CANDIDATE
    case Queued => QUEUED
    case RgLab => RG_LAB
    case WtsLab => WTS_LAB
  }

  /** The four codes are distinct. */
  lemma CodeInjective(a: Status, b: Status)
    requires Code(a) == Code(b)
    ensures a == b
  {
  }

  /** READ_LABEL: the low 24 bits of a word. */
  function ReadLabel(v: nat): (l: nat)
    ensures l < LabelBound
  {
    v % LabelBound
  }

  /** The top byte of a word in place, (v & 0xFF000000) for a 32-bit v:
      what IS_PIXEL compares with a status. */
  function StatusBits(v: nat): nat
  {
    v - v % LabelBound
  }

  /** SET_STATUS: the label kept, the status byte replaced. */
  function SetStatus(v: nat, st: Status): nat
  {
    ReadLabel(v) + Code(st)
  }

  /** A pixel's cell: its status and its label. */
  datatype Cell = Cell(status: Status, lab: nat)

  /** The 32-bit marker word of a cell. */
  function Word(c: Cell): nat
  {
    Code(c.status) + c.lab
  }

  /** A word assembled from a cell reads back as that cell, and it is a
      32-bit value. */
  lemma WordReads(c: Cell)
    requires c.lab < LabelBound
    ensures ReadLabel(Word(c)) == c.lab && StatusBits(Word(c)) == Code(c.status)
    ensures Word(c) < 0x1_0000_0000
  {
    var k := Code(c.status) / LabelBound;
    assert Code(c.status) == k * LabelBound;
    assert Word(c) == k * LabelBound + c.lab;
  }

  /** SET_STATUS keeps the label and installs the status. */
  lemma SetStatusReads(v: nat, st: Status)
    ensures ReadLabel(SetStatus(v, st)) == ReadLabel(v)
    ensures StatusBits(SetStatus(v, st)) == Code(st)
    ensures SetStatus(v, st) == Word(Cell(st, ReadLabel(v)))
  {
    WordReads(Cell(st, ReadLabel(v)));
  }

  // ---------------------------------------------------------------------
  // Flooding state

  /** The cells of all pixels and the 256 lists of the hierarchical queue. */
  datatype State = State(cells: map<Pos, Cell>, q: seq<seq<Pos>>)

  predicate Has(s: State, p: Pos, st: Status)
  {
    p in s.cells && s.cells[p].status == st
  }

  /** Pixels whose marker label is not 0: the seeds of the flooding. */
  predicate Seed(marker: Image, p: Pos)
  {
    ReadLabel(At(marker, p)) != 0
  }

  /** The labels present in the marker (0 included when some pixel is not a
      seed). */
  function SeedLabels(marker: Image): (r: set<nat>)
    ensures forall x, y :: Inside(marker, x, y) ==> ReadLabel(Get(marker, x, y)) in r
  {
    set x, y | 0 <= x < marker.width && 0 <= y < marker.height :: ReadLabel(Get(marker, x, y))
  }

  /** An 8-bit image read as levels of the queue. */
  ghost predicate Levels(src: Image)
  {
    forall p :: InsideP(src, p) ==> At(src, p) < 256
  }

  /** The cells cover exactly the pixels and the queue has its 256 lists. */
  ghost predicate Frame(src: Image, s: State)
  {
    |s.q| == 256 && Levels(src) &&
    (forall p :: p in s.cells <==> InsideP(src, p))
  }

  /** Labels come from the marker: every label is one of its labels, a seed
      keeps its own, a CANDIDATE has none, and a pixel flooded into a basin
      has one. */
  ghost predicate Labelled(marker: Image, s: State)
  {
    forall p :: p in s.cells ==>
      s.cells[p].lab in SeedLabels(marker) &&
      (Seed(marker, p) ==> s.cells[p].lab == ReadLabel(At(marker, p))) &&
      (s.cells[p].status == Candidate ==> s.cells[p].lab == 0) &&
      (s.cells[p].status == RgLab ==> s.cells[p].lab != 0)
  }

  /** A queued pixel without a label of its own was queued by a basin pixel
      next to it. */
  ghost predicate Witnessed(g: Grid, s: State)
  {
    forall p :: Has(s, p, Queued) && s.cells[p].lab == 0 ==>
      exists e :: 1 <= e <= Neighbors(g) && Has(s, Step(g, e, p), RgLab)
  }

  /** No two neighbouring basin pixels carry different labels. */
  ghost predicate Separated(g: Grid, s: State)
  {
    forall p, d :: Has(s, p, RgLab) && 1 <= d <= Neighbors(g) && Has(s, Step(g, d, p), RgLab) ==>
      s.cells[Step(g, d, p)].lab == s.cells[p].lab
  }

  /** A watershed pixel carries a label and touches a basin pixel with
      another label. */
  ghost predicate Walled(g: Grid, s: State)
  {
    forall p :: Has(s, p, WtsLab) ==>
      s.cells[p].lab != 0 &&
      exists e :: 1 <= e <= Neighbors(g) && Has(s, Step(g, e, p), RgLab) && s.cells[Step(g, e, p)].lab != s.cells[p].lab
  }

  /** No CANDIDATE has a basin pixel among its neighbours: a pixel that
      joins a basin queues its CANDIDATE neighbours. */
  ghost predicate Enclosed(g: Grid, s: State)
  {
    forall p, d :: Has(s, p, Candidate) && 1 <= d <= Neighbors(g) ==> !Has(s, Step(g, d, p), RgLab)
  }

  /** (l, k) is a slot of the lists. */
  predicate Slot(q: seq<seq<Pos>>, l: int, k: int)
  {
    0 <= l < |q| && 0 <= k < |q[l]|
  }

  /** Slot (l, k) is still to be read when the flooding is at token i of
      level `level`. */
  predicate Ahead(level: int, i: int, l: int, k: int)
  {
    level < l || (l == level && i <= k)
  }

  /** pos gives the slot of every token, so no pixel is queued twice; the
      tokens still to be read are exactly the QUEUED pixels, and the tokens
      already read are pixels that were flooded. */
  ghost predicate Slots(s: State, pos: map<Pos, (int, int)>, level: int, i: int)
  {
    (forall l, k :: Slot(s.q, l, k) ==>
      s.q[l][k] in s.cells && s.cells[s.q[l][k]].status != Candidate &&
      s.q[l][k] in pos && pos[s.q[l][k]] == (l, k) &&
      (s.cells[s.q[l][k]].status == Queued <==> Ahead(level, i, l, k))) &&
    (forall p :: Has(s, p, Queued) ==> p in pos && Slot(s.q, pos[p].0, pos[p].1) && s.q[pos[p].0][pos[p].1] == p)
  }

  /** The token in the slot being read is still QUEUED. */
  lemma Current(s: State, pos: map<Pos, (int, int)>, level: int, i: int)
    requires Slots(s, pos, level, i) == true && Slot(s.q, level, i)
    ensures Has(s, s.q[level][i], Queued)
  {
    assert Ahead(level, i, level, i);
  }

  /** No token waits in a list below its own level, seeds aside (they all
      start in the list of level 0). */
  ghost predicate NotBelow(src: Image, marker: Image, q: seq<seq<Pos>>)
  {
    forall l, k :: Slot(q, l, k) ==> At(src, q[l][k]) <= l || (l == 0 && Seed(marker, q[l][k]))
  }

  /** The invariant of the flooding at token i of level `level`. */
  ghost predicate Inv(src: Image, marker: Image, g: Grid, s: State, pos: map<Pos, (int, int)>, level: int, i: int)
  {
    Frame(src, s) && Labelled(marker, s) && Witnessed(g, s) && Separated(g, s) && Walled(g, s) &&
    Slots(s, pos, level, i) && NotBelow(src, marker, s.q)
  }

  /** The pixels not yet reached by the flooding. */
  ghost function Cands(s: State): set<Pos>
  {
    set p | p in s.cells && s.cells[p].status == Candidate
  }

  lemma Whole<T>(s: seq<T>)
    ensures s[..|s|] == s
  {
  }

  // ---------------------------------------------------------------------
  // Inspecting the neighbours of a processed pixel

  /** What the loop of MB_InsertNeighbors_square/_hexagonal has established
      about the processed pixel p after the directions below d: cp is its
      cell (c before processing), `first` the direction whose basin label it
      took and `clash` the direction that put it on the watershed line. */
  ghost predicate LabelScan(g: Grid, s: State, p: Pos, c: Cell, cp: Cell, first: int, clash: int, d: int)
  {
    1 <= d <= Neighbors(g) + 1 &&
    (cp.status == RgLab || cp.status == WtsLab) &&
    (c.lab != 0 ==> cp.lab == c.lab) &&
    (cp.lab == 0 ==> cp.status == RgLab && forall e :: 1 <= e < d ==> !Has(s, Step(g, e, p), RgLab)) &&
    (c.lab == 0 && cp.lab != 0 ==>
      1 <= first < d && Has(s, Step(g, first, p), RgLab) && s.cells[Step(g, first, p)].lab == cp.lab &&
      forall e :: 1 <= e < first ==> !Has(s, Step(g, e, p), RgLab)) &&
    (cp.status == WtsLab ==>
      1 <= clash < d && Has(s, Step(g, clash, p), RgLab) && s.cells[Step(g, clash, p)].lab != cp.lab) &&
    (cp.status == RgLab ==>
      forall e :: 1 <= e < d && Has(s, Step(g, e, p), RgLab) ==> s.cells[Step(g, e, p)].lab == cp.lab)
  }

  /** The reinsert list after the directions below d: the CANDIDATE
      neighbours, in direction order (dirs holds their directions). */
  ghost predicate CandScan(g: Grid, s: State, p: Pos, re: seq<Pos>, dirs: seq<int>, d: int)
  {
    |re| == |dirs| &&
    (forall k :: 0 <= k < |re| ==> 1 <= dirs[k] < d && re[k] == Step(g, dirs[k], p) && Has(s, re[k], Candidate)) &&
    (forall a, b :: 0 <= a < b < |dirs| ==> dirs[a] < dirs[b]) &&
    (forall e :: 1 <= e < d && Has(s, Step(g, e, p), Candidate) ==> Step(g, e, p) in re)
  }

  /** The effect of a basin (RG_LAB) neighbour with cell cn on the processed
      pixel's cell: its label is taken if the pixel has none yet, and a
      different label puts the pixel on the watershed line. */
  function Absorb(cp: Cell, cn: Cell): (r: Cell)
  {
    if cp.lab == 0 then cp.(lab := cn.lab)
    else if cp.lab != cn.lab then cp.(status := WtsLab)
    else cp
  }

  lemma LabelSkip(g: Grid, s: State, p: Pos, c: Cell, cp: Cell, first: int, clash: int, d: int)
    requires LabelScan(g, s, p, c, cp, first, clash, d) && d <= Neighbors(g)
    requires !Has(s, Step(g, d, p), RgLab)
    ensures LabelScan(g, s, p, c, cp, first, clash, d + 1)
  {
  }

  lemma LabelBasin(g: Grid, s: State, p: Pos, c: Cell, cp: Cell, first: int, clash: int, d: int)
    requires LabelScan(g, s, p, c, cp, first, clash, d) && d <= Neighbors(g)
    requires Has(s, Step(g, d, p), RgLab)
    requires s.cells[Step(g, d, p)].lab != 0
    ensures LabelScan(g, s, p, c, Absorb(cp, s.cells[Step(g, d, p)]),
                      if cp.lab == 0 then d else first,
                      if cp.lab != 0 && cp.lab != s.cells[Step(g, d, p)].lab then d else clash, d + 1)
  {
  }

  lemma CandSkip(g: Grid, s: State, p: Pos, re: seq<Pos>, dirs: seq<int>, d: int)
    requires CandScan(g, s, p, re, dirs, d)
    requires !Has(s, Step(g, d, p), Candidate)
    ensures CandScan(g, s, p, re, dirs, d + 1)
  {
  }

  lemma CandAdd(g: Grid, s: State, p: Pos, re: seq<Pos>, dirs: seq<int>, d: int)
    requires CandScan(g, s, p, re, dirs, d) && 1 <= d
    requires Has(s, Step(g, d, p), Candidate)
    ensures CandScan(g, s, p, re + [Step(g, d, p)], dirs + [d], d + 1)
  {
  }

  /** Both halves of the inspection state. */
  ghost predicate Scanned(g: Grid, s: State, p: Pos, c: Cell, cp: Cell, re: seq<Pos>, dirs: seq<int>, first: int, clash: int, d: int)
  {
    LabelScan(g, s, p, c, cp, first, clash, d) && CandScan(g, s, p, re, dirs, d)
  }

  /** The effect of the neighbour in direction d on the processed pixel's
      cell and on the reinsert list: a CANDIDATE neighbour is appended to the
      list, a basin neighbour is absorbed, any other one is skipped, and so
      is a direction leading out of the image. */
  function Look(src: Image, g: Grid, s: State, p: Pos, d: int, cp: Cell, re: seq<Pos>): (r: (Cell, seq<Pos>))
    requires Frame(src, s)
    ensures r.0.status == cp.status || r.0.status == WtsLab
    ensures |r.1| == |re| || r.1 == re + [Step(g, d, p)]
  {
    var n := Step(g, d, p);
    if InsideP(src, n) && s.cells[n].status == Candidate then (cp, re + [n])
    else if InsideP(src, n) && s.cells[n].status == RgLab then (Absorb(cp, s.cells[n]), re)
    else (cp, re)
  }

  /** The ghost side of Look: the directions of the reinsert list, the
      direction whose label was taken and the one that caused a clash. */
  ghost function Witnesses(src: Image, g: Grid, s: State, p: Pos, d: int, cp: Cell, dirs: seq<int>, first: int, clash: int): (seq<int>, int, int)
    requires Frame(src, s)
  {
    var n := Step(g, d, p);
    if InsideP(src, n) && s.cells[n].status == Candidate then (dirs + [d], first, clash)
    else if InsideP(src, n) && s.cells[n].status == RgLab then
      (dirs, if cp.lab == 0 then d else first, if cp.lab != 0 && cp.lab != s.cells[n].lab then d else clash)
    else (dirs, first, clash)
  }

  /** One direction inspected: the loop body keeps the inspection state. */
  lemma ScanStep(src: Image, g: Grid, s: State, p: Pos, c: Cell,
                 cp: Cell, re: seq<Pos>, dirs: seq<int>, first: int, clash: int, d: int)
    requires Frame(src, s) && Scanned(g, s, p, c, cp, re, dirs, first, clash, d) == true && d <= Neighbors(g)
    requires forall n :: Has(s, n, RgLab) ==> s.cells[n].lab != 0
    ensures var (cp', re') := Look(src, g, s, p, d, cp, re);
      var (dirs', first', clash') := Witnesses(src, g, s, p, d, cp, dirs, first, clash);
      Scanned(g, s, p, c, cp', re', dirs', first', clash', d + 1)
  {
    var n := Step(g, d, p);
    if InsideP(src, n) && s.cells[n].status == Candidate {
      CandAdd(g, s, p, re, dirs, d);
      LabelSkip(g, s, p, c, cp, first, clash, d);
    } else if InsideP(src, n) && s.cells[n].status == RgLab {
      CandSkip(g, s, p, re, dirs, d);
      LabelBasin(g, s, p, c, cp, first, clash, d);
    } else {
      CandSkip(g, s, p, re, dirs, d);
      LabelSkip(g, s, p, c, cp, first, clash, d);
    }
  }

  /** The loop over the directions in MB_InsertNeighbors_square/_hexagonal:
      the label of the first basin neighbour is taken, a later basin
      neighbour with another label puts the pixel on the watershed line, and
      the CANDIDATE neighbours go, in direction order, to the reinsert list.
      QUEUED and watershed neighbours are ignored. */
  method Inspect(src: Image, g: Grid, s: State, p: Pos) returns (cp: Cell, re: seq<Pos>, ghost dirs: seq<int>)
    requires Frame(src, s) && InsideP(src, p)
    requires forall n :: Has(s, n, RgLab) ==> s.cells[n].lab != 0
    ensures cp.status == RgLab || cp.status == WtsLab
    ensures s.cells[p].lab != 0 ==> cp.lab == s.cells[p].lab
    ensures cp.lab == 0 <==> s.cells[p].lab == 0 && forall e :: 1 <= e <= Neighbors(g) ==> !Has(s, Step(g, e, p), RgLab)
    ensures s.cells[p].lab == 0 && cp.lab != 0 ==>
      exists f :: 1 <= f <= Neighbors(g) && Has(s, Step(g, f, p), RgLab) && s.cells[Step(g, f, p)].lab == cp.lab &&
        forall e :: 1 <= e < f ==> !Has(s, Step(g, e, p), RgLab)
    ensures cp.status == WtsLab <==>
      exists e :: 1 <= e <= Neighbors(g) && Has(s, Step(g, e, p), RgLab) && s.cells[Step(g, e, p)].lab != cp.lab
    ensures CandScan(g, s, p, re, dirs, Neighbors(g) + 1)
  {
    var c := s.cells[p];
    cp := Cell(RgLab, c.lab);
    re, dirs := [], [];
    ghost var first, clash := 0, 0;
    var d := 1;
    while d <= Neighbors(g)
      invariant Scanned(g, s, p, c, cp, re, dirs, first, clash, d) == true
    {
      ScanStep(src, g, s, p, c, cp, re, dirs, first, clash, d);
      ghost var w := Witnesses(src, g, s, p, d, cp, dirs, first, clash);
      var (cp', re') := Look(src, g, s, p, d, cp, re);
      dirs, first, clash := w.0, w.1, w.2;
      cp, re, d := cp', re', d + 1;
    }
    ScanDone(g, s, p, c, cp, first, clash);
  }

  /** The label part of the inspection, once every direction is done. */
  lemma ScanDone(g: Grid, s: State, p: Pos, c: Cell, cp: Cell, first: int, clash: int)
    requires LabelScan(g, s, p, c, cp, first, clash, Neighbors(g) + 1) == true
    requires forall n :: Has(s, n, RgLab) ==> s.cells[n].lab != 0
    ensures cp.lab == 0 <==> c.lab == 0 && forall e :: 1 <= e <= Neighbors(g) ==> !Has(s, Step(g, e, p), RgLab)
    ensures c.lab == 0 && cp.lab != 0 ==>
      exists f :: 1 <= f <= Neighbors(g) && Has(s, Step(g, f, p), RgLab) && s.cells[Step(g, f, p)].lab == cp.lab &&
        forall e :: 1 <= e < f ==> !Has(s, Step(g, e, p), RgLab)
    ensures cp.status == WtsLab <==>
      exists e :: 1 <= e <= Neighbors(g) && Has(s, Step(g, e, p), RgLab) && s.cells[Step(g, e, p)].lab != cp.lab
  {
    if c.lab == 0 && cp.lab != 0 {
      assert Has(s, Step(g, first, p), RgLab);
    }
    if cp.status == WtsLab {
      assert Has(s, Step(g, clash, p), RgLab);
    }
  }

  // ---------------------------------------------------------------------
  // Processing one token

  /** What the inspection decided about the processed pixel p, whose cell
      in s is c and becomes cp. */
  ghost predicate Decided(g: Grid, s: State, p: Pos, cp: Cell)
    requires p in s.cells
  {
    var c := s.cells[p];
    (cp.status == RgLab || cp.status == WtsLab) &&
    (c.lab != 0 ==> cp.lab == c.lab) &&
    (cp.lab == 0 ==> forall e :: 1 <= e <= Neighbors(g) ==> !Has(s, Step(g, e, p), RgLab)) &&
    (c.lab == 0 && cp.lab != 0 ==>
      exists f :: 1 <= f <= Neighbors(g) && Has(s, Step(g, f, p), RgLab) && s.cells[Step(g, f, p)].lab == cp.lab) &&
    (cp.status == WtsLab <==>
      exists e :: 1 <= e <= Neighbors(g) && Has(s, Step(g, e, p), RgLab) && s.cells[Step(g, e, p)].lab != cp.lab)
  }

  /** The inspection, its outcome summed up as a decision. */
  method Decide(src: Image, g: Grid, s: State, p: Pos) returns (cp: Cell, re: seq<Pos>, ghost dirs: seq<int>)
    requires Frame(src, s) && InsideP(src, p)
    requires forall n :: Has(s, n, RgLab) ==> s.cells[n].lab != 0
    ensures p in s.cells && Decided(g, s, p, cp) == true
    ensures CandScan(g, s, p, re, dirs, Neighbors(g) + 1) == true
  {
    cp, re, dirs := Inspect(src, g, s, p);
  }

  /** The processed pixel's cell replaced by its decided cell. */
  function Mark(s: State, p: Pos, cp: Cell): (r: State)
  {
    s.(cells := s.cells[p := cp])
  }

  lemma MarkLabelled(marker: Image, g: Grid, s: State, p: Pos, cp: Cell)
    requires Labelled(marker, s) && Witnessed(g, s) && Has(s, p, Queued) && Decided(g, s, p, cp)
    ensures Labelled(marker, Mark(s, p, cp))
  {
    var c := s.cells[p];
    var s' := Mark(s, p, cp);
    assert cp.lab in SeedLabels(marker) by {
      if c.lab == 0 && cp.lab != 0 {
        var f :| 1 <= f <= Neighbors(g) && Has(s, Step(g, f, p), RgLab) && s.cells[Step(g, f, p)].lab == cp.lab;
      }
    }
    if cp.lab == 0 {
      // p was queued without a label, so a basin neighbour queued it
      assert false;
    }
    forall n | n in s'.cells
      ensures s'.cells[n].lab in SeedLabels(marker)
      ensures Seed(marker, n) ==> s'.cells[n].lab == ReadLabel(At(marker, n))
      ensures s'.cells[n].status == Candidate ==> s'.cells[n].lab == 0
      ensures s'.cells[n].status == RgLab ==> s'.cells[n].lab != 0
    {
    }
  }

  lemma MarkWitnessed(g: Grid, s: State, p: Pos, cp: Cell)
    requires Witnessed(g, s) && Has(s, p, Queued) && cp.status != Queued
    ensures Witnessed(g, Mark(s, p, cp))
  {
    var s' := Mark(s, p, cp);
    forall n | Has(s', n, Queued) && s'.cells[n].lab == 0
      ensures exists e :: 1 <= e <= Neighbors(g) && Has(s', Step(g, e, n), RgLab)
    {
      var e :| 1 <= e <= Neighbors(g) && Has(s, Step(g, e, n), RgLab);
      assert Has(s', Step(g, e, n), RgLab);
    }
  }

  lemma MarkSeparated(g: Grid, s: State, p: Pos, cp: Cell)
    requires Separated(g, s) && Has(s, p, Queued) && Decided(g, s, p, cp)
    ensures Separated(g, Mark(s, p, cp))
  {
    var s' := Mark(s, p, cp);
    forall n, d | Has(s', n, RgLab) && 1 <= d <= Neighbors(g) && Has(s', Step(g, d, n), RgLab)
      ensures s'.cells[Step(g, d, n)].lab == s'.cells[n].lab
    {
      if Step(g, d, n) == p {
        StepTranspose(g, d, n);
        var e := Transpose(d, g);
        assert Step(g, e, p) == n;
        assert Has(s, Step(g, e, p), RgLab);
      }
    }
  }

  lemma MarkWalled(g: Grid, s: State, p: Pos, cp: Cell)
    requires Walled(g, s) && Has(s, p, Queued) && Decided(g, s, p, cp)
    ensures Walled(g, Mark(s, p, cp))
  {
    var s' := Mark(s, p, cp);
    forall n | Has(s', n, WtsLab)
      ensures s'.cells[n].lab != 0
      ensures exists e :: 1 <= e <= Neighbors(g) && Has(s', Step(g, e, n), RgLab) && s'.cells[Step(g, e, n)].lab != s'.cells[n].lab
    {
      if n == p {
        var e :| 1 <= e <= Neighbors(g) && Has(s, Step(g, e, p), RgLab) && s.cells[Step(g, e, p)].lab != cp.lab;
        assert Has(s', Step(g, e, n), RgLab);
      } else {
        assert Has(s, n, WtsLab);
        var e :| 1 <= e <= Neighbors(g) && Has(s, Step(g, e, n), RgLab) && s.cells[Step(g, e, n)].lab != s.cells[n].lab;
        assert Has(s', Step(g, e, n), RgLab);
      }
    }
  }

  lemma MarkSlots(s: State, pos: map<Pos, (int, int)>, level: int, i: int, p: Pos, cp: Cell)
    requires Slots(s, pos, level, i) && Slot(s.q, level, i) && p == s.q[level][i]
    requires cp.status == RgLab || cp.status == WtsLab
    ensures Slots(Mark(s, p, cp), pos, level, i + 1)
  {
  }

  /** Marking the processed pixel keeps the invariant, one token further. */
  lemma MarkStep(src: Image, marker: Image, g: Grid, s: State, pos: map<Pos, (int, int)>, level: int, i: int, p: Pos, cp: Cell)
    requires Inv(src, marker, g, s, pos, level, i) == true && Slot(s.q, level, i) && p == s.q[level][i]
    requires p in s.cells && Decided(g, s, p, cp)
    ensures Inv(src, marker, g, Mark(s, p, cp), pos, level, i + 1)
  {
    Current(s, pos, level, i);
    MarkLabelled(marker, g, s, p, cp);
    MarkWitnessed(g, s, p, cp);
    MarkSeparated(g, s, p, cp);
    MarkWalled(g, s, p, cp);
    MarkSlots(s, pos, level, i, p, cp);
  }

  // ---------------------------------------------------------------------
  // Reinserting the CANDIDATE neighbours

  /** The reinsert list of p: distinct CANDIDATE neighbours of p, dirs
      giving their directions. */
  ghost predicate Fresh(g: Grid, s: State, p: Pos, re: seq<Pos>, dirs: seq<int>)
  {
    |re| == |dirs| &&
    (forall k :: 0 <= k < |re| ==> 1 <= dirs[k] <= Neighbors(g) && re[k] == Step(g, dirs[k], p) && Has(s, re[k], Candidate)) &&
    (forall a, b :: 0 <= a < b < |re| ==> re[a] != re[b])
  }

  /** The list of inspected CANDIDATE neighbours is still one once p is
      marked. */
  lemma ScanFresh(g: Grid, s: State, p: Pos, cp: Cell, re: seq<Pos>, dirs: seq<int>)
    requires CandScan(g, s, p, re, dirs, Neighbors(g) + 1) && Has(s, p, Queued)
    ensures Fresh(g, Mark(s, p, cp), p, re, dirs)
  {
    forall a, b | 0 <= a < b < |re|
      ensures re[a] != re[b]
    {
      if re[a] == re[b] {
        StepInjective(g, dirs[a], dirs[b], p);
      }
    }
  }

  /** MB_InsertInHierarchicalList for a CANDIDATE neighbour n: n joins the
      list of its own level raised to the current water level, and becomes
      QUEUED with its label kept. */
  function Push(src: Image, s: State, level: int, n: Pos): (r: State)
    requires Frame(src, s) && 0 <= level < 256 && n in s.cells
  {
    State(s.cells[n := s.cells[n].(status := Queued)], Enqueue(s.q, Max(At(src, n), level), n))
  }

  lemma PushLabelled(src: Image, marker: Image, s: State, level: int, n: Pos)
    requires Frame(src, s) && 0 <= level < 256 && Has(s, n, Candidate) && Labelled(marker, s)
    ensures Labelled(marker, Push(src, s, level, n))
  {
  }

  lemma PushWitnessed(src: Image, g: Grid, s: State, level: int, p: Pos, d: int, n: Pos)
    requires Frame(src, s) && 0 <= level < 256 && Has(s, n, Candidate) && Witnessed(g, s)
    requires Has(s, p, RgLab) && 1 <= d <= Neighbors(g) && n == Step(g, d, p)
    ensures Witnessed(g, Push(src, s, level, n))
  {
    var s' := Push(src, s, level, n);
    forall m | Has(s', m, Queued) && s'.cells[m].lab == 0
      ensures exists e :: 1 <= e <= Neighbors(g) && Has(s', Step(g, e, m), RgLab)
    {
      if m == n {
        StepTranspose(g, d, p);
        assert Has(s', Step(g, Transpose(d, g), m), RgLab);
      } else {
        assert Has(s, m, Queued);
        var e :| 1 <= e <= Neighbors(g) && Has(s, Step(g, e, m), RgLab);
        assert Has(s', Step(g, e, m), RgLab);
      }
    }
  }

  lemma PushSeparated(src: Image, g: Grid, s: State, level: int, n: Pos)
    requires Frame(src, s) && 0 <= level < 256 && Has(s, n, Candidate) && Separated(g, s)
    ensures Separated(g, Push(src, s, level, n))
  {
    var s' := Push(src, s, level, n);
    forall m, d | Has(s', m, RgLab) && 1 <= d <= Neighbors(g) && Has(s', Step(g, d, m), RgLab)
      ensures s'.cells[Step(g, d, m)].lab == s'.cells[m].lab
    {
      assert Has(s, m, RgLab) && Has(s, Step(g, d, m), RgLab);
    }
  }

  lemma PushWalled(src: Image, g: Grid, s: State, level: int, n: Pos)
    requires Frame(src, s) && 0 <= level < 256 && Has(s, n, Candidate) && Walled(g, s)
    ensures Walled(g, Push(src, s, level, n))
  {
    var s' := Push(src, s, level, n);
    forall m | Has(s', m, WtsLab)
      ensures s'.cells[m].lab != 0
      ensures exists e :: 1 <= e <= Neighbors(g) && Has(s', Step(g, e, m), RgLab) && s'.cells[Step(g, e, m)].lab != s'.cells[m].lab
    {
      assert Has(s, m, WtsLab);
      var e :| 1 <= e <= Neighbors(g) && Has(s, Step(g, e, m), RgLab) && s.cells[Step(g, e, m)].lab != s.cells[m].lab;
      assert Has(s', Step(g, e, m), RgLab);
    }
  }

  lemma PushSlots(src: Image, s: State, pos: map<Pos, (int, int)>, level: int, i: int, n: Pos)
    requires Frame(src, s) && 0 <= level < 256 && 0 <= i <= |s.q[level]| && Has(s, n, Candidate)
    requires Slots(s, pos, level, i)
    ensures var l := Max(At(src, n), level);
      Slots(Push(src, s, level, n), pos[n := (l, |s.q[l]|)], level, i)
  {
    var l := Max(At(src, n), level);
    var s', pos' := Push(src, s, level, n), pos[n := (l, |s.q[l]|)];
    forall a, k | Slot(s'.q, a, k)
      ensures s'.q[a][k] in s'.cells && s'.cells[s'.q[a][k]].status != Candidate
      ensures s'.q[a][k] in pos' && pos'[s'.q[a][k]] == (a, k)
      ensures s'.cells[s'.q[a][k]].status == Queued <==> Ahead(level, i, a, k)
    {
      if a == l && k == |s.q[l]| {
        assert s'.q[a][k] == n;
      } else {
        assert Slot(s.q, a, k) && s'.q[a][k] == s.q[a][k];
      }
    }
    forall m | Has(s', m, Queued)
      ensures m in pos' && Slot(s'.q, pos'[m].0, pos'[m].1) && s'.q[pos'[m].0][pos'[m].1] == m
    {
      if m != n {
        assert Has(s, m, Queued);
      }
    }
  }

  lemma PushNotBelow(src: Image, marker: Image, s: State, level: int, n: Pos)
    requires Frame(src, s) && 0 <= level < 256 && n in s.cells && NotBelow(src, marker, s.q)
    ensures NotBelow(src, marker, Push(src, s, level, n).q)
  {
    var q' := Push(src, s, level, n).q;
    forall a, k | Slot(q', a, k)
      ensures At(src, q'[a][k]) <= a || (a == 0 && Seed(marker, q'[a][k]))
    {
      if k < |s.q[a]| {
        assert q'[a][k] == s.q[a][k];
      }
    }
  }

  /** The tokens of re that join the list of level l, in order. */
  function Joining(src: Image, level: int, re: seq<Pos>, l: int): (r: seq<Pos>)
    ensures forall n :: n in r <==> n in re && Max(At(src, n), level) == l
  {
    if re == [] then []
    else Joining(src, level, re[..|re| - 1], l) + (if Max(At(src, re[|re| - 1]), level) == l then [re[|re| - 1]] else [])
  }

  /** Pushing a CANDIDATE neighbour of a basin pixel keeps the invariant. */
  lemma PushInv(src: Image, marker: Image, g: Grid, s: State, pos: map<Pos, (int, int)>, level: int, i: int,
                p: Pos, d: int, n: Pos)
    requires Inv(src, marker, g, s, pos, level, i) == true && 0 <= level < 256 && 0 <= i <= |s.q[level]|
    requires Has(s, n, Candidate) && Has(s, p, RgLab) && 1 <= d <= Neighbors(g) && n == Step(g, d, p)
    ensures var l := Max(At(src, n), level);
      Inv(src, marker, g, Push(src, s, level, n), pos[n := (l, |s.q[l]|)], level, i)
  {
    PushLabelled(src, marker, s, level, n);
    PushWitnessed(src, g, s, level, p, d, n);
    PushSeparated(src, g, s, level, n);
    PushWalled(src, g, s, level, n);
    PushSlots(src, s, pos, level, i, n);
    PushNotBelow(src, marker, s, level, n);
  }

  /** Cands loses exactly the pushed pixel. */
  lemma PushCands(src: Image, s: State, level: int, n: Pos)
    requires Frame(src, s) && 0 <= level < 256 && Has(s, n, Candidate)
    ensures Cands(Push(src, s, level, n)) == Cands(s) - {n}
  {
  }

  /** The tokens of re pushed one after the other. */
  function PushAll(src: Image, s: State, level: int, re: seq<Pos>): (r: State)
    requires Frame(src, s) && 0 <= level < 256 && forall k :: 0 <= k < |re| ==> re[k] in s.cells
    ensures Frame(src, r) && r.cells.Keys == s.cells.Keys
    decreases |re|
  {
    if re == [] then s
    else
      var t := PushAll(src, s, level, re[..|re| - 1]);
      Push(src, t, level, re[|re| - 1])
  }

  /** The slots the pushed tokens take. */
  ghost function PosAll(src: Image, s: State, pos: map<Pos, (int, int)>, level: int, re: seq<Pos>): map<Pos, (int, int)>
    requires Frame(src, s) && 0 <= level < 256 && forall k :: 0 <= k < |re| ==> re[k] in s.cells
    decreases |re|
  {
    if re == [] then pos
    else
      var t := PushAll(src, s, level, re[..|re| - 1]);
      var n := re[|re| - 1];
      var l := Max(At(src, n), level);
      PosAll(src, s, pos, level, re[..|re| - 1])[n := (l, |t.q[l]|)]
  }

  /** Pushing the reinsert list of a basin pixel keeps the invariant. */
  lemma {:induction false} PushAllInv(src: Image, marker: Image, g: Grid, s: State, pos: map<Pos, (int, int)>,
                                      level: int, i: int, p: Pos, re: seq<Pos>, dirs: seq<int>, j: nat)
    requires Inv(src, marker, g, s, pos, level, i) == true && 0 <= level < 256 && 0 <= i <= |s.q[level]|
    requires Has(s, p, RgLab) && Fresh(g, s, p, re, dirs) == true && j <= |re|
    ensures Inv(src, marker, g, PushAll(src, s, level, re[..j]), PosAll(src, s, pos, level, re[..j]), level, i)
  {
    if j > 0 {
      var r, n := re[..j - 1], re[j - 1];
      assert re[..j][..j - 1] == r;
      var t, u := PushAll(src, s, level, r), PushAll(src, s, level, re[..j]);
      assert u == Push(src, t, level, n);
      PushAllInv(src, marker, g, s, pos, level, i, p, re, dirs, j - 1);
      PushAllPre(src, g, s, level, p, re, dirs, j - 1);
      PushInv(src, marker, g, t, PosAll(src, s, pos, level, r), level, i, p, dirs[j - 1], n);
    }
  }

  /** Before the next push, its token is still a CANDIDATE, p is still a
      basin pixel, and the current list has only grown. */
  lemma PushAllPre(src: Image, g: Grid, s: State, level: int, p: Pos, re: seq<Pos>, dirs: seq<int>, j: nat)
    requires Frame(src, s) && 0 <= level < 256 && Has(s, p, RgLab) && Fresh(g, s, p, re, dirs) == true && j < |re|
    ensures var t := PushAll(src, s, level, re[..j]);
      Has(t, re[j], Candidate) && Has(t, p, RgLab) && |s.q[level]| <= |t.q[level]|
  {
    var r := re[..j];
    PushAllQueue(src, s, level, r);
    assert re[j] !in r;
    assert p !in r;
    PushAllKeeps(src, s, level, r, re[j]);
    PushAllKeeps(src, s, level, r, p);
  }

  /** A pixel not in the pushed tokens keeps its cell. */
  lemma PushAllKeeps(src: Image, s: State, level: int, re: seq<Pos>, x: Pos)
    requires Frame(src, s) && 0 <= level < 256 && forall k :: 0 <= k < |re| ==> re[k] in s.cells
    requires x in s.cells && x !in re
    ensures PushAll(src, s, level, re).cells[x] == s.cells[x]
  {
    PushAllCells(src, s, level, re);
  }

  /** The lists after the pushes: each list gets, at its back, the tokens
      of re that join it, in order. */
  lemma {:induction false} PushAllQueue(src: Image, s: State, level: int, re: seq<Pos>)
    requires Frame(src, s) && 0 <= level < 256 && forall k :: 0 <= k < |re| ==> re[k] in s.cells
    ensures forall l :: 0 <= l < 256 ==> PushAll(src, s, level, re).q[l] == s.q[l] + Joining(src, level, re, l)
    decreases |re|
  {
    if re != [] {
      PushAllQueue(src, s, level, re[..|re| - 1]);
    }
  }

  /** The cells after the pushes: the pushed tokens become QUEUED and
      nothing else changes. */
  lemma {:induction false} PushAllCells(src: Image, s: State, level: int, re: seq<Pos>)
    requires Frame(src, s) && 0 <= level < 256 && forall k :: 0 <= k < |re| ==> re[k] in s.cells
    ensures forall n :: n in s.cells ==>
      PushAll(src, s, level, re).cells[n] == if n in re then s.cells[n].(status := Queued) else s.cells[n]
    decreases |re|
  {
    if re != [] {
      var r := re[..|re| - 1];
      PushAllCells(src, s, level, r);
      forall n | n in s.cells
        ensures PushAll(src, s, level, re).cells[n] == if n in re then s.cells[n].(status := Queued) else s.cells[n]
      {
        assert n in re <==> n in r || n == re[|re| - 1];
      }
    }
  }

  /** Pushing the tokens of re up to j, then the next one. */
  lemma PushAllNext(src: Image, s: State, pos: map<Pos, (int, int)>, level: int, re: seq<Pos>, j: int)
    requires Frame(src, s) && 0 <= level < 256 && forall k :: 0 <= k < |re| ==> re[k] in s.cells
    requires 0 <= j < |re|
    ensures var t := PushAll(src, s, level, re[..j]);
      var l := Max(At(src, re[j]), level);
      PushAll(src, s, level, re[..j + 1]) == Push(src, t, level, re[j]) &&
      PosAll(src, s, pos, level, re[..j + 1]) == PosAll(src, s, pos, level, re[..j])[re[j] := (l, |t.q[l]|)]
  {
    assert re[..j + 1][..j] == re[..j];
  }

  /** MB_ReinsertFromList: the tokens of the reinsert list pushed in the
      order they were found; the loop computes PushAll, whose effect
      PushAllQueue, PushAllCells and PushAllInv describe. */
  method Reinsert(src: Image, s: State, ghost pos: map<Pos, (int, int)>, level: int, re: seq<Pos>)
    returns (s': State, ghost pos': map<Pos, (int, int)>)
    requires Frame(src, s) && 0 <= level < 256 && forall k :: 0 <= k < |re| ==> re[k] in s.cells
    ensures s' == PushAll(src, s, level, re) && pos' == PosAll(src, s, pos, level, re)
  {
    s', pos' := s, pos;
    var j := 0;
    while j < |re|
      invariant 0 <= j <= |re|
      invariant s' == PushAll(src, s, level, re[..j]) && pos' == PosAll(src, s, pos, level, re[..j])
    {
      PushAllNext(src, s, pos, level, re, j);
      var n := re[j];
      var l := Max(At(src, n), level);
      pos' := pos'[n := (l, |s'.q[l]|)];
      s' := Push(src, s', level, n);
      j := j + 1;
    }
    Whole(re);
  }

  /** Cands only loses pixels when no cell becomes CANDIDATE. */
  lemma CandsShrink(s: State, s': State)
    requires forall n :: n in s'.cells <==> n in s.cells
    requires forall n :: Has(s', n, Candidate) ==> Has(s, n, Candidate)
    ensures Cands(s') <= Cands(s)
  {
    forall n | n in Cands(s')
      ensures n in Cands(s)
    {
      assert Has(s', n, Candidate);
    }
  }

  /** The lists only grow at their backs, and only from the current level
      up. */
  ghost predicate Grown(q: seq<seq<Pos>>, q': seq<seq<Pos>>, level: int)
  {
    |q| == 256 && |q'| == 256 && forall l :: 0 <= l < 256 ==> q[l] <= q'[l] && (l < level ==> q'[l] == q[l])
  }

  /** The tokens of a reinsert list never join a list below the current
      level. */
  lemma JoiningGrown(src: Image, s: State, level: int, re: seq<Pos>)
    requires Frame(src, s) && 0 <= level < 256 && forall k :: 0 <= k < |re| ==> re[k] in s.cells
    ensures Grown(s.q, PushAll(src, s, level, re).q, level)
  {
    PushAllQueue(src, s, level, re);
    forall l | 0 <= l < level
      ensures Joining(src, level, re, l) == []
    {
      if Joining(src, level, re, l) != [] {
        assert Joining(src, level, re, l)[0] in Joining(src, level, re, l);
      }
    }
  }

  /** What processing p does to the cells, in terms of the cells before:
      the neighbours it queues, and nothing else. */
  lemma ProcessCells(src: Image, g: Grid, s: State, p: Pos, cp: Cell, re: seq<Pos>, dirs: seq<int>, level: int)
    requires Frame(src, s) && Has(s, p, Queued) && 0 <= level < 256
    requires CandScan(g, s, p, re, dirs, Neighbors(g) + 1) == true && Fresh(g, Mark(s, p, cp), p, re, dirs) == true
    ensures var s' := PushAll(src, Mark(s, p, cp), level, re);
      (forall e :: 1 <= e <= Neighbors(g) && Has(s, Step(g, e, p), Candidate) ==> Has(s', Step(g, e, p), Queued)) &&
      (forall n :: n in s.cells && n != p && s'.cells[n] != s.cells[n] ==>
        Has(s, n, Candidate) && s'.cells[n] == s.cells[n].(status := Queued) && exists e :: 1 <= e <= Neighbors(g) && n == Step(g, e, p)) &&
      s'.cells[p] == cp
  {
    var m := Mark(s, p, cp);
    var s' := PushAll(src, m, level, re);
    PushAllCells(src, m, level, re);
    assert p !in re;
    forall n | n in s.cells && n != p && s'.cells[n] != s.cells[n]
      ensures Has(s, n, Candidate) && s'.cells[n] == s.cells[n].(status := Queued)
      ensures exists e :: 1 <= e <= Neighbors(g) && n == Step(g, e, p)
    {
      var k :| 0 <= k < |re| && re[k] == n;
    }
  }

  /** Processing p only removes pixels from Cands, and some when it queues
      any. */
  lemma ProcessCands(src: Image, g: Grid, s: State, p: Pos, cp: Cell, re: seq<Pos>, dirs: seq<int>, level: int)
    requires Frame(src, s) && Has(s, p, Queued) && 0 <= level < 256 && cp.status != Candidate
    requires Fresh(g, Mark(s, p, cp), p, re, dirs) == true
    ensures var s' := PushAll(src, Mark(s, p, cp), level, re);
      (re != [] ==> Cands(s') < Cands(s)) && (re == [] ==> s'.q == s.q && Cands(s') == Cands(s))
  {
    var m := Mark(s, p, cp);
    var s' := PushAll(src, m, level, re);
    PushAllCells(src, m, level, re);
    CandsShrink(s, s');
    if re != [] {
      assert Has(m, re[0], Candidate);
      assert re[0] in Cands(s) && re[0] !in Cands(s');
    } else {
      CandsShrink(s', s);
    }
  }

  /** What processing the token p does to the cells: p becomes a watershed
      pixel exactly when it touches basin pixels with another label than its
      own; if it joins a basin its CANDIDATE neighbours become QUEUED, and
      otherwise they stay CANDIDATE; no other cell changes. */
  ghost predicate Processed(g: Grid, s: State, p: Pos, s': State)
  {
    p in s.cells && s'.cells.Keys == s.cells.Keys &&
    (s'.cells[p].status == RgLab || s'.cells[p].status == WtsLab) &&
    (s'.cells[p].status == WtsLab <==>
      exists e :: 1 <= e <= Neighbors(g) && Has(s, Step(g, e, p), RgLab) && s.cells[Step(g, e, p)].lab != s'.cells[p].lab) &&
    (forall e :: 1 <= e <= Neighbors(g) && Has(s, Step(g, e, p), Candidate) ==>
      Has(s', Step(g, e, p), if s'.cells[p].status == RgLab then Queued else Candidate)) &&
    (forall n :: n in s.cells && n != p && s'.cells[n] != s.cells[n] ==>
      Has(s, n, Candidate) && s'.cells[n] == s.cells[n].(status := Queued) && s'.cells[p].status == RgLab &&
      exists e :: 1 <= e <= Neighbors(g) && n == Step(g, e, p))
  }

  /** A basin pixel's cells after its reinsert list is pushed. */
  lemma JoinedCells(src: Image, g: Grid, s: State, p: Pos, cp: Cell, re: seq<Pos>, dirs: seq<int>, level: int)
    requires Frame(src, s) && Has(s, p, Queued) && 0 <= level < 256
    requires Decided(g, s, p, cp) == true && cp.status == RgLab
    requires CandScan(g, s, p, re, dirs, Neighbors(g) + 1) == true && Fresh(g, Mark(s, p, cp), p, re, dirs) == true
    ensures Processed(g, s, p, PushAll(src, Mark(s, p, cp), level, re))
  {
    ProcessCells(src, g, s, p, cp, re, dirs, level);
  }

  /** The token p decided as a basin pixel, its reinsert list pushed: the
      flooding state moves on to the next token. */
  lemma JoinedInv(src: Image, marker: Image, g: Grid, s: State, pos: map<Pos, (int, int)>, level: int, i: int,
                  p: Pos, cp: Cell, re: seq<Pos>, dirs: seq<int>, s': State, pos': map<Pos, (int, int)>)
    requires Inv(src, marker, g, s, pos, level, i) == true && 0 <= level < 256 && 0 <= i < |s.q[level]| && p == s.q[level][i]
    requires p in s.cells && Decided(g, s, p, cp) == true && cp.status == RgLab
    requires CandScan(g, s, p, re, dirs, Neighbors(g) + 1) == true
    requires s' == PushAll(src, Mark(s, p, cp), level, re) && pos' == PosAll(src, Mark(s, p, cp), pos, level, re)
    ensures Inv(src, marker, g, s', pos', level, i + 1) == true
  {
    var m := Mark(s, p, cp);
    Current(s, pos, level, i);
    MarkStep(src, marker, g, s, pos, level, i, p, cp);
    ScanFresh(g, s, p, cp, re, dirs);
    Whole(re);
    PushAllInv(src, marker, g, m, pos, level, i + 1, p, re, dirs, |re|);
  }

  /** The token p decided as a basin pixel, its reinsert list pushed: what
      happens to the lists and the cells. */
  lemma Joined(src: Image, marker: Image, g: Grid, s: State, pos: map<Pos, (int, int)>, level: int, i: int,
               p: Pos, cp: Cell, re: seq<Pos>, dirs: seq<int>, s': State)
    requires Inv(src, marker, g, s, pos, level, i) == true && 0 <= level < 256 && 0 <= i < |s.q[level]| && p == s.q[level][i]
    requires p in s.cells && Decided(g, s, p, cp) == true && cp.status == RgLab
    requires CandScan(g, s, p, re, dirs, Neighbors(g) + 1) == true
    requires s' == PushAll(src, Mark(s, p, cp), level, re)
    ensures Grown(s.q, s'.q, level) == true
    ensures Cands(s') < Cands(s) || (Cands(s') == Cands(s) && s'.q == s.q)
    ensures Processed(g, s, s.q[level][i], s') == true
  {
    var m := Mark(s, p, cp);
    Current(s, pos, level, i);
    ScanFresh(g, s, p, cp, re, dirs);
    JoiningGrown(src, m, level, re);
    JoinedCells(src, g, s, p, cp, re, dirs, level);
    ProcessCands(src, g, s, p, cp, re, dirs, level);
  }

  /** The token p decided as a watershed pixel: nothing else changes. */
  lemma Walling(g: Grid, s: State, level: int, p: Pos, cp: Cell)
    requires Has(s, p, Queued) && Decided(g, s, p, cp) == true && cp.status == WtsLab
    requires |s.q| == 256 && 0 <= level < 256
    ensures Grown(s.q, Mark(s, p, cp).q, level) == true
    ensures Cands(Mark(s, p, cp)) == Cands(s)
    ensures Processed(g, s, p, Mark(s, p, cp)) == true
  {
    var s' := Mark(s, p, cp);
    CandsShrink(s, s');
    CandsShrink(s', s);
  }

  /** Processing a token keeps every CANDIDATE away from the basins. */
  lemma ProcessedEnclosed(g: Grid, s: State, p: Pos, s': State)
    requires Enclosed(g, s) && Has(s, p, Queued) && Processed(g, s, p, s') == true
    ensures Enclosed(g, s')
  {
    forall q, d | Has(s', q, Candidate) && 1 <= d <= Neighbors(g)
      ensures !Has(s', Step(g, d, q), RgLab)
    {
      assert s'.cells[q] == s.cells[q];
      if Step(g, d, q) == p {
        StepTranspose(g, d, q);
        var e := Transpose(d, g);
        assert Step(g, e, p) == q;
      }
    }
  }

  /** MB_InsertNeighbors_square/_hexagonal for the token in slot (level, i):
      the pixel is decided (basin pixel or watershed pixel), and if it joins
      a basin its CANDIDATE neighbours are queued; nothing else changes. */
  method Process(src: Image, marker: Image, g: Grid, s: State, ghost pos: map<Pos, (int, int)>, level: int, i: int)
    returns (s': State, ghost pos': map<Pos, (int, int)>)
    requires Inv(src, marker, g, s, pos, level, i) == true && 0 <= level < 256 && 0 <= i < |s.q[level]|
    ensures Inv(src, marker, g, s', pos', level, i + 1) == true
    ensures Grown(s.q, s'.q, level) == true
    ensures Cands(s') < Cands(s) || (Cands(s') == Cands(s) && s'.q == s.q)
    ensures Processed(g, s, s.q[level][i], s') == true
    ensures Enclosed(g, s) ==> Enclosed(g, s')
  {
    var p := s.q[level][i];
    Current(s, pos, level, i);
    var cp, re, dirs := Decide(src, g, s, p);
    var m := Mark(s, p, cp);
    if cp.status != WtsLab {
      s', pos' := Reinsert(src, m, pos, level, re);
      JoinedInv(src, marker, g, s, pos, level, i, p, cp, re, dirs, s', pos');
      Joined(src, marker, g, s, pos, level, i, p, cp, re, dirs, s');
    } else {
      s', pos' := m, pos;
      MarkStep(src, marker, g, s, pos, level, i, p, cp);
      Walling(g, s, level, p, cp);
    }
    if Enclosed(g, s) {
      ProcessedEnclosed(g, s, p, s');
    }
  }

  // ---------------------------------------------------------------------
  // Flooding

  lemma GrownTransitive(a: seq<seq<Pos>>, b: seq<seq<Pos>>, c: seq<seq<Pos>>, level: int)
    requires Grown(a, b, 0) && Grown(b, c, level) && 0 <= level
    ensures Grown(a, c, 0)
  {
    forall l | 0 <= l < 256
      ensures a[l] <= c[l]
    {
      assert a[l] == b[l][..|a[l]|] && b[l] == c[l][..|b[l]|];
    }
  }

  /** After one token, the visit so far still reads the lists as they are
      now: the lists below the current level did not change and the current
      one only grew at its back. */
  lemma VisitStep(q: seq<seq<Pos>>, q': seq<seq<Pos>>, level: int, i: int)
    requires Grown(q, q', level) && 0 <= level < 256 && 0 <= i < |q[level]|
    ensures Upward(q', level) == Upward(q, level)
    ensures Tagged(level, q'[level][..i + 1]) == Tagged(level, q[level][..i]) + [(level, q[level][i])]
  {
    UpwardFrame(q, q', level);
    assert q'[level][..i + 1] == q[level][..i + 1];
    assert q[level][..i + 1][..i] == q[level][..i];
    TaggedStep(level, q[level], i);
  }

  /** A level read to its end: the slots still ahead are those of the
      levels above it. */
  lemma NextLevel(src: Image, marker: Image, g: Grid, s: State, pos: map<Pos, (int, int)>, level: int)
    requires |s.q| == 256 && 0 <= level < 256 && Inv(src, marker, g, s, pos, level, |s.q[level]|) == true
    ensures Inv(src, marker, g, s, pos, level + 1, 0)
    ensures Upward(s.q, level + 1) == Upward(s.q, level) + Tagged(level, s.q[level][..|s.q[level]|])
  {
    assert s.q[level][..|s.q[level]|] == s.q[level];
    forall l, k | Slot(s.q, l, k)
      ensures Ahead(level, |s.q[level]|, l, k) <==> Ahead(level + 1, 0, l, k)
    {
    }
  }

  /** MB_Flooding: the lists of levels 0 up to maxLevel - 1 are read in
      turn, each front to back, and every token read is processed; tokens
      pushed into the current list during its reading are read too.
      `trace` is the order in which the tokens were read. */
  method Flooding(src: Image, marker: Image, g: Grid, s0: State, ghost pos0: map<Pos, (int, int)>, maxLevel: nat)
    returns (s: State, ghost pos: map<Pos, (int, int)>, ghost trace: seq<(int, Pos)>)
    requires Inv(src, marker, g, s0, pos0, 0, 0) == true && Enclosed(g, s0) && maxLevel <= 256
    ensures Inv(src, marker, g, s, pos, maxLevel, 0) && Enclosed(g, s)
    ensures Grown(s0.q, s.q, 0) && trace == Upward(s.q, maxLevel)
  {
    s, pos, trace := s0, pos0, [];
    var level := 0;
    while level < maxLevel
      invariant 0 <= level <= maxLevel
      invariant Inv(src, marker, g, s, pos, level, 0) == true && Enclosed(g, s)
      invariant Grown(s0.q, s.q, 0) && trace == Upward(s.q, level)
    {
      var i := 0;
      ghost var part: seq<(int, Pos)> := [];
      while i < |s.q[level]|
        invariant |s.q| == 256 && 0 <= i <= |s.q[level]|
        invariant Inv(src, marker, g, s, pos, level, i) == true && Enclosed(g, s)
        invariant Grown(s0.q, s.q, 0) && trace == Upward(s.q, level) && part == Tagged(level, s.q[level][..i])
        decreases Cands(s), |s.q[level]| - i
      {
        var s', pos' := Process(src, marker, g, s, pos, level, i);
        VisitStep(s.q, s'.q, level, i);
        GrownTransitive(s0.q, s.q, s'.q, level);
        part := part + [(level, s.q[level][i])];
        s, pos, i := s', pos', i + 1;
      }
      NextLevel(src, marker, g, s, pos, level);
      trace := trace + part;
      level := level + 1;
    }
  }

  // ---------------------------------------------------------------------
  // Initialisation

  /** The cell MB_HierarchyInit gives a pixel: a seed is QUEUED with its
      label, any other pixel is a CANDIDATE without one. */
  function InitCell(marker: Image, p: Pos): Cell
  {
    if Seed(marker, p) then Cell(Queued, ReadLabel(At(marker, p))) else Cell(Candidate, 0)
  }

  /** The seeds of line y left of x, left to right. */
  function SeedLine(marker: Image, y: int, x: nat): seq<Pos>
  {
    if x == 0 then [] else SeedLine(marker, y, x - 1) + (if Seed(marker, (x - 1, y)) then [(x - 1, y)] else [])
  }

  /** The seeds of the lines above y, in raster order. */
  function SeedRaster(marker: Image, y: nat): seq<Pos>
  {
    if y == 0 then [] else SeedRaster(marker, y - 1) + SeedLine(marker, y - 1, marker.width)
  }

  lemma SeedLineNext(marker: Image, q0: seq<Pos>, y: int, x: nat)
    ensures q0 + SeedLine(marker, y, x) + (if Seed(marker, (x, y)) then [(x, y)] else []) == q0 + SeedLine(marker, y, x + 1)
  {
  }

  /** The state of the initialisation loop at pixel (x, y): the pixels
      before it have their initial cells and the seeds among them are in
      the list of level 0, each once. */
  ghost predicate Filling(marker: Image, cells: map<Pos, Cell>, q0: seq<Pos>, pos: map<Pos, (int, int)>, x: int, y: int)
  {
    (forall p :: p in cells <==> InsideP(marker, p) && Before(p, x, y)) &&
    (forall p :: p in cells ==> cells[p] == InitCell(marker, p)) &&
    (forall k :: 0 <= k < |q0| ==> q0[k] in cells && Seed(marker, q0[k]) && q0[k] in pos && pos[q0[k]] == (0, k)) &&
    (forall p :: p in cells && Seed(marker, p) ==> p in pos && pos[p].0 == 0 && 0 <= pos[p].1 < |q0| && q0[pos[p].1] == p)
  }

  lemma FillStep(marker: Image, cells: map<Pos, Cell>, q0: seq<Pos>, pos: map<Pos, (int, int)>, x: int, y: int,
                 cells': map<Pos, Cell>, q0': seq<Pos>, pos': map<Pos, (int, int)>)
    requires Filling(marker, cells, q0, pos, x, y) == true && Inside(marker, x, y)
    requires cells' == cells[(x, y) := InitCell(marker, (x, y))]
    requires q0' == q0 + (if Seed(marker, (x, y)) then [(x, y)] else [])
    requires pos' == if Seed(marker, (x, y)) then pos[(x, y) := (0, |q0|)] else pos
    ensures Filling(marker, cells', q0', pos', x + 1, y)
  {
    assert (x, y) !in cells;
  }

  lemma FillLine(marker: Image, cells: map<Pos, Cell>, q0: seq<Pos>, pos: map<Pos, (int, int)>, y: int)
    requires Filling(marker, cells, q0, pos, marker.width, y) == true
    ensures Filling(marker, cells, q0, pos, 0, y + 1)
  {
    forall p
      ensures InsideP(marker, p) && Before(p, marker.width, y) <==> InsideP(marker, p) && Before(p, 0, y + 1)
    {
    }
  }

  /** One line of MB_HierarchyInit, left to right. */
  method FillRow(marker: Image, cells: map<Pos, Cell>, q0: seq<Pos>, ghost pos: map<Pos, (int, int)>, y: int)
    returns (cells': map<Pos, Cell>, q0': seq<Pos>, ghost pos': map<Pos, (int, int)>)
    requires 0 <= y < marker.height
    requires Filling(marker, cells, q0, pos, 0, y) == true
    ensures Filling(marker, cells', q0', pos', 0, y + 1) == true
    ensures q0' == q0 + SeedLine(marker, y, marker.width)
  {
    cells', q0', pos' := cells, q0, pos;
    var x := 0;
    while x < marker.width
      invariant 0 <= x <= marker.width
      invariant Filling(marker, cells', q0', pos', x, y) == true && q0' == q0 + SeedLine(marker, y, x)
    {
      ghost var cells0, q00, pos0 := cells', q0', pos';
      var v := Get(marker, x, y);
      if ReadLabel(v) != 0 {
        pos' := pos'[(x, y) := (0, |q0'|)];
        q0' := q0' + [(x, y)];
        cells' := cells'[(x, y) := Cell(Queued, ReadLabel(v))];
      } else {
        cells' := cells'[(x, y) := Cell(Candidate, 0)];
      }
      FillStep(marker, cells0, q00, pos0, x, y, cells', q0', pos');
      SeedLineNext(marker, q0, y, x);
      x := x + 1;
    }
    FillLine(marker, cells', q0', pos', y);
  }

  /** A filling past the last line covers every pixel. */
  lemma FillDone(marker: Image, cells: map<Pos, Cell>, q0: seq<Pos>, pos: map<Pos, (int, int)>)
    requires Filling(marker, cells, q0, pos, 0, marker.height) == true
    ensures forall p :: p in cells <==> InsideP(marker, p)
  {
    forall p
      ensures p in cells <==> InsideP(marker, p)
    {
      assert InsideP(marker, p) ==> Before(p, 0, marker.height);
    }
  }

  /** MB_HierarchyInit: in raster order, every seed is queued at level 0
      with its label kept and every other pixel becomes a CANDIDATE. */
  method Init(marker: Image) returns (s: State, ghost pos: map<Pos, (int, int)>)
    ensures forall p :: p in s.cells <==> InsideP(marker, p)
    ensures forall p :: p in s.cells ==> s.cells[p] == InitCell(marker, p)
    ensures |s.q| == 256 && s.q[0] == SeedRaster(marker, marker.height) && forall l :: 1 <= l < 256 ==> s.q[l] == []
    ensures forall k :: 0 <= k < |s.q[0]| ==> s.q[0][k] in s.cells && Seed(marker, s.q[0][k]) && s.q[0][k] in pos && pos[s.q[0][k]] == (0, k)
    ensures forall p :: p in s.cells && Seed(marker, p) ==> p in pos && pos[p].0 == 0 && 0 <= pos[p].1 < |s.q[0]| && s.q[0][pos[p].1] == p
  {
    var cells: map<Pos, Cell> := map[];
    var q0: seq<Pos> := [];
    pos := map[];
    var y := 0;
    while y < marker.height
      invariant 0 <= y <= marker.height
      invariant Filling(marker, cells, q0, pos, 0, y) == true && q0 == SeedRaster(marker, y)
    {
      cells, q0, pos := FillRow(marker, cells, q0, pos, y);
      y := y + 1;
    }
    FillDone(marker, cells, q0, pos);
    s := State(cells, EmptyQueues[0 := q0]);
  }

  /** The state MB_HierarchyInit leaves: every pixel has its initial cell,
      the seeds fill the list of level 0 and the other lists are empty. */
  ghost predicate Initial(marker: Image, s: State, pos: map<Pos, (int, int)>)
  {
    (forall p :: p in s.cells <==> InsideP(marker, p)) &&
    (forall p :: p in s.cells ==> s.cells[p] == InitCell(marker, p)) &&
    |s.q| == 256 && (forall l :: 1 <= l < 256 ==> s.q[l] == []) &&
    (forall k :: 0 <= k < |s.q[0]| ==> s.q[0][k] in s.cells && Seed(marker, s.q[0][k]) && s.q[0][k] in pos && pos[s.q[0][k]] == (0, k)) &&
    (forall p :: p in s.cells && Seed(marker, p) ==> p in pos && pos[p].0 == 0 && 0 <= pos[p].1 < |s.q[0]| && s.q[0][pos[p].1] == p)
  }

  lemma InitLabelled(marker: Image, s: State, pos: map<Pos, (int, int)>)
    requires Initial(marker, s, pos) == true
    ensures Labelled(marker, s)
  {
    forall p | p in s.cells
      ensures s.cells[p].lab in SeedLabels(marker)
    {
      assert ReadLabel(Get(marker, p.0, p.1)) in SeedLabels(marker);
    }
  }

  /** At the start no pixel is in a basin or on a watershed line. */
  lemma InitUnflooded(marker: Image, g: Grid, s: State, pos: map<Pos, (int, int)>)
    requires Initial(marker, s, pos) == true
    ensures Witnessed(g, s) && Separated(g, s) && Walled(g, s) && Enclosed(g, s)
  {
  }

  lemma InitSlots(marker: Image, s: State, pos: map<Pos, (int, int)>)
    requires Initial(marker, s, pos) == true
    ensures Slots(s, pos, 0, 0)
  {
  }

  /** The initial state is a flooding state at the first token of level 0. */
  lemma InitInv(src: Image, marker: Image, g: Grid, s: State, pos: map<Pos, (int, int)>)
    requires Valid(src) && src.depth == 8 && SameSize(src, marker)
    requires Initial(marker, s, pos) == true
    ensures Inv(src, marker, g, s, pos, 0, 0)
  {
    Bounded8(src);
    InitLabelled(marker, s, pos);
    InitUnflooded(marker, g, s, pos);
    InitSlots(marker, s, pos);
  }

  // ---------------------------------------------------------------------
  // Control pass and result

  /** The cell MB_ControlPass leaves: a CANDIDATE (a pixel the flooding
      never reached) becomes a watershed pixel, its label kept. */
  function Controlled(c: Cell): (r: Cell)
    ensures r.lab == c.lab && r.status != Candidate
    ensures c.status != Candidate ==> r == c
  {
    if c.status == Candidate then c.(status := WtsLab) else c
  }

  /** MB_ControlPass: every pixel, in raster order, through Controlled. */
  method ControlPass(src: Image, s: State) returns (r: State)
    requires Frame(src, s)
    ensures r.q == s.q && r.cells.Keys == s.cells.Keys
    ensures forall p :: p in s.cells ==> r.cells[p] == Controlled(s.cells[p])
  {
    var cells := s.cells;
    var y := 0;
    while y < src.height
      invariant 0 <= y <= src.height && cells.Keys == s.cells.Keys
      invariant forall p :: p in s.cells ==> cells[p] == if Before(p, 0, y) then Controlled(s.cells[p]) else s.cells[p]
    {
      var x := 0;
      while x < src.width
        invariant 0 <= x <= src.width && cells.Keys == s.cells.Keys
        invariant forall p :: p in s.cells ==> cells[p] == if Before(p, x, y) then Controlled(s.cells[p]) else s.cells[p]
      {
        assert InsideP(src, (x, y));
        if cells[(x, y)].status == Candidate {
          cells := cells[(x, y) := cells[(x, y)].(status := WtsLab)];
        }
        x := x + 1;
      }
      y := y + 1;
    }
    r := State(cells, s.q);
  }

  /** A QUEUED pixel sits in a slot still ahead of the reading. */
  lemma QueuedAhead(s: State, pos: map<Pos, (int, int)>, level: int, i: int, p: Pos)
    requires Slots(s, pos, level, i) == true && p in s.cells
    ensures s.cells[p].status == Queued ==> p in pos && pos[p].0 < |s.q| && Ahead(level, i, pos[p].0, pos[p].1)
  {
    if s.cells[p].status == Queued {
      assert Slot(s.q, pos[p].0, pos[p].1) && s.q[pos[p].0][pos[p].1] == p;
    }
  }

  /** Once the lists of all 256 levels are read, no pixel is left QUEUED. */
  lemma Drained(src: Image, marker: Image, g: Grid, s: State, pos: map<Pos, (int, int)>)
    requires Inv(src, marker, g, s, pos, 256, 0) == true
    ensures forall p :: p in s.cells ==> s.cells[p].status != Queued
  {
    forall p | p in s.cells
      ensures s.cells[p].status != Queued
    {
      QueuedAhead(s, pos, 256, 0, p);
    }
  }

  /** The segmentation in the cells: labels come from the marker and seeds
      keep theirs, basin pixels carry a label and neighbouring ones agree, a
      watershed pixel with a label separates two basins, and one without a
      label (left over by the control pass) touches no basin. */
  ghost predicate Final(marker: Image, g: Grid, s: State)
  {
    (forall p :: p in s.cells ==>
      s.cells[p].lab in SeedLabels(marker) &&
      (Seed(marker, p) ==> s.cells[p].lab == ReadLabel(At(marker, p))) &&
      (s.cells[p].status == RgLab ==> s.cells[p].lab != 0)) &&
    Separated(g, s) &&
    (forall p :: Has(s, p, WtsLab) && s.cells[p].lab != 0 ==>
      exists e :: 1 <= e <= Neighbors(g) && Has(s, Step(g, e, p), RgLab) && s.cells[Step(g, e, p)].lab != s.cells[p].lab) &&
    (forall p, d :: Has(s, p, WtsLab) && s.cells[p].lab == 0 && 1 <= d <= Neighbors(g) ==> !Has(s, Step(g, d, p), RgLab))
  }

  /** The state the flooding stops in is a segmentation. */
  lemma FloodedFinal(src: Image, marker: Image, g: Grid, s: State, pos: map<Pos, (int, int)>, level: int)
    requires Inv(src, marker, g, s, pos, level, 0) == true
    ensures Final(marker, g, s)
    ensures forall p :: Has(s, p, Candidate) ==> s.cells[p].lab == 0
  {
  }

  /** The control pass keeps the segmentation and leaves every pixel a
      basin or a watershed pixel once no pixel is QUEUED. */
  lemma ControlFinal(marker: Image, g: Grid, s: State, r: State)
    requires Final(marker, g, s) == true && Enclosed(g, s)
    requires forall p :: p in s.cells ==> s.cells[p].status != Queued
    requires forall p :: Has(s, p, Candidate) ==> s.cells[p].lab == 0
    requires r.cells.Keys == s.cells.Keys && forall p :: p in s.cells ==> r.cells[p] == Controlled(s.cells[p])
    ensures Final(marker, g, r)
    ensures forall p :: p in r.cells ==> r.cells[p].status == RgLab || r.cells[p].status == WtsLab
  {
    forall p, d | Has(r, p, WtsLab) && r.cells[p].lab == 0 && 1 <= d <= Neighbors(g)
      ensures !Has(r, Step(g, d, p), RgLab)
    {
      assert s.cells[p].status == Candidate || s.cells[p].status == WtsLab;
    }
    forall p | Has(r, p, WtsLab) && r.cells[p].lab != 0
      ensures exists e :: 1 <= e <= Neighbors(g) && Has(r, Step(g, e, p), RgLab) && r.cells[Step(g, e, p)].lab != r.cells[p].lab
    {
      assert Has(s, p, WtsLab);
      var e :| 1 <= e <= Neighbors(g) && Has(s, Step(g, e, p), RgLab) && s.cells[Step(g, e, p)].lab != s.cells[p].lab;
      var n := Step(g, e, p);
      assert r.cells[n] == Controlled(s.cells[n]);
    }
  }

  /** The label of pixel p of a result word image. */
  function LabelAt(w: Image, p: Pos): nat
  {
    ReadLabel(At(w, p))
  }

  /** Pixel p of a result word image is inside it and has status st. */
  predicate IsAt(w: Image, p: Pos, st: Status)
  {
    InsideP(w, p) && StatusBits(At(w, p)) == Code(st)
  }

  /** The segmentation the words of a result image encode (Final, read
      through READ_LABEL and IS_PIXEL). */
  ghost predicate Segmented(marker: Image, g: Grid, w: Image)
  {
    (forall p :: InsideP(w, p) ==>
      LabelAt(w, p) in SeedLabels(marker) &&
      (Seed(marker, p) ==> LabelAt(w, p) == ReadLabel(At(marker, p)))) &&
    (forall p :: IsAt(w, p, RgLab) ==> LabelAt(w, p) != 0) &&
    (forall p, d :: IsAt(w, p, RgLab) && 1 <= d <= Neighbors(g) && IsAt(w, Step(g, d, p), RgLab) ==>
      LabelAt(w, Step(g, d, p)) == LabelAt(w, p)) &&
    (forall p :: IsAt(w, p, WtsLab) && LabelAt(w, p) != 0 ==>
      exists e :: 1 <= e <= Neighbors(g) && IsAt(w, Step(g, e, p), RgLab) && LabelAt(w, Step(g, e, p)) != LabelAt(w, p)) &&
    (forall p, d :: IsAt(w, p, WtsLab) && LabelAt(w, p) == 0 && 1 <= d <= Neighbors(g) ==> !IsAt(w, Step(g, d, p), RgLab))
  }

  /** Every pixel of a result image is a basin or a watershed pixel. */
  ghost predicate Complete(w: Image)
  {
    forall p :: InsideP(w, p) ==> IsAt(w, p, RgLab) || IsAt(w, p, WtsLab)
  }

  /** The marker image written back: each pixel's word assembled from its
      cell. */
  function Output(src: Image, s: State): (w: Image)
    requires Frame(src, s)
    ensures w.width == src.width && w.height == src.height && w.depth == 32
  {
    Make(src.width, src.height, 32, (x, y) => if (x, y) in s.cells then Word(s.cells[(x, y)]) else 0)
  }

  /** The word of pixel p of the output is its cell's. */
  lemma OutputAt(src: Image, s: State, p: Pos)
    requires Frame(src, s) && p in s.cells
    ensures InsideP(Output(src, s), p) && At(Output(src, s), p) == Word(s.cells[p])
  {
  }

  /** The output is a valid 32-bit image. */
  lemma OutputValid(src: Image, s: State)
    requires Frame(src, s) && forall p :: p in s.cells ==> s.cells[p].lab < LabelBound
    ensures Valid(Output(src, s))
  {
    var w := Output(src, s);
    forall x, y | Inside(w, x, y)
      ensures Get(w, x, y) <= MaxValue(w.depth)
    {
      assert InsideP(src, (x, y));
      OutputAt(src, s, (x, y));
      WordReads(s.cells[(x, y)]);
    }
    ValidFromPixels(w);
  }

  /** The words of the output read back as the cells. */
  lemma OutputReads(src: Image, s: State)
    requires Frame(src, s) && forall p :: p in s.cells ==> s.cells[p].lab < LabelBound
    ensures forall p :: InsideP(Output(src, s), p) <==> p in s.cells
    ensures forall p :: p in s.cells ==> LabelAt(Output(src, s), p) == s.cells[p].lab
    ensures forall p, st :: IsAt(Output(src, s), p, st) <==> Has(s, p, st)
  {
    var w := Output(src, s);
    forall p | p in s.cells
      ensures LabelAt(w, p) == s.cells[p].lab && StatusBits(At(w, p)) == Code(s.cells[p].status)
    {
      OutputAt(src, s, p);
      WordReads(s.cells[p]);
    }
    forall p, st | IsAt(w, p, st)
      ensures Has(s, p, st)
    {
      assert InsideP(src, p);
      CodeInjective(st, s.cells[p].status);
    }
  }

  /** A word image that reads back as the cells of a segmentation encodes
      that segmentation. */
  lemma ReadBack(marker: Image, g: Grid, s: State, w: Image)
    requires Final(marker, g, s) == true
    requires forall p :: InsideP(w, p) <==> p in s.cells
    requires forall p :: p in s.cells ==> LabelAt(w, p) == s.cells[p].lab
    requires forall p, st :: IsAt(w, p, st) <==> Has(s, p, st)
    ensures Segmented(marker, g, w)
    ensures (forall p :: p in s.cells ==> s.cells[p].status == RgLab || s.cells[p].status == WtsLab) ==> Complete(w)
  {
    forall p | IsAt(w, p, WtsLab) && LabelAt(w, p) != 0
      ensures exists e :: 1 <= e <= Neighbors(g) && IsAt(w, Step(g, e, p), RgLab) && LabelAt(w, Step(g, e, p)) != LabelAt(w, p)
    {
      var e :| 1 <= e <= Neighbors(g) && Has(s, Step(g, e, p), RgLab) && s.cells[Step(g, e, p)].lab != s.cells[p].lab;
      assert IsAt(w, Step(g, e, p), RgLab);
    }
  }

  /** A segmentation in the cells is one in the output words. */
  lemma OutputSegmented(src: Image, marker: Image, g: Grid, s: State)
    requires Frame(src, s) && Final(marker, g, s) == true
    ensures Valid(Output(src, s)) && Segmented(marker, g, Output(src, s))
    ensures (forall p :: p in s.cells ==> s.cells[p].status == RgLab || s.cells[p].status == WtsLab) ==> Complete(Output(src, s))
  {
    forall p | p in s.cells
      ensures s.cells[p].lab < LabelBound
    {
      SeedLabelsBound(marker, s.cells[p].lab);
    }
    OutputValid(src, s);
    OutputReads(src, s);
    ReadBack(marker, g, s, Output(src, s));
  }

  /** Marker labels are 24-bit values. */
  lemma SeedLabelsBound(marker: Image, l: nat)
    requires l in SeedLabels(marker)
    ensures l < LabelBound
  {
  }

  /** MB_Watershed: the size, depth and level checks in that order, then the
      initialisation, the flooding up to maxLevel and, when all 256 levels
      were flooded, the control pass; the result is the marker image
      rewritten with labels and statuses.  `lists` are the lists of the
      queue at the end and `trace` the order the tokens were read in. */
  method Watershed(src: Image, marker: Image, maxLevel: nat, g: Grid)
    returns (r: Result<Image>, ghost lists: seq<seq<Pos>>, ghost trace: seq<(int, Pos)>)
    requires Valid(src) && Valid(marker)
    ensures !SameSize(src, marker) ==> r == Fail(BadSize)
    ensures SameSize(src, marker) && Probe(src, marker) != Pair8x32 ==> r == Fail(BadDepth)
    ensures SameSize(src, marker) && Probe(src, marker) == Pair8x32 && maxLevel > 256 ==> r == Fail(BadValue)
    ensures SameSize(src, marker) && Probe(src, marker) == Pair8x32 && maxLevel <= 256 ==> r.Ok?
    ensures r.Ok? ==> Valid(r.value) && SameSize(r.value, marker) && r.value.depth == 32
    ensures r.Ok? ==> Segmented(marker, g, r.value) && (maxLevel == 256 ==> Complete(r.value))
    ensures r.Ok? ==> |lists| == 256 && trace == Upward(lists, maxLevel)
    ensures r.Ok? ==> SeedRaster(marker, marker.height) <= lists[0] && NotBelow(src, marker, lists)
  {
    if !SameSize(src, marker) {
      return Fail(BadSize), [], [];
    }
    if Probe(src, marker) != Pair8x32 {
      return Fail(BadDepth), [], [];
    }
    if maxLevel > 256 {
      return Fail(BadValue), [], [];
    }
    PairConstants();
    PairInjective(src.depth, marker.depth, 8, 32);
    var s0, pos0 := Init(marker);
    assert Initial(marker, s0, pos0);
    InitInv(src, marker, g, s0, pos0);
    InitUnflooded(marker, g, s0, pos0);
    var s;
    ghost var pos;
    s, pos, trace := Flooding(src, marker, g, s0, pos0, maxLevel);
    FloodedFinal(src, marker, g, s, pos, maxLevel);
    lists := s.q;
    if maxLevel == 256 {
      Drained(src, marker, g, s, pos);
      var c := ControlPass(src, s);
      ControlFinal(marker, g, s, c);
      s := c;
    }
    OutputSegmented(src, marker, g, s);
    r := Ok(Output(src, s));
  }
}
