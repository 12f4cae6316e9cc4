// MB_Labelb, second half: the tidy pass and the operator itself.  Once the
// raster scan has given every set pixel a provisional label, MB_TidyLabel
// walks the image again in raster order and replaces each label by the
// corrected label of its class (FIND_CORRECT_LABEL): the k-th class met
// (counting from 0) receives lblow + k % (lbhigh - lblow) + 256 * (k / (lbhigh
// - lblow)), so the low byte of every label stays in [lblow, lbhigh).  The
// number of classes met is the object count MB_Labelb returns.

module LabelTidy {
  import opened Common
  import opened Images
  import opened HierQueue
  import opened Labelling

  // ---------------------------------------------------------------------
  // The corrected label formula

  /** The corrected label of the k-th class, with m = lbhigh - lblow, as the
      32-bit word the code stores. */
  function Formula(lblow: nat, m: nat, k: nat): (v: nat)
    requires m > 0
    ensures v < Two32
  {
    (lblow + k % m + 256 * (k / m)) % Two32
  }

  /** The low byte of a label lies in [lblow, lblow + m). */
  predicate LowOk(lblow: nat, m: nat, v: nat)
  {
    lblow <= v % 256 < lblow + m
  }

  /** Every corrected label has its low byte in range, whatever the count
      (the 32-bit wrap-around keeps the low byte). */
  lemma FormulaLow(lblow: nat, m: nat, k: nat)
    requires 0 < m && lblow + m <= 256
    ensures LowOk(lblow, m, Formula(lblow, m, k))
  {
    var x := lblow + k % m + 256 * (k / m);
    var v := Formula(lblow, m, k);
    assert (x - v) % Two32 == 0;
    var q := (x - v) / Two32;
    assert x - v == Two32 * q;
    LowByte(lblow + k % m, k / m - 16777216 * q);
  }

  lemma LowByte(r: nat, q: int)
    requires r < 256
    ensures (r + 256 * q) % 256 == r
  {
  }

  /** With lblow >= 1 no corrected label is 0, the background value. */
  lemma FormulaNonZero(lblow: nat, m: nat, k: nat)
    requires 0 < m && lblow + m <= 256 && lblow >= 1
    ensures Formula(lblow, m, k) != 0
  {
    FormulaLow(lblow, m, k);
  }

  /** The corrected labels of the first n classes fit in 32 bits. */
  predicate Fits(lblow: nat, m: nat, n: nat)
    requires m > 0
  {
    lblow + m + 256 * (n / m) <= Two32
  }

  lemma FitsBelow(lblow: nat, m: nat, n: nat, k: nat)
    requires m > 0 && Fits(lblow, m, n) && k <= n
    ensures lblow + k % m + 256 * (k / m) < Two32
  {
    DivMonotone(k, n, m);
  }

  lemma DivMonotone(a: nat, b: nat, m: nat)
    requires m > 0 && a <= b
    ensures a / m <= b / m
  {
    var qa, qb := a / m, b / m;
    assert a == m * qa + a % m && b == m * qb + b % m;
    if qa > qb {
      MulStep(m, qa - qb);
      assert false;
    }
  }

  lemma MulStep(m: nat, k: nat)
    requires k >= 1
    ensures m * k >= m
  {
  }

  /** Base-256 digits are unique. */
  lemma DigitsUnique(ri: nat, rj: nat, a: nat, b: nat)
    requires ri < 256 && rj < 256 && ri + 256 * a == rj + 256 * b
    ensures a == b && ri == rj
  {
  }

  /** A number is fixed by its quotient and remainder. */
  lemma DivModUnique(i: nat, j: nat, m: nat)
    requires m > 0 && i / m == j / m && i % m == j % m
    ensures i == j
  {
    assert i == m * (i / m) + i % m;
    assert j == m * (j / m) + j % m;
  }

  /** Below the wrap-around a corrected label is the plain formula. */
  lemma FormulaValue(lblow: nat, m: nat, n: nat, k: nat)
    requires 0 < m && Fits(lblow, m, n) && k < n
    ensures Formula(lblow, m, k) == lblow + k % m + 256 * (k / m)
  {
    var x := lblow + k % m + 256 * (k / m);
    FitsBelow(lblow, m, n, k);
    assert 0 <= x < Two32;
    assert Formula(lblow, m, k) == x % Two32;
  }

  /** Distinct classes get distinct labels while no label wraps around. */
  lemma FormulaInjective(lblow: nat, m: nat, n: nat, i: nat, j: nat)
    requires 0 < m && lblow + m <= 256 && Fits(lblow, m, n) && i < n && j < n
    ensures Formula(lblow, m, i) == Formula(lblow, m, j) <==> i == j
  {
    FormulaValue(lblow, m, n, i);
    FormulaValue(lblow, m, n, j);
    var qi, ri, qj, rj := i / m, i % m, j / m, j % m;
    assert ri < m && rj < m;
    if Formula(lblow, m, i) == Formula(lblow, m, j) {
      DigitsUnique(lblow + ri, lblow + rj, qi, qj);
      DivModUnique(i, j, m);
    }
  }

  // ---------------------------------------------------------------------
  // The tidy pass

  /** CEQ and ccurrent: the corrected label of every class already met (the
      table starts zeroed, so a missing key reads 0) and the number of
      classes met. */
  datatype Tidy = Tidy(ceq: map<nat, nat>, ccurrent: nat)

  function CeqAt(t: Tidy, r: nat): nat
  {
    if r in t.ceq then t.ceq[r] else 0
  }

  /** FIND_CORRECT_LABEL on the root r: a class whose CEQ entry is still 0
      receives the next corrected label. */
  function Correct(t: Tidy, r: nat, lblow: nat, m: nat): (Tidy, nat)
    requires m > 0
  {
    if CeqAt(t, r) == 0 then
      var v := Formula(lblow, m, t.ccurrent);
      (Tidy(t.ceq[r := v], t.ccurrent + 1), v)
    else (t, t.ceq[r])
  }

  /** With lblow = 0 the first class met receives the corrected label 0,
      which is also the mark CEQ uses for a class not yet met: the first
      pixel of that class reads as background, its next pixel opens label
      1, and ccurrent counts the class twice. */
  lemma ZeroLowSplits()
    ensures Correct(Tidy(map[], 0), 5, 0, 256) == (Tidy(map[5 := 0], 1), 0)
    ensures Correct(Tidy(map[5 := 0], 1), 5, 0, 256) == (Tidy(map[5 := 1], 2), 1)
    ensures var d := TidyTo(map[(0, 0) := 5, (1, 0) := 5], 64, 0, 256, 2, 0);
      d.out == map[(0, 0) := 0, (1, 0) := 1] && d.t.ccurrent == 2
  {
    assert Formula(0, 256, 0) == 0 && Formula(0, 256, 1) == 1;
    assert map[5 := 0][5 := 1] == map[5 := 1];
  }

  /** The tidy state and the corrected labels written so far. */
  datatype Tidied = Tidied(t: Tidy, out: map<Pos, nat>)

  /** One pixel of MB_TidyLabel: a nonzero pixel (one that has a root in
      lab) takes the corrected label of its class. */
  function TidyAt(lab: map<Pos, nat>, d: Tidied, p: Pos, lblow: nat, m: nat): Tidied
    requires m > 0
  {
    if p in lab then
      var (t', v) := Correct(d.t, lab[p], lblow, m);
      Tidied(t', d.out[p := v])
    else d
  }

  /** The tidy state once every pixel before (x, y) is rewritten, lines
      of width w. */
  function TidyTo(lab: map<Pos, nat>, w: nat, lblow: nat, m: nat, x: nat, y: nat): Tidied
    requires m > 0
    decreases y, x
  {
    if x > 0 then TidyAt(lab, TidyTo(lab, w, lblow, m, x - 1, y), (x - 1, y), lblow, m)
    else if y > 0 then TidyTo(lab, w, lblow, m, w, y - 1)
    else Tidied(Tidy(map[], 0), map[])
  }

  /** Reference order: the classes before (x, y), each listed where the
      raster order first meets it. */
  function MetTo(lab: map<Pos, nat>, w: nat, x: nat, y: nat): (s: seq<nat>)
    decreases y, x
  {
    if x > 0 then
      var s := MetTo(lab, w, x - 1, y);
      if (x - 1, y) in lab && lab[(x - 1, y)] !in s then s + [lab[(x - 1, y)]] else s
    else if y > 0 then MetTo(lab, w, w, y - 1)
    else []
  }

  /** The classes of the pixels before (x, y). */
  ghost function Seen(lab: map<Pos, nat>, x: int, y: int): set<nat>
  {
    set p | p in lab && Before(p, x, y) :: lab[p]
  }

  predicate Distinct(s: seq<nat>)
  {
    forall i, j :: 0 <= i < j < |s| ==> s[i] != s[j]
  }

  /** The labelled pixels lie on lines of width w. */
  predicate OnLines(lab: map<Pos, nat>, w: nat)
  {
    forall p :: p in lab ==> 0 <= p.0 < w && 0 <= p.1
  }

  /** Every label written, and every CEQ entry, is a 32-bit word with its
      low byte in range. */
  ghost predicate LowInv(lblow: nat, m: nat, d: Tidied)
  {
    (forall r :: r in d.t.ceq ==> LowOk(lblow, m, d.t.ceq[r]) && d.t.ceq[r] < Two32)
    && (forall p :: p in d.out ==> LowOk(lblow, m, d.out[p]) && d.out[p] < Two32)
  }

  /** The tidy pass before (x, y): it has met the classes of `met`, in that
      order, given the k-th of them the k-th corrected label, and rewritten
      every labelled pixel before (x, y) with its class's label. */
  ghost predicate TidyInv(lab: map<Pos, nat>, lblow: nat, m: nat, d: Tidied, met: seq<nat>, x: int, y: int)
    requires m > 0
  {
    d.t.ccurrent == |met|
    && Distinct(met)
    && (forall r :: CeqAt(d.t, r) != 0 <==> r in met)
    && (forall k :: 0 <= k < |met| ==> CeqAt(d.t, met[k]) == Formula(lblow, m, k))
    && (forall p :: p in d.out <==> p in lab && Before(p, x, y))
    && (forall p :: p in d.out ==> lab[p] in met && d.out[p] == CeqAt(d.t, lab[p]))
    && (forall r :: r in met <==> r in Seen(lab, x, y))
  }

  lemma LowStep(lab: map<Pos, nat>, lblow: nat, m: nat, d: Tidied, p: Pos)
    requires 0 < m && lblow + m <= 256 && LowInv(lblow, m, d)
    ensures LowInv(lblow, m, TidyAt(lab, d, p, lblow, m))
  {
    if p in lab && CeqAt(d.t, lab[p]) == 0 {
      FormulaLow(lblow, m, d.t.ccurrent);
    }
  }

  /** The low byte of every label written lies in [lblow, lblow + m), for
      any lblow. */
  lemma {:induction false} TidyLow(lab: map<Pos, nat>, w: nat, lblow: nat, m: nat, x: nat, y: nat)
    requires 0 < m && lblow + m <= 256
    ensures LowInv(lblow, m, TidyTo(lab, w, lblow, m, x, y))
    decreases y, x
  {
    if x > 0 {
      TidyLow(lab, w, lblow, m, x - 1, y);
      LowStep(lab, lblow, m, TidyTo(lab, w, lblow, m, x - 1, y), (x - 1, y));
    } else if y > 0 {
      TidyLow(lab, w, lblow, m, w, y - 1);
    }
  }

  /** A pixel of a class already met takes the label the class has. */
  lemma MetStep(lab: map<Pos, nat>, lblow: nat, m: nat, d: Tidied, met: seq<nat>, x: int, y: int)
    requires 0 < m && TidyInv(lab, lblow, m, d, met, x, y)
    requires (x, y) in lab && lab[(x, y)] in met
    ensures TidyInv(lab, lblow, m, TidyAt(lab, d, (x, y), lblow, m), met, x + 1, y)
  {
    var r := lab[(x, y)];
    var d' := TidyAt(lab, d, (x, y), lblow, m);
    assert CeqAt(d.t, r) != 0;
    assert d'.t == d.t && d'.out == d.out[(x, y) := CeqAt(d.t, r)];
    SeenStep(lab, x, y);
  }

  /** Passing a labelled pixel adds its class to those seen. */
  lemma SeenStep(lab: map<Pos, nat>, x: int, y: int)
    requires (x, y) in lab
    ensures Seen(lab, x + 1, y) == Seen(lab, x, y) + {lab[(x, y)]}
  {
    forall v | v in Seen(lab, x + 1, y)
      ensures v in Seen(lab, x, y) + {lab[(x, y)]}
    {
      var p :| p in lab && Before(p, x + 1, y) && lab[p] == v;
      if p != (x, y) {
        assert Before(p, x, y);
      }
    }
    forall v | v in Seen(lab, x, y)
      ensures v in Seen(lab, x + 1, y)
    {
      var p :| p in lab && Before(p, x, y) && lab[p] == v;
      assert Before(p, x + 1, y);
    }
    assert Before((x, y), x + 1, y);
  }

  /** A pixel of a new class gives that class the next corrected label. */
  lemma NewStep(lab: map<Pos, nat>, lblow: nat, m: nat, d: Tidied, met: seq<nat>, x: int, y: int)
    requires 0 < m && lblow + m <= 256 && lblow >= 1 && TidyInv(lab, lblow, m, d, met, x, y)
    requires (x, y) in lab && lab[(x, y)] !in met
    ensures TidyInv(lab, lblow, m, TidyAt(lab, d, (x, y), lblow, m), met + [lab[(x, y)]], x + 1, y)
  {
    FormulaNonZero(lblow, m, |met|);
    SeenStep(lab, x, y);
  }

  /** An unlabelled pixel changes nothing. */
  lemma SkipStep(lab: map<Pos, nat>, lblow: nat, m: nat, d: Tidied, met: seq<nat>, x: int, y: int)
    requires 0 < m && TidyInv(lab, lblow, m, d, met, x, y)
    requires (x, y) !in lab
    ensures TidyInv(lab, lblow, m, d, met, x + 1, y)
  {
    assert Seen(lab, x + 1, y) == Seen(lab, x, y);
  }

  lemma TidyStep(lab: map<Pos, nat>, w: nat, lblow: nat, m: nat, x: nat, y: nat)
    requires 0 < m && lblow + m <= 256 && lblow >= 1
    requires TidyInv(lab, lblow, m, TidyTo(lab, w, lblow, m, x, y), MetTo(lab, w, x, y), x, y)
    ensures TidyInv(lab, lblow, m, TidyTo(lab, w, lblow, m, x + 1, y), MetTo(lab, w, x + 1, y), x + 1, y)
  {
    var d := TidyTo(lab, w, lblow, m, x, y);
    var met := MetTo(lab, w, x, y);
    if (x, y) !in lab {
      SkipStep(lab, lblow, m, d, met, x, y);
    } else if lab[(x, y)] in met {
      MetStep(lab, lblow, m, d, met, x, y);
    } else {
      NewStep(lab, lblow, m, d, met, x, y);
    }
  }

  /** The end of a line is the start of the next one. */
  lemma TidyLine(lab: map<Pos, nat>, w: nat, lblow: nat, m: nat, d: Tidied, met: seq<nat>, y: int)
    requires 0 < m && OnLines(lab, w)
    requires TidyInv(lab, lblow, m, d, met, w, y - 1)
    ensures TidyInv(lab, lblow, m, d, met, 0, y)
  {
    assert forall p :: p in lab ==> (Before(p, w, y - 1) <==> Before(p, 0, y));
    assert Seen(lab, w, y - 1) == Seen(lab, 0, y);
  }

  /** With lblow >= 1 the tidy pass follows the reference order. */
  lemma {:induction false} TidyReach(lab: map<Pos, nat>, w: nat, lblow: nat, m: nat, x: nat, y: nat)
    requires 0 < m && lblow + m <= 256 && lblow >= 1 && OnLines(lab, w) && x <= w
    ensures TidyInv(lab, lblow, m, TidyTo(lab, w, lblow, m, x, y), MetTo(lab, w, x, y), x, y)
    decreases y, x
  {
    if x > 0 {
      TidyReach(lab, w, lblow, m, x - 1, y);
      TidyStep(lab, w, lblow, m, x - 1, y);
    } else if y > 0 {
      TidyReach(lab, w, lblow, m, w, y - 1);
      TidyLine(lab, w, lblow, m, TidyTo(lab, w, lblow, m, w, y - 1), MetTo(lab, w, w, y - 1), y);
    } else {
      assert Seen(lab, 0, 0) == {};
    }
  }

  // ---------------------------------------------------------------------
  // Counting

  /** A repetition-free sequence of labels in 1 .. k has at most k
      entries. */
  lemma {:induction false} DistinctBounded(s: seq<nat>, k: nat)
    requires Distinct(s) && forall i :: 0 <= i < |s| ==> 1 <= s[i] <= k
    ensures |s| <= k
    decreases k
  {
    if |s| == 0 {
    } else if t :| 0 <= t < |s| && s[t] == k {
      var s' := s[..t] + s[t + 1..];
      assert forall i :: 0 <= i < |s'| ==> s'[i] == if i < t then s[i] else s[i + 1];
      DistinctBounded(s', k - 1);
    } else {
      assert 1 <= s[0] <= k;
      DistinctBounded(s, k - 1);
    }
  }

  /** The corrected labels of the first n classes are n different words. */
  lemma {:induction false} FormulaCount(lblow: nat, m: nat, n: nat, c: nat)
    requires 0 < m && lblow + m <= 256 && Fits(lblow, m, n) && c <= n
    ensures |FirstLabels(lblow, m, c)| == c
  {
    if c > 0 {
      FormulaCount(lblow, m, n, c - 1);
      var a := FirstLabels(lblow, m, c - 1);
      var b := FirstLabels(lblow, m, c);
      assert b == a + {Formula(lblow, m, c - 1)};
      if Formula(lblow, m, c - 1) in a {
        var k :| 0 <= k < c - 1 && Formula(lblow, m, k) == Formula(lblow, m, c - 1);
        FormulaInjective(lblow, m, n, k, c - 1);
      }
    }
  }

  // ---------------------------------------------------------------------
  // MB_Labelb

  /** The class of every set pixel once the scan, under the corrected rule,
      is over: the root its provisional label resolves to. */
  function Classes(g: Grid, src: Image): (lab: map<Pos, nat>)
  {
    var st := Scanned(g, src, Corrected);
    map p | p in st.prov :: Root(st, p)
  }

  /** The scan leaves classes exactly on the set pixels; two set pixels
      share a class iff they are connected, and every class is a label
      below labels.current. */
  lemma ClassesCorrect(g: Grid, src: Image)
    ensures forall p :: p in Classes(g, src) <==> Fg(src, p)
    ensures OnLines(Classes(g, src), src.width)
    ensures forall p, q :: p in Classes(g, src) && q in Classes(g, src) ==>
      (Classes(g, src)[p] == Classes(g, src)[q] <==> Linked(g, src, p, q))
    ensures forall p :: p in Classes(g, src) ==> 1 <= Classes(g, src)[p] <= src.width * src.height
  {
    var st := Scanned(g, src, Corrected);
    ScanCorrect(g, src, Corrected);
    ScanLabels(g, src, Corrected);
  }

  /** The image the tidy pass leaves: corrected labels on the set pixels,
      0 (MB_ConSet(dest, 0)) elsewhere. */
  function Paint(w: nat, h: nat, out: map<Pos, nat>): (im: Image)
    ensures im.width == w && im.height == h && im.depth == 32
    ensures forall p :: InsideP(im, p) ==> At(im, p) == if p in out then out[p] else 0
  {
    Make(w, h, 32, (x, y) => if (x, y) in out then out[(x, y)] else 0)
  }

  /** The distinct nonzero values of an image. */
  ghost function LabelValues(im: Image): set<nat>
  {
    set p | p in Pixels(im) && At(im, p) != 0 :: At(im, p)
  }

  /** The tidy pass over the whole image. */
  function TidyAll(g: Grid, src: Image, lblow: nat, m: nat): Tidied
    requires m > 0
  {
    TidyTo(Classes(g, src), src.width, lblow, m, 0, src.height)
  }

  /** After the whole pass every set pixel, and nothing else, carries the
      corrected label of its class, and the classes met are all the
      classes. */
  lemma TidyAllCorrect(g: Grid, src: Image, lblow: nat, m: nat)
    requires 0 < m && lblow + m <= 256 && lblow >= 1
    ensures var lab := Classes(g, src); var d := TidyAll(g, src, lblow, m);
      var met := MetTo(lab, src.width, 0, src.height);
      && d.t.ccurrent == |met| && Distinct(met)
      && (forall p :: p in d.out <==> Fg(src, p))
      && (forall p :: p in d.out ==> p in lab && lab[p] in met && d.out[p] == CeqAt(d.t, lab[p]))
      && (forall k :: 0 <= k < |met| ==> CeqAt(d.t, met[k]) == Formula(lblow, m, k))
  {
    var lab := Classes(g, src);
    ClassesCorrect(g, src);
    TidyReach(lab, src.width, lblow, m, 0, src.height);
    var met := MetTo(lab, src.width, 0, src.height);
    var d := TidyAll(g, src, lblow, m);
    assert TidyInv(lab, lblow, m, d, met, 0, src.height);
    assert forall p :: p in lab ==> Before(p, 0, src.height);
  }

  /** Every class met is the class of some pixel. */
  lemma {:induction false} MetClasses(lab: map<Pos, nat>, w: nat, x: nat, y: nat)
    ensures forall k :: 0 <= k < |MetTo(lab, w, x, y)| ==> MetTo(lab, w, x, y)[k] in lab.Values
    decreases y, x
  {
    if x > 0 {
      MetClasses(lab, w, x - 1, y);
    } else if y > 0 {
      MetClasses(lab, w, w, y - 1);
    }
  }

  /** Labels written are 32-bit words whose low byte lies in [lblow,
      lblow + m). */
  lemma TidyAllLow(g: Grid, src: Image, lblow: nat, m: nat)
    requires 0 < m && lblow + m <= 256
    ensures LowInv(lblow, m, TidyAll(g, src, lblow, m))
  {
    TidyLow(Classes(g, src), src.width, lblow, m, 0, src.height);
  }

  /** The labelled image: corrected labels of the whole tidy pass. */
  function LabelImage(g: Grid, src: Image, lblow: nat, lbhigh: nat): Image
    requires lblow < lbhigh
  {
    Paint(src.width, src.height, TidyAll(g, src, lblow, lbhigh - lblow).out)
  }

  /** The labelled image is a valid 32-bit image, 0 on the unset pixels,
      and every label's low byte lies in [lblow, lbhigh). */
  lemma LabelImageLow(g: Grid, src: Image, lblow: nat, lbhigh: nat)
    requires lblow < lbhigh <= 256
    ensures var out := LabelImage(g, src, lblow, lbhigh);
      out.width == src.width && out.height == src.height && out.depth == 32 && Valid(out)
    ensures forall p :: InsideP(src, p) && !Fg(src, p) ==> At(LabelImage(g, src, lblow, lbhigh), p) == 0
    ensures forall p :: Fg(src, p) ==> lblow <= At(LabelImage(g, src, lblow, lbhigh), p) % 256 < lbhigh
  {
    var m := lbhigh - lblow;
    var d := TidyAll(g, src, lblow, m);
    TidyAllLow(g, src, lblow, m);
    ClassesCorrect(g, src);
    TidyOutKeys(g, src, lblow, m);
    TidyAllCovers(g, src, lblow, m);
  }

  /** What MB_Labelb promises of its output image im and count n: a valid
      32-bit image the size of src, 0 on the unset pixels, every label's
      low byte in [lblow, lbhigh); with lblow >= 1 every set pixel is
      nonzero and, while no label wraps around, two set pixels share a
      label iff they are connected and n is the number of distinct labels. */
  ghost predicate LabelsOk(g: Grid, src: Image, lblow: nat, lbhigh: nat, im: Image, n: nat)
    requires lblow < lbhigh
  {
    && im.width == src.width && im.height == src.height && im.depth == 32 && Valid(im)
    && (forall p :: InsideP(src, p) && !Fg(src, p) ==> At(im, p) == 0)
    && (forall p :: Fg(src, p) ==> lblow <= At(im, p) % 256 < lbhigh)
    && (lblow >= 1 ==> forall p :: Fg(src, p) ==> At(im, p) != 0)
    && (lblow >= 1 && Fits(lblow, lbhigh - lblow, src.width * src.height) ==>
         forall p, q :: Fg(src, p) && Fg(src, q) ==> (At(im, p) == At(im, q) <==> Linked(g, src, p, q)))
    && (lblow >= 1 && Fits(lblow, lbhigh - lblow, src.width * src.height) ==> n == |LabelValues(im)|)
  }

  /** The labelled image and the object count of a legal call. */
  function Labelled(g: Grid, src: Image, lblow: nat, lbhigh: nat): (r: (Image, nat))
    requires lblow < lbhigh <= 256
    ensures LabelsOk(g, src, lblow, lbhigh, r.0, r.1)
  {
    LabelledOk(g, src, lblow, lbhigh);
    (LabelImage(g, src, lblow, lbhigh), TidyAll(g, src, lblow, lbhigh - lblow).t.ccurrent)
  }

  lemma LabelledOk(g: Grid, src: Image, lblow: nat, lbhigh: nat)
    requires lblow < lbhigh <= 256
    ensures LabelsOk(g, src, lblow, lbhigh, LabelImage(g, src, lblow, lbhigh), TidyAll(g, src, lblow, lbhigh - lblow).t.ccurrent)
  {
    LabelImageLow(g, src, lblow, lbhigh);
    LabelImageClasses(g, src, lblow, lbhigh);
  }

  /** MB_Labelb: labels the connected components of the set pixels of the
      binary image src into a 32-bit image the size of dest, and returns it
      with the number of components (see LabelsOk).  The labels come from
      the scan under the corrected rule; see Labelling.Rule. */
  function Labelb(src: Image, dest: Image, lblow: nat, lbhigh: nat, g: Grid): (r: Result<(Image, nat)>)
    ensures r.Ok? <==> SameSize(src, dest) && Probe(src, dest) == Pair1x32 && lblow < lbhigh <= 256
    ensures !SameSize(src, dest) ==> r == Fail(BadSize)
    ensures SameSize(src, dest) && Probe(src, dest) != Pair1x32 ==> r == Fail(BadDepth)
    ensures SameSize(src, dest) && Probe(src, dest) == Pair1x32 && !(lblow < lbhigh <= 256) ==> r == Fail(BadValue)
    ensures r.Ok? ==> r.value.0.width == dest.width && r.value.0.height == dest.height
    ensures r.Ok? ==> LabelsOk(g, src, lblow, lbhigh, r.value.0, r.value.1)
  {
    if !SameSize(src, dest) then Fail(BadSize)
    else if Probe(src, dest) != Pair1x32 then Fail(BadDepth)
    else if lblow >= lbhigh || lbhigh > 256 then Fail(BadValue)
    else Ok(Labelled(g, src, lblow, lbhigh))
  }

  /** MB_Labelb with the value check extended to lblow = 0, so that no
      class is ever given the label 0: every set pixel of the result is
      nonzero and, while no label wraps around, labels follow connectivity
      and the count is the number of distinct labels. */
  function LabelbChecked(src: Image, dest: Image, lblow: nat, lbhigh: nat, g: Grid): (r: Result<(Image, nat)>)
    ensures r.Ok? <==> SameSize(src, dest) && Probe(src, dest) == Pair1x32 && 1 <= lblow < lbhigh <= 256
    ensures !SameSize(src, dest) ==> r == Fail(BadSize)
    ensures SameSize(src, dest) && Probe(src, dest) != Pair1x32 ==> r == Fail(BadDepth)
    ensures SameSize(src, dest) && Probe(src, dest) == Pair1x32 && !(1 <= lblow < lbhigh <= 256) ==> r == Fail(BadValue)
    ensures r.Ok? ==> r.value.0.width == dest.width && r.value.0.height == dest.height
    ensures r.Ok? ==> forall p :: Fg(src, p) ==> At(r.value.0, p) != 0
    ensures r.Ok? && Fits(lblow, lbhigh - lblow, src.width * src.height) ==>
      forall p, q :: Fg(src, p) && Fg(src, q) ==> (At(r.value.0, p) == At(r.value.0, q) <==> Linked(g, src, p, q))
    ensures r.Ok? && Fits(lblow, lbhigh - lblow, src.width * src.height) ==> r.value.1 == |LabelValues(r.value.0)|
  {
    if lblow == 0 && SameSize(src, dest) && Probe(src, dest) == Pair1x32 then Fail(BadValue)
    else Labelb(src, dest, lblow, lbhigh, g)
  }

  /** Wherever the checked operator succeeds it returns what MB_Labelb
      returns. */
  lemma LabelbCheckedAgrees(src: Image, dest: Image, lblow: nat, lbhigh: nat, g: Grid)
    requires lblow >= 1
    ensures LabelbChecked(src, dest, lblow, lbhigh, g) == Labelb(src, dest, lblow, lbhigh, g)
  {
  }

  /** The tidy pass writes the set pixels only. */
  lemma TidyOutKeys(g: Grid, src: Image, lblow: nat, m: nat)
    requires m > 0
    ensures forall p :: p in TidyAll(g, src, lblow, m).out ==> Fg(src, p)
  {
    TidyKeys(Classes(g, src), src.width, lblow, m, 0, src.height);
    ClassesCorrect(g, src);
  }

  lemma {:induction false} TidyKeys(lab: map<Pos, nat>, w: nat, lblow: nat, m: nat, x: nat, y: nat)
    requires m > 0
    ensures TidyTo(lab, w, lblow, m, x, y).out.Keys <= lab.Keys
    decreases y, x
  {
    if x > 0 {
      TidyKeys(lab, w, lblow, m, x - 1, y);
    } else if y > 0 {
      TidyKeys(lab, w, lblow, m, w, y - 1);
    }
  }

  /** Every set pixel is rewritten by the pass, whatever lblow. */
  lemma TidyAllCovers(g: Grid, src: Image, lblow: nat, m: nat)
    requires m > 0
    ensures forall p :: Fg(src, p) ==> p in TidyAll(g, src, lblow, m).out
  {
    ClassesCorrect(g, src);
    TidyCovers(Classes(g, src), src.width, lblow, m, 0, src.height);
  }

  lemma {:induction false} TidyCovers(lab: map<Pos, nat>, w: nat, lblow: nat, m: nat, x: nat, y: nat)
    requires m > 0 && OnLines(lab, w) && x <= w
    ensures forall p :: p in lab && Before(p, x, y) ==> p in TidyTo(lab, w, lblow, m, x, y).out
    decreases y, x
  {
    if x > 0 {
      TidyCovers(lab, w, lblow, m, x - 1, y);
    } else if y > 0 {
      TidyCovers(lab, w, lblow, m, w, y - 1);
    }
  }

  /** A set pixel carries the corrected label of the place its class holds
      in the reference order. */
  lemma OutFormula(g: Grid, src: Image, lblow: nat, m: nat, p: Pos) returns (k: nat)
    requires 0 < m && lblow + m <= 256 && lblow >= 1 && Fg(src, p)
    ensures var met := MetTo(Classes(g, src), src.width, 0, src.height);
      k < |met| && p in Classes(g, src) && Classes(g, src)[p] == met[k]
    ensures p in TidyAll(g, src, lblow, m).out && TidyAll(g, src, lblow, m).out[p] == Formula(lblow, m, k)
  {
    TidyAllCorrect(g, src, lblow, m);
    var lab := Classes(g, src);
    var met := MetTo(lab, src.width, 0, src.height);
    k :| 0 <= k < |met| && met[k] == lab[p];
  }

  /** There are no more classes than pixels. */
  lemma MetBound(g: Grid, src: Image, lblow: nat, m: nat)
    requires 0 < m && lblow + m <= 256 && lblow >= 1
    ensures |MetTo(Classes(g, src), src.width, 0, src.height)| <= src.width * src.height
  {
    var lab := Classes(g, src);
    var met := MetTo(lab, src.width, 0, src.height);
    TidyAllCorrect(g, src, lblow, m);
    ClassesCorrect(g, src);
    MetClasses(lab, src.width, 0, src.height);
    DistinctBounded(met, src.width * src.height);
  }

  /** The reference order lists each class once, no more of them than
      pixels, and the pass counts exactly those. */
  lemma MetFacts(g: Grid, src: Image, lblow: nat, m: nat)
    requires 0 < m && lblow + m <= 256 && lblow >= 1
    ensures var met := MetTo(Classes(g, src), src.width, 0, src.height);
      Distinct(met) && |met| <= src.width * src.height && TidyAll(g, src, lblow, m).t.ccurrent == |met|
  {
    TidyAllCorrect(g, src, lblow, m);
    MetBound(g, src, lblow, m);
  }

  /** With lblow >= 1 every set pixel gets a nonzero label. */
  lemma LabelsNonZero(g: Grid, src: Image, lblow: nat, lbhigh: nat)
    requires 1 <= lblow < lbhigh <= 256
    ensures forall p :: Fg(src, p) ==> At(LabelImage(g, src, lblow, lbhigh), p) != 0
  {
    forall p | Fg(src, p)
      ensures At(LabelImage(g, src, lblow, lbhigh), p) != 0
    {
      var k := OutFormula(g, src, lblow, lbhigh - lblow, p);
      FormulaNonZero(lblow, lbhigh - lblow, k);
    }
  }

  /** While no label wraps around, two set pixels carry the same label iff
      they are connected. */
  lemma LabelsLinked(g: Grid, src: Image, lblow: nat, lbhigh: nat)
    requires 1 <= lblow < lbhigh <= 256 && Fits(lblow, lbhigh - lblow, src.width * src.height)
    ensures forall p, q :: Fg(src, p) && Fg(src, q) ==>
      (At(LabelImage(g, src, lblow, lbhigh), p) == At(LabelImage(g, src, lblow, lbhigh), q) <==> Linked(g, src, p, q))
  {
    forall p, q | Fg(src, p) && Fg(src, q)
      ensures At(LabelImage(g, src, lblow, lbhigh), p) == At(LabelImage(g, src, lblow, lbhigh), q) <==> Linked(g, src, p, q)
    {
      PairLinked(g, src, lblow, lbhigh, p, q);
    }
  }

  lemma PairLinked(g: Grid, src: Image, lblow: nat, lbhigh: nat, p: Pos, q: Pos)
    requires 1 <= lblow < lbhigh <= 256 && Fits(lblow, lbhigh - lblow, src.width * src.height)
    requires Fg(src, p) && Fg(src, q)
    ensures At(LabelImage(g, src, lblow, lbhigh), p) == At(LabelImage(g, src, lblow, lbhigh), q) <==> Linked(g, src, p, q)
  {
    var m := lbhigh - lblow;
    var n := src.width * src.height;
    var lab := Classes(g, src);
    var met := MetTo(lab, src.width, 0, src.height);
    ClassPair(g, src, p, q);
    MetFacts(g, src, lblow, m);
    var kp := OutFormula(g, src, lblow, m, p);
    var kq := OutFormula(g, src, lblow, m, q);
    assert kp < n && kq < n;
    FormulaInjective(lblow, m, n, kp, kq);
    assert lab[p] == lab[q] <==> kp == kq;
  }

  /** Two set pixels share a class iff they are connected. */
  lemma ClassPair(g: Grid, src: Image, p: Pos, q: Pos)
    requires Fg(src, p) && Fg(src, q)
    ensures p in Classes(g, src) && q in Classes(g, src)
    ensures Classes(g, src)[p] == Classes(g, src)[q] <==> Linked(g, src, p, q)
  {
    ClassesCorrect(g, src);
  }

  /** The corrected labels of the first c classes. */
  ghost function FirstLabels(lblow: nat, m: nat, c: nat): set<nat>
    requires m > 0
  {
    set k | 0 <= k < c :: Formula(lblow, m, k)
  }

  /** While no label wraps around, the count returned is the number of
      distinct labels in the image. */
  lemma LabelsCount(g: Grid, src: Image, lblow: nat, lbhigh: nat)
    requires 1 <= lblow < lbhigh <= 256 && Fits(lblow, lbhigh - lblow, src.width * src.height)
    ensures TidyAll(g, src, lblow, lbhigh - lblow).t.ccurrent == |LabelValues(LabelImage(g, src, lblow, lbhigh))|
  {
    var m := lbhigh - lblow;
    var met := MetTo(Classes(g, src), src.width, 0, src.height);
    var im := LabelImage(g, src, lblow, lbhigh);
    MetFacts(g, src, lblow, m);
    ValuesFormulas(g, src, lblow, lbhigh);
    FormulasValues(g, src, lblow, lbhigh);
    assert LabelValues(im) == FirstLabels(lblow, m, |met|);
    FormulaCount(lblow, m, src.width * src.height, |met|);
  }

  lemma ValuesFormulas(g: Grid, src: Image, lblow: nat, lbhigh: nat)
    requires 1 <= lblow < lbhigh <= 256
    ensures LabelValues(LabelImage(g, src, lblow, lbhigh))
      <= FirstLabels(lblow, lbhigh - lblow, |MetTo(Classes(g, src), src.width, 0, src.height)|)
  {
    var im := LabelImage(g, src, lblow, lbhigh);
    forall v | v in LabelValues(im)
      ensures v in FirstLabels(lblow, lbhigh - lblow, |MetTo(Classes(g, src), src.width, 0, src.height)|)
    {
      var p :| p in Pixels(im) && At(im, p) != 0 && At(im, p) == v;
      PixelFormula(g, src, lblow, lbhigh, p);
    }
  }

  /** A nonzero pixel carries one of the corrected labels handed out. */
  lemma PixelFormula(g: Grid, src: Image, lblow: nat, lbhigh: nat, p: Pos)
    requires 1 <= lblow < lbhigh <= 256
    requires InsideP(src, p) && At(LabelImage(g, src, lblow, lbhigh), p) != 0
    ensures At(LabelImage(g, src, lblow, lbhigh), p)
      in FirstLabels(lblow, lbhigh - lblow, |MetTo(Classes(g, src), src.width, 0, src.height)|)
  {
    var m := lbhigh - lblow;
    TidyOutKeys(g, src, lblow, m);
    var k := OutFormula(g, src, lblow, m, p);
  }

  lemma FormulasValues(g: Grid, src: Image, lblow: nat, lbhigh: nat)
    requires 1 <= lblow < lbhigh <= 256
    ensures FirstLabels(lblow, lbhigh - lblow, |MetTo(Classes(g, src), src.width, 0, src.height)|)
      <= LabelValues(LabelImage(g, src, lblow, lbhigh))
  {
    var m := lbhigh - lblow;
    var met := MetTo(Classes(g, src), src.width, 0, src.height);
    forall v | v in FirstLabels(lblow, m, |met|)
      ensures v in LabelValues(LabelImage(g, src, lblow, lbhigh))
    {
      var k :| 0 <= k < |met| && Formula(lblow, m, k) == v;
      FormulaPainted(g, src, lblow, lbhigh, k);
    }
  }

  /** The k-th corrected label is painted on some pixel. */
  lemma FormulaPainted(g: Grid, src: Image, lblow: nat, lbhigh: nat, k: nat)
    requires 1 <= lblow < lbhigh <= 256
    requires k < |MetTo(Classes(g, src), src.width, 0, src.height)|
    ensures Formula(lblow, lbhigh - lblow, k) in LabelValues(LabelImage(g, src, lblow, lbhigh))
  {
    var m := lbhigh - lblow;
    var im := LabelImage(g, src, lblow, lbhigh);
    var p := ClassOf(g, src, k);
    MetFacts(g, src, lblow, m);
    var k' := OutFormula(g, src, lblow, m, p);
    assert k' == k;
    FormulaNonZero(lblow, m, k);
    assert p in Pixels(im) && At(im, p) == Formula(lblow, m, k);
  }

  /** Every class met has a set pixel. */
  lemma ClassOf(g: Grid, src: Image, k: nat) returns (p: Pos)
    requires k < |MetTo(Classes(g, src), src.width, 0, src.height)|
    ensures Fg(src, p) && p in Classes(g, src)
    ensures Classes(g, src)[p] == MetTo(Classes(g, src), src.width, 0, src.height)[k]
  {
    var lab := Classes(g, src);
    var met := MetTo(lab, src.width, 0, src.height);
    MetClasses(lab, src.width, 0, src.height);
    assert met[k] in lab.Values;
    p :| p in lab && lab[p] == met[k];
    ClassesCorrect(g, src);
  }

  /** With lblow >= 1: set pixels are nonzero, and while no label wraps
      around, labels follow connectivity and the count is the number of
      distinct labels. */
  lemma LabelImageClasses(g: Grid, src: Image, lblow: nat, lbhigh: nat)
    requires lblow < lbhigh <= 256
    ensures lblow >= 1 ==> forall p :: Fg(src, p) ==> At(LabelImage(g, src, lblow, lbhigh), p) != 0
    ensures lblow >= 1 && Fits(lblow, lbhigh - lblow, src.width * src.height) ==>
      forall p, q :: Fg(src, p) && Fg(src, q) ==>
        (At(LabelImage(g, src, lblow, lbhigh), p) == At(LabelImage(g, src, lblow, lbhigh), q) <==> Linked(g, src, p, q))
    ensures lblow >= 1 && Fits(lblow, lbhigh - lblow, src.width * src.height) ==>
      TidyAll(g, src, lblow, lbhigh - lblow).t.ccurrent == |LabelValues(LabelImage(g, src, lblow, lbhigh))|
  {
    if lblow >= 1 {
      LabelsNonZero(g, src, lblow, lbhigh);
      if Fits(lblow, lbhigh - lblow, src.width * src.height) {
        LabelsLinked(g, src, lblow, lbhigh);
        LabelsCount(g, src, lblow, lbhigh);
      }
    }
  }
}
