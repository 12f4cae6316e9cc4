// MB_HierarBld: the reconstruction of an 8-bit marker under an 8-bit mask by
// a hierarchical queue.  Every pixel starts at min(marker, mask) and is
// queued at that level; the levels are flooded from 255 down to 0, and each
// token taken off the queue raises its still unreached neighbours to
// min(its value, their mask) and queues them at that level.

module HierarBuild {
  import opened Common
  import opened Images
  import opened Directions
  import opened HierQueue
  import DirBuild
  import Geodesy

  /** The working state of the flooding: the image being rebuilt, the 256
      lists, and the status of every pixel.  Pixels in `cands` are CANDIDATE
      (status 0: not reached from any neighbour yet), pixels in `finals` are
      FINAL (status 0xff: their neighbours have been visited); every other
      pixel of the image is QUEUED (status 1). */
  datatype State = State(im: Image, q: seq<seq<Pos>>, cands: set<Pos>, finals: set<Pos>)

  /** The marker clipped by the mask: the value the initialisation writes to
      every pixel of srcdest. */
  function Clip(mask: Image, marker: Image): (r: Image)
    ensures SameSize(r, marker) && r.depth == 8 && Shaped(r.pix, r.width, r.height)
    ensures forall x, y :: Inside(r, x, y) ==> Get(r, x, y) == Min(Get(marker, x, y), Get(mask, x, y))
  {
    Make(marker.width, marker.height, 8, (x, y) => Min(Get(marker, x, y), Get(mask, x, y)))
  }

  // ---------------------------------------------------------------------
  // The invariant of the flooding

  /** The shape of the state: an 8-bit image of the mask's size, 256 lists,
      and the two status sets inside the image and disjoint. */
  predicate Shape(mask: Image, s: State)
  {
    s.im.width == mask.width && s.im.height == mask.height && s.im.depth == 8
    && Shaped(s.im.pix, s.im.width, s.im.height) && |s.q| == 256
    && s.cands !! s.finals
    && (forall p :: p in s.cands ==> InsideP(s.im, p))
    && (forall p :: p in s.finals ==> InsideP(s.im, p))
  }

  /** Every token names a pixel whose current value is at least its level. */
  predicate TokensAbove(s: State)
  {
    forall l, k :: 0 <= l < |s.q| && 0 <= k < |s.q[l]| ==> InsideP(s.im, s.q[l][k]) && At(s.im, s.q[l][k]) >= l
  }

  /** Every pixel has its initial token in the list of its starting value. */
  ghost predicate InitQueued(start: Image, s: State)
  {
    forall x, y {:trigger Inside(start, x, y)} :: Inside(start, x, y) ==> Get(start, x, y) < |s.q| && (x, y) in s.q[Get(start, x, y)]
  }

  /** A CANDIDATE pixel still has its starting value, which is at most the
      water level. */
  predicate CandsBelow(start: Image, s: State, level: int)
  {
    forall p :: p in s.cands ==> At(s.im, p) == At(start, p) && At(start, p) <= level
  }

  /** A QUEUED pixel sits in the list of its value, which is at most the
      water level and at least min(level, its mask). */
  ghost predicate QueuedBelow(mask: Image, s: State, level: int)
  {
    forall x, y {:trigger Inside(s.im, x, y)} :: Inside(s.im, x, y) && (x, y) !in s.cands && (x, y) !in s.finals ==>
      Get(s.im, x, y) <= level && Get(s.im, x, y) < |s.q| && (x, y) in s.q[Get(s.im, x, y)]
      && Get(s.im, x, y) >= Min(level, Get(mask, x, y))
  }

  /** A FINAL pixel is at least at the given level. */
  predicate FinalsAbove(s: State, level: int)
  {
    forall p :: p in s.finals ==> At(s.im, p) >= level
  }

  /** The invariant shared by every point of the flooding of one level. */
  ghost predicate Inv(mask: Image, start: Image, s: State, level: int)
  {
    Shape(mask, s) && Le(start, s.im) && Le(s.im, mask)
    && TokensAbove(s) && InitQueued(start, s)
    && CandsBelow(start, s, level) && QueuedBelow(mask, s, level)
  }

  /** The neighbour of p in direction d has been reached and holds at least
      min(p's value, its own mask). */
  predicate ClosedAt(mask: Image, g: Grid, s: State, p: Pos, d: int)
  {
    InsideP(s.im, Step(g, d, p)) ==>
      Step(g, d, p) !in s.cands && At(s.im, Step(g, d, p)) >= Min(At(s.im, p), At(mask, Step(g, d, p)))
  }

  /** Every neighbour of every FINAL pixel is closed. */
  predicate Closed(mask: Image, g: Grid, s: State)
  {
    forall p, d :: p in s.finals && 1 <= d <= Neighbors(g) ==> ClosedAt(mask, g, s, p, d)
  }

  /** Closed, except for the directions d0 and above of the pixel p0 whose
      neighbours are being visited. */
  predicate ClosedBut(mask: Image, g: Grid, s: State, p0: Pos, d0: int)
  {
    forall p, d :: p in s.finals && 1 <= d <= Neighbors(g) && (p != p0 || d < d0) ==> ClosedAt(mask, g, s, p, d)
  }

  /** Every list of q' extends the same list of q. */
  predicate Grown(q: seq<seq<Pos>>, q': seq<seq<Pos>>)
  {
    |q'| == |q| && forall l :: 0 <= l < |q| ==> q[l] <= q'[l]
  }

  /** The image lies below every candidate reconstruction of the start:
      nothing the flooding writes can exceed the least one. */
  ghost predicate Least(mask: Image, start: Image, g: Grid, im: Image)
  {
    forall b :: Geodesy.Above(mask, start, g, b) ==> Le(im, b)
  }

  // ---------------------------------------------------------------------
  // Visiting one neighbour

  /** The update a visit makes to a CANDIDATE neighbour n: its value becomes
      nv, a token is appended to the list of level nv, and it leaves the
      candidates. */
  predicate Raised(s: State, s': State, n: Pos, nv: nat)
  {
    Shaped(s.im.pix, s.im.width, s.im.height) && InsideP(s.im, n) && n in s.cands && nv < |s.q|
    && s'.im == SetAt(s.im, n.0, n.1, nv) && s'.q == Enqueue(s.q, nv, n)
    && s'.cands == s.cands - {n} && s'.finals == s.finals
  }

  lemma RaisedBounds(mask: Image, start: Image, s: State, s': State, n: Pos, nv: nat)
    requires Raised(s, s', n, nv) && Le(start, s.im) && Le(s.im, mask)
    requires At(start, n) <= nv <= At(mask, n)
    ensures Le(start, s'.im) && Le(s'.im, mask)
  {
  }

  lemma RaisedTokens(s: State, s': State, n: Pos, nv: nat)
    requires Raised(s, s', n, nv) && TokensAbove(s) && At(s.im, n) <= nv
    ensures TokensAbove(s')
  {
    forall l, k | 0 <= l < |s'.q| && 0 <= k < |s'.q[l]|
      ensures InsideP(s'.im, s'.q[l][k]) && At(s'.im, s'.q[l][k]) >= l
    {
      if l == nv && k == |s.q[l]| {
        assert s'.q[l][k] == n;
      } else {
        assert s'.q[l][k] == s.q[l][k];
      }
    }
  }

  lemma RaisedQueued(mask: Image, start: Image, s: State, s': State, level: int, n: Pos, nv: nat)
    requires Raised(s, s', n, nv) && nv == Min(level, At(mask, n))
    requires InitQueued(start, s) && QueuedBelow(mask, s, level) && CandsBelow(start, s, level)
    ensures InitQueued(start, s') && QueuedBelow(mask, s', level) && CandsBelow(start, s', level)
  {
    forall x, y | Inside(s'.im, x, y) && (x, y) !in s'.cands && (x, y) !in s'.finals
      ensures Get(s'.im, x, y) <= level && Get(s'.im, x, y) < |s'.q| && (x, y) in s'.q[Get(s'.im, x, y)]
        && Get(s'.im, x, y) >= Min(level, Get(mask, x, y))
    {
      if (x, y) == n {
        assert s'.q[nv] == s.q[nv] + [n];
      } else {
        assert Inside(s.im, x, y);
        assert s.q[Get(s.im, x, y)] <= s'.q[Get(s.im, x, y)];
      }
    }
    forall x, y | Inside(start, x, y)
      ensures Get(start, x, y) < |s'.q| && (x, y) in s'.q[Get(start, x, y)]
    {
      assert s.q[Get(start, x, y)] <= s'.q[Get(start, x, y)];
    }
  }

  lemma RaisedClosed(mask: Image, g: Grid, s: State, s': State, p: Pos, d: int, n: Pos, nv: nat)
    requires Raised(s, s', n, nv) && ClosedBut(mask, g, s, p, d) && p in s.finals && s.cands !! s.finals
    requires n == Step(g, d, p) && nv == Min(At(s.im, p), At(mask, n)) && p != n
    ensures ClosedBut(mask, g, s', p, d + 1)
  {
    forall f, e | f in s'.finals && 1 <= e <= Neighbors(g) && (f != p || e < d + 1)
      ensures ClosedAt(mask, g, s', f, e)
    {
      if f != p || e != d {
        assert ClosedAt(mask, g, s, f, e);
      } else {
        assert At(s'.im, p) == At(s.im, p) && At(s'.im, n) == nv;
      }
    }
  }

  /** Raising a CANDIDATE neighbour keeps the invariant. */
  lemma RaisedInv(mask: Image, start: Image, s: State, s': State, level: nat, n: Pos)
    requires level < 256 && Le(start, mask)
    requires Inv(mask, start, s, level)
    requires Raised(s, s', n, Min(level, At(mask, n)))
    ensures Inv(mask, start, s', level)
  {
    var nv := Min(level, At(mask, n));
    assert At(start, n) <= At(mask, n) by {
      assert Inside(start, n.0, n.1);
    }
    RaisedBounds(mask, start, s, s', n, nv);
    RaisedTokens(s, s', n, nv);
    RaisedQueued(mask, start, s, s', level, n, nv);
  }

  /** Raising a CANDIDATE neighbour keeps the FINAL pixels, closes one more
      direction of p, and only appends to a list of the current level or
      below. */
  lemma RaisedKeeps(mask: Image, g: Grid, s: State, s': State, level: nat, p: Pos, d: nat)
    requires level < 256 && Shape(mask, s)
    requires FinalsAbove(s, level) && ClosedBut(mask, g, s, p, d)
    requires p in s.finals && At(s.im, p) == level && 1 <= d <= Neighbors(g)
    requires Raised(s, s', Step(g, d, p), Min(level, At(mask, Step(g, d, p))))
    ensures FinalsAbove(s', level) && ClosedBut(mask, g, s', p, d + 1)
    ensures At(s'.im, p) == level
    ensures Grown(s.q, s'.q) && (forall l :: level < l < 256 ==> s'.q[l] == s.q[l])
  {
    var n := Step(g, d, p);
    RaisedClosed(mask, g, s, s', p, d, n, Min(level, At(mask, n)));
    assert FinalsAbove(s', level) by {
      forall f | f in s'.finals
        ensures At(s'.im, f) >= level
      {
        assert f != n && At(s'.im, f) == At(s.im, f);
      }
    }
    assert Grown(s.q, s'.q) by {
      forall l | 0 <= l < |s.q|
        ensures s.q[l] <= s'.q[l]
      {
      }
    }
  }

  /** Raising the neighbour n of p to min(p's value, n's mask) stays below
      every candidate: a candidate already holds that much at n. */
  lemma RaisedLeast(mask: Image, start: Image, g: Grid, s: State, s': State, p: Pos, d: nat)
    requires 1 <= d <= Neighbors(g) && InsideP(s.im, p)
    requires Raised(s, s', Step(g, d, p), Min(At(s.im, p), At(mask, Step(g, d, p))))
    requires Least(mask, start, g, s.im)
    ensures Least(mask, start, g, s'.im)
  {
    var n := Step(g, d, p);
    forall b | Geodesy.Above(mask, start, g, b)
      ensures Le(s'.im, b)
    {
      assert Le(s.im, b);
      assert Inside(s.im, p.0, p.1) && Inside(b, p.0, p.1) && InsideP(b, n);
      assert At(b, n) >= Min(Get(b, p.0, p.1), At(mask, n));
      forall x, y | Inside(s'.im, x, y)
        ensures Get(s'.im, x, y) <= Get(b, x, y)
      {
        if (x, y) != n {
          assert Inside(s.im, x, y);
        }
      }
    }
  }

  /** A neighbour outside the image or already reached is already closed. */
  lemma SkipCloses(mask: Image, g: Grid, s: State, level: nat, p: Pos, d: nat)
    requires QueuedBelow(mask, s, level) && FinalsAbove(s, level) && ClosedBut(mask, g, s, p, d)
    requires p in s.finals && At(s.im, p) == level && 1 <= d <= Neighbors(g)
    requires !(InsideP(s.im, Step(g, d, p)) && Step(g, d, p) in s.cands)
    ensures ClosedBut(mask, g, s, p, d + 1)
  {
    var n := Step(g, d, p);
    if InsideP(s.im, n) {
      if n !in s.finals {
        assert Inside(s.im, n.0, n.1) && n.0 == n.0 && Get(s.im, n.0, n.1) >= Min(level, Get(mask, n.0, n.1));
      }
      assert ClosedAt(mask, g, s, p, d);
    }
  }

  /** The visit of the neighbour n by the FINAL pixel being processed, at
      water level `level`: a CANDIDATE inside the image takes min(level, its
      mask) and is queued at that level; anything else is left alone. */
  function Visit(mask: Image, s: State, level: nat, n: Pos): (r: State)
    requires Shaped(s.im.pix, s.im.width, s.im.height) && |s.q| == 256 && level < 256
  {
    if InsideP(s.im, n) && n in s.cands then
      var nv := Min(level, At(mask, n));
      State(SetAt(s.im, n.0, n.1, nv), Enqueue(s.q, nv, n), s.cands - {n}, s.finals)
    else
      s
  }

  /** The state of the flooding while the tokens of `level` are read. */
  ghost predicate Flooding(mask: Image, start: Image, g: Grid, s: State, level: nat)
  {
    level < 256 && Le(start, mask)
    && Inv(mask, start, s, level) && FinalsAbove(s, level) && Closed(mask, g, s)
    && Least(mask, start, g, s.im)
  }

  /** The state while p, of value `level`, visits its neighbours: directions
      below d are done. */
  ghost predicate Visiting(mask: Image, start: Image, g: Grid, s0: State, s: State, level: nat, p: Pos, d: nat)
  {
    level < 256 && Le(start, mask) && 1 <= d <= Neighbors(g) + 1
    && Inv(mask, start, s, level) && FinalsAbove(s, level) && ClosedBut(mask, g, s, p, d)
    && s.finals == s0.finals + {p} && At(s.im, p) == level
    && Progress(s0, s, level) && Least(mask, start, g, s.im)
  }

  /** How the state may move while tokens of `level` are processed: the
      lists only grow, those above `level` not at all, the candidates only
      shrink, and the lists change only when the candidates do. */
  predicate Progress(s0: State, s: State, level: nat)
  {
    Grown(s0.q, s.q) && (forall l :: level < l < |s0.q| ==> s.q[l] == s0.q[l])
    && s.cands <= s0.cands && (s.cands == s0.cands ==> s.q == s0.q)
  }

  lemma GrownTransitive(q0: seq<seq<Pos>>, q1: seq<seq<Pos>>, q2: seq<seq<Pos>>)
    requires Grown(q0, q1) && Grown(q1, q2)
    ensures Grown(q0, q2)
  {
    forall l | 0 <= l < |q0|
      ensures q0[l] <= q2[l]
    {
      assert q0[l] <= q1[l] && q1[l] <= q2[l];
      assert q2[l][..|q1[l]|][..|q0[l]|] == q2[l][..|q0[l]|];
    }
  }

  /** Making a non-FINAL token of `level` FINAL starts the visit of its
      neighbours; its value is exactly the water level. */
  lemma StartVisit(mask: Image, start: Image, g: Grid, s: State, level: nat, p: Pos)
    requires Flooding(mask, start, g, s, level)
    requires InsideP(s.im, p) && At(s.im, p) >= level && p !in s.finals
    ensures Visiting(mask, start, g, s, s.(cands := s.cands - {p}, finals := s.finals + {p}), level, p, 1)
  {
    var s' := s.(cands := s.cands - {p}, finals := s.finals + {p});
    assert At(s.im, p) <= level by {
      if p !in s.cands {
        assert Inside(s.im, p.0, p.1);
      }
    }
    assert ClosedBut(mask, g, s', p, 1) by {
      forall f, e | f in s'.finals && 1 <= e <= Neighbors(g) && (f != p || e < 1)
        ensures ClosedAt(mask, g, s', f, e)
      {
        assert ClosedAt(mask, g, s, f, e);
      }
    }
    assert Grown(s.q, s'.q);
  }

  /** One visit moves the neighbour loop one direction on. */
  lemma VisitStep(mask: Image, start: Image, g: Grid, s0: State, s: State, level: nat, p: Pos, d: nat)
    requires Visiting(mask, start, g, s0, s, level, p, d) && d <= Neighbors(g)
    ensures Visiting(mask, start, g, s0, Visit(mask, s, level, Step(g, d, p)), level, p, d + 1)
  {
    var n := Step(g, d, p);
    var next := Visit(mask, s, level, n);
    if InsideP(s.im, n) && n in s.cands {
      assert Raised(s, next, n, Min(level, At(mask, n)));
      RaisedInv(mask, start, s, next, level, n);
      RaisedKeeps(mask, g, s, next, level, p, d);
      RaisedLeast(mask, start, g, s, next, p, d);
      GrownTransitive(s0.q, s.q, next.q);
    } else {
      SkipCloses(mask, g, s, level, p, d);
    }
  }

  /** Once every direction is visited the state is a flooding state again,
      with p FINAL. */
  lemma VisitDone(mask: Image, start: Image, g: Grid, s0: State, s: State, level: nat, p: Pos)
    requires Visiting(mask, start, g, s0, s, level, p, Neighbors(g) + 1)
    ensures Flooding(mask, start, g, s, level) && p in s.finals && s0.finals <= s.finals
  {
  }

  /** MB_InsertNeighbors_square / MB_InsertNeighbors_hexagonal: a token of a
      pixel already FINAL is skipped; otherwise the pixel becomes FINAL and
      visits its neighbours in the order of the direction table. */
  method Process(mask: Image, start: Image, g: Grid, s: State, level: nat, p: Pos) returns (s': State)
    requires Flooding(mask, start, g, s, level)
    requires InsideP(s.im, p) && At(s.im, p) >= level
    ensures Flooding(mask, start, g, s', level) && Progress(s, s', level)
    ensures p in s'.finals && s.finals <= s'.finals
  {
    if p in s.finals {
      return s;
    }
    s' := s.(cands := s.cands - {p}, finals := s.finals + {p});
    StartVisit(mask, start, g, s, level, p);
    var d := 1;
    while d <= Neighbors(g)
      invariant Visiting(mask, start, g, s, s', level, p, d)
    {
      VisitStep(mask, start, g, s, s', level, p, d);
      s' := Visit(mask, s', level, Step(g, d, p));
      d := d + 1;
    }
    VisitDone(mask, start, g, s, s', level, p);
  }

  // ---------------------------------------------------------------------
  // Flooding the levels

  /** The state of the flooding between two levels: the levels above
      `level` are done. */
  ghost predicate Between(mask: Image, start: Image, g: Grid, s: State, level: int)
  {
    -1 <= level < 256 && Le(start, mask)
    && Inv(mask, start, s, level) && FinalsAbove(s, level + 1) && Closed(mask, g, s) && DoneAbove(s, level)
    && Least(mask, start, g, s.im)
  }

  /** The state while the list of `level` is read: the tokens before index
      i and the levels above are done, and the lists above are those the
      level started with. */
  ghost predicate Reading(mask: Image, start: Image, g: Grid, s0: State, s: State, level: nat, i: nat)
  {
    Flooding(mask, start, g, s, level) && DoneAbove(s, level) && DonePrefix(s, level, i)
    && |s0.q| == 256 && forall l :: level < l < 256 ==> s.q[l] == s0.q[l]
  }

  /** Every token of the levels above `level` is FINAL. */
  predicate DoneAbove(s: State, level: int)
  {
    forall l, k :: 0 <= l && level < l < |s.q| && 0 <= k < |s.q[l]| ==> s.q[l][k] in s.finals
  }

  /** The first i tokens of the list of `level` are FINAL. */
  predicate DonePrefix(s: State, level: nat, i: nat)
  {
    level < |s.q| && i <= |s.q[level]| && forall k :: 0 <= k < i ==> s.q[level][k] in s.finals
  }

  /** Processing the token at index i of the current list keeps the tokens
      read so far and the levels above FINAL, and leaves the lists read so
      far unchanged. */
  lemma TokenDone(mask: Image, start: Image, g: Grid, s0: State, s: State, next: State, level: nat, i: nat)
    requires Reading(mask, start, g, s0, s, level, i) && i < |s.q[level]|
    requires Flooding(mask, start, g, next, level) && Progress(s, next, level)
    requires s.q[level][i] in next.finals && s.finals <= next.finals
    ensures Reading(mask, start, g, s0, next, level, i + 1)
    ensures next.q[level][..i + 1] == s.q[level][..i + 1]
  {
    assert s.q[level] <= next.q[level];
    forall k | 0 <= k < i + 1
      ensures next.q[level][k] in next.finals
    {
      assert next.q[level][k] == s.q[level][k];
    }
  }

  /** A closed state in which every pixel is FINAL is propagated. */
  lemma ClosedPropagated(mask: Image, g: Grid, s: State)
    requires Closed(mask, g, s) && forall p :: InsideP(s.im, p) ==> p in s.finals
    ensures Geodesy.Propagated(mask, g, s.im)
  {
    forall x, y, d | Inside(s.im, x, y) && 1 <= d <= Neighbors(g) && InsideP(s.im, Step(g, d, (x, y)))
      ensures At(s.im, Step(g, d, (x, y))) >= Min(Get(s.im, x, y), At(mask, Step(g, d, (x, y))))
    {
      assert InsideP(s.im, (x, y));
      assert ClosedAt(mask, g, s, (x, y), d);
    }
  }

  /** Once every token of the current level is FINAL, no CANDIDATE or
      QUEUED pixel is left at that level: the invariant holds one level
      lower. */
  lemma LevelDone(mask: Image, start: Image, g: Grid, s0: State, s: State, level: nat)
    requires level < 256 && |s.q| == 256 && Reading(mask, start, g, s0, s, level, |s.q[level]|)
    ensures Between(mask, start, g, s, level - 1)
  {
    forall c | c in s.cands
      ensures At(start, c) <= level - 1
    {
      assert Inside(start, c.0, c.1);
      assert c !in s.q[level];
    }
    forall x, y | Inside(s.im, x, y) && (x, y) !in s.cands && (x, y) !in s.finals
      ensures Get(s.im, x, y) <= level - 1
    {
      assert (x, y) !in s.q[level];
    }
  }

  /** At the end of the flooding every pixel of the image is FINAL. */
  lemma AllFinal(mask: Image, start: Image, s: State)
    requires Inv(mask, start, s, -1)
    ensures forall p :: InsideP(s.im, p) ==> p in s.finals
  {
    forall p | InsideP(s.im, p)
      ensures p in s.finals
    {
      assert Inside(s.im, p.0, p.1) && p.0 == p.0;
    }
  }

  /** The flooding of one level: its list read front to back, while the
      tokens processed append to it.  Returns the tokens in the order read. */
  method FloodLevel(mask: Image, start: Image, g: Grid, s0: State, level: nat) returns (s: State, part: seq<(int, Pos)>)
    requires Between(mask, start, g, s0, level)
    ensures Between(mask, start, g, s, level - 1)
    ensures |s.q| == 256 && Downward(s.q, level) == Downward(s0.q, level + 1) + part
    ensures Grown(s0.q, s.q)
  {
    s := s0;
    part := [];
    var i := 0;
    while i < |s.q[level]|
      invariant Reading(mask, start, g, s0, s, level, i)
      invariant part == Tagged(level, s.q[level][..i])
      invariant Grown(s0.q, s.q)
      decreases s.cands, |s.q[level]| - i
    {
      var p := s.q[level][i];
      var next := Process(mask, start, g, s, level, p);
      GrownTransitive(s0.q, s.q, next.q);
      TokenDone(mask, start, g, s0, s, next, level, i);
      TaggedStep(level, next.q[level], i);
      part := part + [(level, p)];
      s := next;
      i := i + 1;
    }
    LevelDone(mask, start, g, s0, s, level);
    assert s.q[level][..i] == s.q[level];
    DownwardFrame(s.q, s0.q, level + 1);
  }

  /** Flooding state between levels, with the visit so far and the lists
      grown from those of s0. */
  ghost predicate Descending(mask: Image, start: Image, g: Grid, s0: State, s: State, level: int, trace: seq<(int, Pos)>)
  {
    Between(mask, start, g, s, level) && trace == Downward(s.q, level + 1) && Grown(s0.q, s.q)
  }

  /** MB_Flooding: the levels from 255 down to 0.  Returns the order in
      which the tokens were read. */
  method Flood(mask: Image, start: Image, g: Grid, s0: State) returns (s: State, trace: seq<(int, Pos)>)
    requires Between(mask, start, g, s0, 255)
    ensures Shaped(s.im.pix, s.im.width, s.im.height) && SameSize(s.im, mask) && s.im.depth == 8
    ensures Le(start, s.im) && Le(s.im, mask) && Geodesy.Propagated(mask, g, s.im)
    ensures Least(mask, start, g, s.im)
    ensures |s.q| == 256 && trace == Downward(s.q, 0) && Grown(s0.q, s.q)
  {
    s := s0;
    trace := [];
    var level: int := 255;
    while level >= 0
      invariant Descending(mask, start, g, s0, s, level, trace)
    {
      var next, part := FloodLevel(mask, start, g, s, level);
      DescendStep(mask, start, g, s0, s, next, level, trace, part);
      s, trace, level := next, trace + part, level - 1;
    }
    FloodDone(mask, start, g, s0, s, trace);
  }

  /** One level flooded: the visit grows by the tokens read at that level. */
  lemma DescendStep(mask: Image, start: Image, g: Grid, s0: State, s: State, next: State, level: int, trace: seq<(int, Pos)>, part: seq<(int, Pos)>)
    requires 0 <= level < 256 && Descending(mask, start, g, s0, s, level, trace)
    requires Between(mask, start, g, next, level - 1) && |next.q| == 256 && Grown(s.q, next.q)
    requires Downward(next.q, level) == Downward(s.q, level + 1) + part
    ensures Descending(mask, start, g, s0, next, level - 1, trace + part)
  {
    GrownTransitive(s0.q, s.q, next.q);
  }

  /** After level 0 every pixel is FINAL, so the flooding facts become facts
      about the image alone. */
  lemma FloodDone(mask: Image, start: Image, g: Grid, s0: State, s: State, trace: seq<(int, Pos)>)
    requires Descending(mask, start, g, s0, s, -1, trace)
    ensures Shaped(s.im.pix, s.im.width, s.im.height) && SameSize(s.im, mask) && s.im.depth == 8
    ensures Le(start, s.im) && Le(s.im, mask) && Geodesy.Propagated(mask, g, s.im)
    ensures Least(mask, start, g, s.im)
    ensures |s.q| == 256 && trace == Downward(s.q, 0) && Grown(s0.q, s.q)
  {
    AllFinal(mask, start, s);
    ClosedPropagated(mask, g, s);
  }

  // ---------------------------------------------------------------------
  // Initialisation

  /** The pixels of line y left of x whose value is l, left to right. */
  function LineTokens(im: Image, l: nat, y: int, x: nat): seq<Pos>
  {
    if x == 0 then [] else LineTokens(im, l, y, x - 1) + (if Get(im, x - 1, y) == l then [(x - 1, y)] else [])
  }

  /** The pixels of the lines above y whose value is l, in raster order. */
  function RasterTokens(im: Image, l: nat, y: nat): seq<Pos>
  {
    if y == 0 then [] else RasterTokens(im, l, y - 1) + LineTokens(im, l, y - 1, im.width)
  }

  lemma {:induction false} LineTokensMembers(im: Image, l: nat, y: int, x: nat)
    ensures forall p :: p in LineTokens(im, l, y, x) <==> p.1 == y && 0 <= p.0 < x && At(im, p) == l
  {
    if x > 0 {
      LineTokensMembers(im, l, y, x - 1);
    }
  }

  /** The raster list of level l holds exactly the pixels of value l. */
  lemma {:induction false} RasterTokensMembers(im: Image, l: nat, y: nat)
    requires y <= im.height
    ensures forall p :: p in RasterTokens(im, l, y) <==> 0 <= p.1 < y && 0 <= p.0 < im.width && At(im, p) == l
  {
    if y > 0 {
      RasterTokensMembers(im, l, y - 1);
      LineTokensMembers(im, l, y - 1, im.width);
    }
  }

  /** MB_HierarchyInit: every pixel of srcdest is clipped by the mask and
      queued at its clipped value, in raster order, and every pixel is
      CANDIDATE. */
  method Init(mask: Image, srcdest: Image) returns (s: State)
    requires Valid(mask) && mask.depth == 8 && SameSize(srcdest, mask)
    ensures s.im == Clip(mask, srcdest) && s.cands == Pixels(s.im) && s.finals == {}
    ensures |s.q| == 256 && forall l :: 0 <= l < 256 ==> s.q[l] == RasterTokens(s.im, l, s.im.height)
  {
    var im := Clip(mask, srcdest);
    Bounded8(mask);
    var q := EmptyQueues;
    var y := 0;
    while y < im.height
      invariant 0 <= y <= im.height && |q| == 256
      invariant forall l :: 0 <= l < 256 ==> q[l] == RasterTokens(im, l, y)
    {
      var x := 0;
      while x < im.width
        invariant 0 <= x <= im.width && |q| == 256
        invariant forall l :: 0 <= l < 256 ==> q[l] == RasterTokens(im, l, y) + LineTokens(im, l, y, x)
      {
        var v := Get(im, x, y);
        assert v <= Get(mask, x, y);
        q := Enqueue(q, v, (x, y));
        x := x + 1;
      }
      y := y + 1;
    }
    s := State(im, q, Pixels(im), {});
  }

  /** The initial state is a flooding state before level 255. */
  lemma InitReady(mask: Image, g: Grid, s: State)
    requires Valid(mask) && mask.depth == 8 && SameSize(s.im, mask)
    requires Shaped(s.im.pix, s.im.width, s.im.height) && s.im.depth == 8 && Le(s.im, mask)
    requires s.cands == Pixels(s.im) && s.finals == {}
    requires |s.q| == 256 && forall l :: 0 <= l < 256 ==> s.q[l] == RasterTokens(s.im, l, s.im.height)
    ensures Between(mask, s.im, g, s, 255)
  {
    forall b | Geodesy.Above(mask, s.im, g, b)
      ensures Le(s.im, b)
    {
      Geodesy.CoveredBelow(mask, s.im, b);
    }
    Bounded8(mask);
    forall l, k | 0 <= l < 256 && 0 <= k < |s.q[l]|
      ensures InsideP(s.im, s.q[l][k]) && At(s.im, s.q[l][k]) >= l
    {
      RasterTokensMembers(s.im, l, s.im.height);
      assert s.q[l][k] in RasterTokens(s.im, l, s.im.height);
    }
    forall x, y | Inside(s.im, x, y)
      ensures Get(s.im, x, y) < |s.q| && (x, y) in s.q[Get(s.im, x, y)]
    {
      assert Get(s.im, x, y) <= Get(mask, x, y);
      RasterTokensMembers(s.im, Get(s.im, x, y), s.im.height);
    }
  }

  // ---------------------------------------------------------------------
  // The operator

  /** The candidates of srcdest and of its clipped copy are the same, so the
      least propagated image above the clipped copy is the reconstruction of
      srcdest. */
  lemma ClipReconstruction(mask: Image, srcdest: Image, g: Grid, im: Image)
    requires SameSize(srcdest, mask)
    requires Le(Clip(mask, srcdest), im) && Geodesy.Propagated(mask, g, im)
    requires Least(mask, Clip(mask, srcdest), g, im)
    ensures Geodesy.IsReconstruction(mask, srcdest, g, im)
  {
    var c := Clip(mask, srcdest);
    forall x, y | Inside(srcdest, x, y)
      ensures Min(Get(srcdest, x, y), Get(mask, x, y)) <= Get(im, x, y)
    {
      assert Inside(c, x, y);
    }
    forall b | Geodesy.Above(mask, srcdest, g, b)
      ensures Le(im, b)
    {
      forall x, y | Inside(c, x, y)
        ensures Min(Get(c, x, y), Get(mask, x, y)) <= Get(b, x, y)
      {
        assert Inside(srcdest, x, y);
      }
      assert Geodesy.Above(mask, c, g, b);
    }
  }

  /** MB_HierarBld: srcdest rebuilt under the mask.  The sizes are checked
      first, then the depth pair, which must be 8-bit for both images.  The
      result lies between min(srcdest, mask) and the mask and no neighbour
      can raise it any further; `lists` are the hierarchical lists at the
      end, each starting with its pixels in raster order, and `trace` is
      the order in which the tokens were read: level by level from 255
      down, each list front to back. */
  method HierarBld(mask: Image, srcdest: Image, g: Grid) returns (r: Result<Image>, lists: seq<seq<Pos>>, trace: seq<(int, Pos)>)
    requires Valid(mask) && Valid(srcdest)
    ensures !SameSize(srcdest, mask) ==> r == Fail(BadSize)
    ensures SameSize(srcdest, mask) && Probe(srcdest, mask) != Pair8x8 ==> r == Fail(BadDepth)
    ensures SameSize(srcdest, mask) && Probe(srcdest, mask) == Pair8x8 ==> r.Ok?
    ensures r.Ok? ==> Valid(r.value) && SameSize(r.value, srcdest) && r.value.depth == 8
    ensures r.Ok? ==> Le(Clip(mask, srcdest), r.value) && Le(r.value, mask)
    ensures r.Ok? ==> Geodesy.Propagated(mask, g, r.value) && Geodesy.BuildStable(g, mask, r.value)
    ensures r.Ok? ==> Geodesy.IsReconstruction(mask, srcdest, g, r.value)
    ensures r.Ok? ==> |lists| == 256 && trace == Downward(lists, 0)
    ensures r.Ok? ==> forall l :: 0 <= l < 256 ==> RasterTokens(Clip(mask, srcdest), l, srcdest.height) <= lists[l]
  {
    if !SameSize(srcdest, mask) {
      return Fail(BadSize), [], [];
    }
    if Probe(srcdest, mask) != Pair8x8 {
      return Fail(BadDepth), [], [];
    }
    PairInjective(srcdest.depth, mask.depth, 8, 8);
    var s0 := Init(mask, srcdest);
    InitReady(mask, g, s0);
    var s;
    s, trace := Flood(mask, s0.im, g, s0);
    Bounded8(mask);
    assert forall x, y :: Inside(s.im, x, y) ==> Get(s.im, x, y) <= Get(mask, x, y);
    ValidFromPixels(s.im);
    Geodesy.PropagatedStable(mask, g, s.im);
    ClipReconstruction(mask, srcdest, g, s.im);
    r, lists := Ok(s.im), s.q;
  }

  /** On 8-bit images the hierarchical-queue build and the iterative build
      of the Python layer (geodesy.build) both succeed and return the same
      image: each returns the unique geodesic reconstruction. */
  method HierarchicalIsIterative(mask: Image, srcdest: Image, g: Grid) returns (h: Result<Image>, b: PyResult<Image>)
    requires Valid(mask) && Valid(srcdest) && SameSize(srcdest, mask)
    requires mask.depth == 8 && srcdest.depth == 8
    ensures h.Ok? && b.PyOk? && h.value == b.value
  {
    var lists, trace;
    h, lists, trace := HierarBld(mask, srcdest, g);
    b := Geodesy.Build(mask, srcdest, g);
    Geodesy.ReconstructionUnique(mask, srcdest, g, h.value, b.value);
  }
}
