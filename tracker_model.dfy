/**
 * Values and specification functions of the random tracker benchmark:
 * a fixed-size population of point targets moving in straight lines
 * inside the square arena [0, L] x [0, L].
 *
 * Randomness is an input: every iteration of the rejection loop that
 * generates a tracker reads one `Candidate`, a record of the random
 * draws that iteration makes.
 */
module TrackerModel {

  datatype Option<+T> = None | Some(value: T)

  /** One tracker, the row [x, y, vx, vy]. */
  datatype Row = Row(x: real, y: real, vx: real, vy: real)

  datatype Point = Point(x: real, y: real)

  /** The constructor arguments, fixed for the simulator's lifetime.
      Noise is stored and never used. */
  datatype Config = Config(N: nat, DT: real, L: real, Noise: real, vmin: real, vmax: real, dmin: real)

  /** The draws of one iteration of the rejection loop: the two side picks
      of np.random.choice(4, 2), the two np.random.rand() factors of the
      end points, and the unit draw w behind np.random.uniform(vmin, vmax). */
  datatype Candidate = Candidate(side0: int, u0: real, side1: int, u1: real, w: real)

  /** The trigonometric part of the generator, (speed, dx, dy) to (vx, vy):
      v * cos(arctan2(dy, dx)), v * sin(arctan2(dy, dx)). It is a parameter
      of the model, not a definition. */
  type Polar = (real, real, real) -> (real, real)

  /** The ranges numpy draws from: sides in 0..3, factors in [0, 1). */
  predicate InRange(c: Candidate)
  {
    && 0 <= c.side0 < 4 && 0 <= c.side1 < 4
    && 0.0 <= c.u0 < 1.0 && 0.0 <= c.u1 < 1.0 && 0.0 <= c.w < 1.0
  }

  // ---------------------------------------------------------------------
  // End points on the boundary

  /** Side 0 is the bottom edge, 1 the right, 2 the top, 3 the left; any
      other pick falls into the last branch, as the source's `else` does. */
  function BoundaryPoint(side: int, u: real, L: real): Point
  {
    EdgePoint(side, u * L, L)
  }

  /** The end point on the picked side whose free coordinate is a. */
  function EdgePoint(side: int, a: real, L: real): Point
  {
    if side == 0 then Point(a, 0.0)
    else if side == 2 then Point(a, L)
    else if side == 1 then Point(L, a)
    else Point(0.0, a)
  }

  /** The point lies on one of the four edges of the arena. */
  predicate OnEdge(p: Point, L: real)
  {
    || ((p.x == 0.0 || p.x == L) && 0.0 <= p.y <= L)
    || ((p.y == 0.0 || p.y == L) && 0.0 <= p.x <= L)
  }

  lemma MulPositive(a: real, b: real)
    requires a > 0.0 && b > 0.0
    ensures a * b > 0.0
  {
  }

  lemma MulNonNegative(a: real, b: real)
    requires a >= 0.0 && b >= 0.0
    ensures a * b >= 0.0
  {
  }

  lemma ScaledFactorInSide(u: real, L: real)
    requires 0.0 <= u < 1.0 && L > 0.0
    ensures 0.0 <= u * L < L
  {
    MulNonNegative(u, L);
    MulPositive(1.0 - u, L);
    assert L - u * L == (1.0 - u) * L;
  }

  /** Each side pick gives a point on that side, with the free coordinate in [0, L). */
  lemma BoundaryPointOnEdge(side: int, u: real, L: real)
    requires 0.0 <= u < 1.0 && L > 0.0
    ensures var p := BoundaryPoint(side, u, L);
      && OnEdge(p, L)
      && (side == 0 ==> p.y == 0.0 && 0.0 <= p.x < L)
      && (side == 1 ==> p.x == L && 0.0 <= p.y < L)
      && (side == 2 ==> p.y == L && 0.0 <= p.x < L)
      && (side == 3 ==> p.x == 0.0 && 0.0 <= p.y < L)
  {
    ScaledFactorInSide(u, L);
    EdgePointOnEdge(side, u * L, L);
  }

  lemma EdgePointOnEdge(side: int, a: real, L: real)
    requires 0.0 <= a < L
    ensures var p := EdgePoint(side, a, L);
      && OnEdge(p, L)
      && (side == 0 ==> p.y == 0.0 && 0.0 <= p.x < L)
      && (side == 1 ==> p.x == L && 0.0 <= p.y < L)
      && (side == 2 ==> p.y == L && 0.0 <= p.x < L)
      && (side == 3 ==> p.x == 0.0 && 0.0 <= p.y < L)
  {
    var p := EdgePoint(side, a, L);
    if side == 0 || side == 2 {
      assert p.x == a;
    } else {
      assert p.y == a;
    }
  }

  /** Away from the corners the end point determines the side and the draw. */
  lemma BoundaryPointInjective(s: int, u: real, s': int, u': real, L: real)
    requires 0 <= s < 4 && 0 <= s' < 4
    requires 0.0 < u < 1.0 && 0.0 < u' < 1.0 && L > 0.0
    requires BoundaryPoint(s, u, L) == BoundaryPoint(s', u', L)
    ensures s == s' && u == u'
  {
    ScaledFactorInSide(u, L);
    ScaledFactorInSide(u', L);
    MulPositive(u, L);
    MulPositive(u', L);
    EdgePointInjective(s, u * L, s', u' * L, L);
    assert (u - u') * L == 0.0;
  }

  lemma EdgePointInjective(s: int, a: real, s': int, a': real, L: real)
    requires 0 <= s < 4 && 0 <= s' < 4
    requires 0.0 < a < L && 0.0 < a' < L
    requires EdgePoint(s, a, L) == EdgePoint(s', a', L)
    ensures s == s' && a == a'
  {
  }

  // ---------------------------------------------------------------------
  // The acceptance test of the rejection loop

  function SqDist(p: Point, q: Point): real
  {
    (q.x - p.x) * (q.x - p.x) + (q.y - p.y) * (q.y - p.y)
  }

  /** The source accepts when the Euclidean norm of q - p is at least L * dmin.
      Without a square root: a negative or zero threshold accepts every pair,
      a positive one is compared squared. */
  predicate FarEnough(p: Point, q: Point, L: real, dmin: real)
  {
    var t := L * dmin;
    t <= 0.0 || SqDist(p, q) >= t * t
  }

  /** FarEnough is exactly the source's test `dist >= L * dmin`, where dist is the norm. */
  lemma FarEnoughIffNorm(p: Point, q: Point, L: real, dmin: real, dist: real)
    requires dist >= 0.0 && dist * dist == SqDist(p, q)
    ensures FarEnough(p, q, L, dmin) <==> dist >= L * dmin
  {
    var t := L * dmin;
    if t > 0.0 {
      assert dist * dist - t * t == (dist - t) * (dist + t);
      if dist >= t {
        MulNonNegative(dist - t, dist + t);
      } else {
        MulPositive(t - dist, dist + t);
        assert (t - dist) * (dist + t) == -((dist - t) * (dist + t));
      }
    }
  }

  /** Whether one iteration of the rejection loop returns. */
  predicate Accepts(cfg: Config, c: Candidate)
  {
    FarEnough(BoundaryPoint(c.side0, c.u0, cfg.L), BoundaryPoint(c.side1, c.u1, cfg.L), cfg.L, cfg.dmin)
  }

  /** With no positive minimum distance every candidate is accepted. */
  lemma AcceptsWithoutMinimum(cfg: Config, c: Candidate)
    requires cfg.L >= 0.0 && cfg.dmin <= 0.0
    ensures Accepts(cfg, c)
  {
    assert cfg.L * cfg.dmin == -(cfg.L * -cfg.dmin);
    assert cfg.L * -cfg.dmin >= 0.0;
  }

  // ---------------------------------------------------------------------
  // The generated tracker

  /** np.random.uniform(vmin, vmax) is vmin + (vmax - vmin) * w for a unit draw w. */
  function Speed(cfg: Config, w: real): real
  {
    cfg.vmin + (cfg.vmax - cfg.vmin) * w
  }

  /** The speed handed to the trigonometry lies in [vmin, vmax], and below vmax
      when the bounds differ. */
  lemma SpeedInRange(cfg: Config, w: real)
    requires 0.0 <= w < 1.0 && cfg.vmin <= cfg.vmax
    ensures cfg.vmin <= Speed(cfg, w) <= cfg.vmax
    ensures cfg.vmin < cfg.vmax ==> Speed(cfg, w) < cfg.vmax
  {
    var d := cfg.vmax - cfg.vmin;
    MulNonNegative(d, w);
    MulNonNegative(d, 1.0 - w);
    assert d - d * w == d * (1.0 - w);
    if d > 0.0 {
      MulPositive(d, 1.0 - w);
    }
  }

  /** The row an accepted candidate produces: the first end point as the
      position, a velocity towards the second end point. */
  function NewRow(cfg: Config, polar: Polar, c: Candidate): Row
  {
    var p0 := BoundaryPoint(c.side0, c.u0, cfg.L);
    var p1 := BoundaryPoint(c.side1, c.u1, cfg.L);
    var v := polar(Speed(cfg, c.w), p1.x - p0.x, p1.y - p0.y);
    Row(p0.x, p0.y, v.0, v.1)
  }

  /** A generated tracker starts on the boundary, at the first end point of its
      candidate, and that end point is at least L * dmin from the second. */
  lemma NewRowOnEdge(cfg: Config, polar: Polar, c: Candidate)
    requires InRange(c) && cfg.L > 0.0 && Accepts(cfg, c)
    ensures var r := NewRow(cfg, polar, c);
      var p0 := BoundaryPoint(c.side0, c.u0, cfg.L);
      var p1 := BoundaryPoint(c.side1, c.u1, cfg.L);
      && Point(r.x, r.y) == p0
      && OnEdge(Point(r.x, r.y), cfg.L)
      && OnEdge(p1, cfg.L)
      && (cfg.L * cfg.dmin > 0.0 ==> SqDist(p0, p1) >= (cfg.L * cfg.dmin) * (cfg.L * cfg.dmin))
  {
    BoundaryPointOnEdge(c.side0, c.u0, cfg.L);
    BoundaryPointOnEdge(c.side1, c.u1, cfg.L);
  }

  /** The index of the first accepted candidate, |draws| when there is none. */
  function FirstAccepted(cfg: Config, draws: seq<Candidate>): (k: nat)
    ensures k <= |draws|
    ensures forall j :: 0 <= j < k ==> !Accepts(cfg, draws[j])
    ensures k < |draws| ==> Accepts(cfg, draws[k])
    decreases |draws|
  {
    if draws == [] then 0
    else if Accepts(cfg, draws[0]) then 0
    else 1 + FirstAccepted(cfg, draws[1..])
  }

  /** With no positive minimum distance the first candidate is taken. */
  lemma FirstCandidateWithoutMinimum(cfg: Config, draws: seq<Candidate>)
    requires cfg.L >= 0.0 && cfg.dmin <= 0.0 && draws != []
    ensures FirstAccepted(cfg, draws) == 0
  {
    AcceptsWithoutMinimum(cfg, draws[0]);
  }

  /** The outcome of one gen_one_tracker call: the new row, if any candidate
      was accepted, and the draws left. */
  datatype Drawn = Drawn(row: Option<Row>, rest: seq<Candidate>)

  /** The rejection loop run over the draws: the row of the first candidate
      that passes the distance test, and the draws after it. */
  function GenOne(cfg: Config, polar: Polar, draws: seq<Candidate>): (g: Drawn)
    ensures g.row.None? ==> g.rest == []
    ensures |g.rest| < |draws| || draws == []
    decreases |draws|
  {
    if draws == [] then Drawn(None, [])
    else if Accepts(cfg, draws[0]) then Drawn(Some(NewRow(cfg, polar, draws[0])), draws[1..])
    else GenOne(cfg, polar, draws[1..])
  }

  /** gen_one_tracker returns exactly when some candidate passes the distance
      test; it returns the row of the first such candidate and consumes the
      draws up to and including it. */
  lemma {:induction false} GenOneSpec(cfg: Config, polar: Polar, draws: seq<Candidate>)
    ensures var g := GenOne(cfg, polar, draws);
      var k := FirstAccepted(cfg, draws);
      && (g.row.Some? <==> k < |draws|)
      && (g.row.Some? ==> g.row.value == NewRow(cfg, polar, draws[k]) && g.rest == draws[k + 1..])
      && (g.row.None? ==> g.rest == [])
    decreases |draws|
  {
    if draws != [] && !Accepts(cfg, draws[0]) {
      var tail := draws[1..];
      GenOneSpec(cfg, polar, tail);
      var k' := FirstAccepted(cfg, tail);
      assert FirstAccepted(cfg, draws) == k' + 1;
      if k' < |tail| {
        assert tail[k'] == draws[k' + 1];
        assert tail[k' + 1..] == draws[k' + 2..];
      }
    }
  }

  /** Rows generated in a batch, the draws left afterwards, and whether
      the draws sufficed for the whole batch. */
  datatype Batch = Batch(rows: seq<Row>, rest: seq<Candidate>, complete: bool)

  function Prepend(rows: seq<Row>, b: Batch): Batch
  {
    Batch(rows + b.rows, b.rest, b.complete)
  }

  /** k successive calls of gen_one_tracker on the given draws. */
  function GenerateN(cfg: Config, polar: Polar, k: nat, draws: seq<Candidate>): (b: Batch)
    ensures |b.rows| <= k
    decreases k
  {
    if k == 0 then Batch([], draws, true)
    else
      var g := GenOne(cfg, polar, draws);
      if g.row.None? then Batch([], [], false)
      else Prepend([g.row.value], GenerateN(cfg, polar, k - 1, g.rest))
  }

  /** One more gen_one_tracker call of a batch, after the rows done. */
  lemma GenerateNUnfold(cfg: Config, polar: Polar, k: nat, draws: seq<Candidate>, done: seq<Row>)
    requires k > 0
    ensures var g := GenOne(cfg, polar, draws);
      Prepend(done, GenerateN(cfg, polar, k, draws))
        == if g.row.Some? then Prepend(done + [g.row.value], GenerateN(cfg, polar, k - 1, g.rest))
           else Prepend(done, Batch([], [], false))
  {
    var g := GenOne(cfg, polar, draws);
    if g.row.Some? {
      var t := GenerateN(cfg, polar, k - 1, g.rest);
      assert done + ([g.row.value] + t.rows) == (done + [g.row.value]) + t.rows;
    }
  }

  /** A batch is complete exactly when it holds k rows; an incomplete one used up every draw. */
  lemma {:induction false} GenerateNSize(cfg: Config, polar: Polar, k: nat, draws: seq<Candidate>)
    ensures var b := GenerateN(cfg, polar, k, draws);
      && (b.complete <==> |b.rows| == k)
      && (!b.complete ==> b.rest == [])
      && |b.rest| <= |draws|
    decreases k
  {
    if k > 0 {
      var g := GenOne(cfg, polar, draws);
      if g.row.Some? {
        GenerateNSize(cfg, polar, k - 1, g.rest);
      }
    }
  }

  /** Every row is the row of some accepted candidate among the draws. */
  ghost predicate FromAccepted(cfg: Config, polar: Polar, rows: seq<Row>, draws: seq<Candidate>)
  {
    forall j :: 0 <= j < |rows| ==>
      exists c :: c in draws && Accepts(cfg, c) && rows[j] == NewRow(cfg, polar, c)
  }

  /** Every generated row is the row of some accepted candidate among the draws. */
  lemma {:induction false} GenerateNFromAccepted(cfg: Config, polar: Polar, k: nat, draws: seq<Candidate>)
    ensures FromAccepted(cfg, polar, GenerateN(cfg, polar, k, draws).rows, draws)
    decreases k
  {
    var b := GenerateN(cfg, polar, k, draws);
    if k > 0 {
      var g := GenOne(cfg, polar, draws);
      if g.row.Some? {
        GenOneSpec(cfg, polar, draws);
        var i0 := FirstAccepted(cfg, draws);
        var tail := g.rest;
        var tb := GenerateN(cfg, polar, k - 1, tail);
        GenerateNFromAccepted(cfg, polar, k - 1, tail);
        assert b.rows == [g.row.value] + tb.rows;
        forall j | 0 <= j < |b.rows|
          ensures exists c :: c in draws && Accepts(cfg, c) && b.rows[j] == NewRow(cfg, polar, c)
        {
          if j == 0 {
            assert draws[i0] in draws;
          } else {
            assert tb.rows[j - 1] == b.rows[j];
            var c :| c in tail && Accepts(cfg, c) && tb.rows[j - 1] == NewRow(cfg, polar, c);
            assert c in draws;
          }
        }
      }
    }
  }

  /** Every row's position lies on the boundary of the arena. */
  ghost predicate AllOnEdge(rows: seq<Row>, L: real)
  {
    forall j :: 0 <= j < |rows| ==> OnEdge(Point(rows[j].x, rows[j].y), L)
  }

  /** With draws in numpy's ranges every generated row starts on the boundary. */
  lemma GenerateNOnEdge(cfg: Config, polar: Polar, k: nat, draws: seq<Candidate>)
    requires cfg.L > 0.0
    requires forall i :: 0 <= i < |draws| ==> InRange(draws[i])
    ensures AllOnEdge(GenerateN(cfg, polar, k, draws).rows, cfg.L)
  {
    var b := GenerateN(cfg, polar, k, draws);
    GenerateNFromAccepted(cfg, polar, k, draws);
    forall j | 0 <= j < |b.rows|
      ensures OnEdge(Point(b.rows[j].x, b.rows[j].y), cfg.L)
    {
      assert FromAccepted(cfg, polar, b.rows, draws);
      assert exists c :: c in draws && Accepts(cfg, c) && b.rows[j] == NewRow(cfg, polar, c);
      var c :| c in draws && Accepts(cfg, c) && b.rows[j] == NewRow(cfg, polar, c);
      NewRowOnEdge(cfg, polar, c);
    }
  }

  // ---------------------------------------------------------------------
  // One step: move, remove, replenish

  function Move(r: Row, dt: real): Row
  {
    Row(r.x + dt * r.vx, r.y + dt * r.vy, r.vx, r.vy)
  }

  function MoveAll(rows: seq<Row>, dt: real): seq<Row>
  {
    seq(|rows|, i requires 0 <= i < |rows| => Move(rows[i], dt))
  }

  /** Moving advances every position by dt times its velocity and keeps every velocity. */
  lemma MoveAllSpec(rows: seq<Row>, dt: real)
    ensures |MoveAll(rows, dt)| == |rows|
    ensures forall i :: 0 <= i < |rows| ==>
      var m := MoveAll(rows, dt)[i];
      && m.x == rows[i].x + dt * rows[i].vx && m.y == rows[i].y + dt * rows[i].vy
      && m.vx == rows[i].vx && m.vy == rows[i].vy
  {
  }

  /** Strictly outside the arena on either axis; positions exactly at 0 or L stay. */
  predicate OutOfBounds(r: Row, L: real)
  {
    r.x > L || r.x < 0.0 || r.y > L || r.y < 0.0
  }

  /** The ascending indices i of s with OutOfBounds(s[i], L) == out. */
  function MatchingRows(s: seq<Row>, L: real, out: bool): seq<nat>
    decreases |s|
  {
    if s == [] then []
    else MatchingRows(s[..|s| - 1], L, out) + (if OutOfBounds(s[|s| - 1], L) == out then [|s| - 1] else [])
  }

  /** The source's rows_out_of_bound. */
  function OutOfBoundRows(s: seq<Row>, L: real): seq<nat>
  {
    MatchingRows(s, L, true)
  }

  /** The listed indices are in range and ascending. */
  lemma {:induction false} MatchingRowsAscending(s: seq<Row>, L: real, out: bool)
    ensures forall a :: 0 <= a < |MatchingRows(s, L, out)| ==> MatchingRows(s, L, out)[a] < |s|
    ensures forall a, b :: 0 <= a < b < |MatchingRows(s, L, out)| ==>
      MatchingRows(s, L, out)[a] < MatchingRows(s, L, out)[b]
    decreases |s|
  {
    if s != [] {
      var n := |s| - 1;
      var m' := MatchingRows(s[..n], L, out);
      MatchingRowsAscending(s[..n], L, out);
      assert |s[..n]| == n;
      assert forall a :: 0 <= a < |m'| ==> m'[a] < n;
      assert MatchingRows(s, L, out) == m' + (if OutOfBounds(s[n], L) == out then [n] else []);
    }
  }

  /** An index is listed exactly when its row matches. */
  lemma {:induction false} MatchingRowsMembers(s: seq<Row>, L: real, out: bool)
    ensures forall i :: i in MatchingRows(s, L, out) <==> 0 <= i < |s| && OutOfBounds(s[i], L) == out
    decreases |s|
  {
    if s != [] {
      var n := |s| - 1;
      var m := MatchingRows(s[..n], L, out);
      MatchingRowsMembers(s[..n], L, out);
      forall i ensures i in MatchingRows(s, L, out) <==> 0 <= i < |s| && OutOfBounds(s[i], L) == out {
        if 0 <= i < n {
          assert s[..n][i] == s[i];
        }
      }
    }
  }

  lemma MatchingRowsSpec(s: seq<Row>, L: real, out: bool)
    ensures var m := MatchingRows(s, L, out);
      && (forall a :: 0 <= a < |m| ==> m[a] < |s|)
      && (forall a, b :: 0 <= a < b < |m| ==> m[a] < m[b])
      && (forall i :: i in m <==> 0 <= i < |s| && OutOfBounds(s[i], L) == out)
  {
    MatchingRowsAscending(s, L, out);
    MatchingRowsMembers(s, L, out);
  }

  lemma {:induction false} MatchingRowsCount(s: seq<Row>, L: real)
    ensures |MatchingRows(s, L, true)| + |MatchingRows(s, L, false)| == |s|
    decreases |s|
  {
    if s != [] {
      MatchingRowsCount(s[..|s| - 1], L);
    }
  }

  /** np.delete: the rows of s whose index does not occur in del, in order. */
  function DeleteRows(s: seq<Row>, del: seq<nat>): (r: seq<Row>)
    ensures |r| <= |s|
    decreases |s|
  {
    if s == [] then []
    else DeleteRows(s[..|s| - 1], del) + (if |s| - 1 in del then [] else [s[|s| - 1]])
  }

  lemma {:induction false} DeletePrefix(s: seq<Row>, L: real, m: nat)
    requires m <= |s|
    ensures var d := DeleteRows(s[..m], OutOfBoundRows(s, L));
      var k := MatchingRows(s[..m], L, false);
      && |d| == |k|
      && forall a :: 0 <= a < |k| ==> k[a] < |s| && d[a] == s[k[a]]
    decreases m
  {
    if m > 0 {
      DeletePrefix(s, L, m - 1);
      MatchingRowsSpec(s, L, true);
      MatchingRowsSpec(s[..m - 1], L, false);
      assert s[..m][..m - 1] == s[..m - 1];
      assert s[..m][m - 1] == s[m - 1];
    }
  }

  /** What survives removal: exactly the rows inside the arena, in their
      original order, and as many as were not listed out of bounds. */
  lemma RemovalSpec(s: seq<Row>, L: real)
    ensures var kept := DeleteRows(s, OutOfBoundRows(s, L));
      var k := MatchingRows(s, L, false);
      && |kept| == |k|
      && (forall a :: 0 <= a < |k| ==> k[a] < |s| && kept[a] == s[k[a]])
      && (forall a, b :: 0 <= a < b < |k| ==> k[a] < k[b])
      && (forall i :: 0 <= i < |s| ==> (i in k <==> !OutOfBounds(s[i], L)))
      && (forall i :: 0 <= i < |s| ==> (i in OutOfBoundRows(s, L) <==> OutOfBounds(s[i], L)))
      && (forall a :: 0 <= a < |kept| ==> !OutOfBounds(kept[a], L))
      && |kept| + |OutOfBoundRows(s, L)| == |s|
  {
    DeletePrefix(s, L, |s|);
    assert s[..|s|] == s;
    MatchingRowsSpec(s, L, false);
    MatchingRowsSpec(s, L, true);
    MatchingRowsCount(s, L);
  }

  /** The rows left after the move and the removal phases. */
  function Survivors(cfg: Config, rows: seq<Row>): seq<Row>
  {
    var moved := MoveAll(rows, cfg.DT);
    DeleteRows(moved, OutOfBoundRows(moved, cfg.L))
  }

  /** The number of rows a step replenishes, range(N - n) in the source. */
  function Shortfall(cfg: Config, n: nat): nat
  {
    if n < cfg.N then cfg.N - n else 0
  }

  /** The population after step and the draws it leaves. */
  function StepSpec(cfg: Config, polar: Polar, rows: seq<Row>, draws: seq<Candidate>): Batch
  {
    var kept := Survivors(cfg, rows);
    Prepend(kept, GenerateN(cfg, polar, Shortfall(cfg, |kept|), draws))
  }

  /** A step started from N rows: the survivors form a prefix, as many rows are
      appended as were removed, and the population is N again exactly when the
      draws sufficed. */
  lemma StepSpecProperties(cfg: Config, polar: Polar, rows: seq<Row>, draws: seq<Candidate>)
    requires |rows| == cfg.N
    ensures var moved := MoveAll(rows, cfg.DT);
      var kept := Survivors(cfg, rows);
      var b := StepSpec(cfg, polar, rows, draws);
      && |kept| <= |b.rows|
      && b.rows[..|kept|] == kept
      && |b.rows| - |kept| <= |OutOfBoundRows(moved, cfg.L)|
      && (b.complete <==> |b.rows| == cfg.N)
      && (b.complete ==> |b.rows| - |kept| == |OutOfBoundRows(moved, cfg.L)|)
  {
    var moved := MoveAll(rows, cfg.DT);
    var kept := Survivors(cfg, rows);
    var g := GenerateN(cfg, polar, Shortfall(cfg, |kept|), draws);
    MoveAllSpec(rows, cfg.DT);
    RemovalSpec(moved, cfg.L);
    GenerateNSize(cfg, polar, Shortfall(cfg, |kept|), draws);
    assert (kept + g.rows)[..|kept|] == kept;
  }

  /** When no row is out of bounds, nothing is listed for removal. */
  lemma {:induction false} NoneOutOfBound(s: seq<Row>, L: real)
    requires forall i :: 0 <= i < |s| ==> !OutOfBounds(s[i], L)
    ensures OutOfBoundRows(s, L) == []
    decreases |s|
  {
    if s != [] {
      NoneOutOfBound(s[..|s| - 1], L);
    }
  }

  /** Deleting no index keeps every row. */
  lemma {:induction false} DeleteNothing(s: seq<Row>)
    ensures DeleteRows(s, []) == s
    decreases |s|
  {
    if s != [] {
      DeleteNothing(s[..|s| - 1]);
      assert s[..|s| - 1] + [s[|s| - 1]] == s;
    }
  }

  /** A step in which no tracker leaves the arena moves every row and draws nothing. */
  lemma StepWithoutExits(cfg: Config, polar: Polar, rows: seq<Row>, draws: seq<Candidate>)
    requires |rows| == cfg.N
    requires forall i :: 0 <= i < |rows| ==> !OutOfBounds(Move(rows[i], cfg.DT), cfg.L)
    ensures StepSpec(cfg, polar, rows, draws) == Batch(MoveAll(rows, cfg.DT), draws, true)
  {
    var moved := MoveAll(rows, cfg.DT);
    NoneOutOfBound(moved, cfg.L);
    DeleteNothing(moved);
    assert Survivors(cfg, rows) == moved;
    assert Shortfall(cfg, |moved|) == 0;
    assert moved + [] == moved;
  }

  /** With draws in numpy's ranges every appended row starts on the boundary. */
  lemma StepAppendsOnEdge(cfg: Config, polar: Polar, rows: seq<Row>, draws: seq<Candidate>)
    requires cfg.L > 0.0
    requires forall i :: 0 <= i < |draws| ==> InRange(draws[i])
    ensures AllOnEdge(StepSpec(cfg, polar, rows, draws).rows[|Survivors(cfg, rows)|..], cfg.L)
  {
    var kept := Survivors(cfg, rows);
    var g := GenerateN(cfg, polar, Shortfall(cfg, |kept|), draws);
    var b := StepSpec(cfg, polar, rows, draws);
    GenerateNOnEdge(cfg, polar, Shortfall(cfg, |kept|), draws);
    assert b.rows[|kept|..] == g.rows;
  }

  /** t calls of step by a driver loop, stopping early when the supply of draws runs out. */
  function Run(cfg: Config, polar: Polar, t: nat, rows: seq<Row>, draws: seq<Candidate>): Batch
    decreases t
  {
    if t == 0 then Batch(rows, draws, true)
    else
      var b := StepSpec(cfg, polar, rows, draws);
      if !b.complete then b else Run(cfg, polar, t - 1, b.rows, b.rest)
  }

  /** After any number of completed steps the population still has N rows. */
  lemma {:induction false} RunKeepsPopulation(cfg: Config, polar: Polar, t: nat, rows: seq<Row>, draws: seq<Candidate>)
    requires |rows| == cfg.N
    ensures Run(cfg, polar, t, rows, draws).complete ==> |Run(cfg, polar, t, rows, draws).rows| == cfg.N
    decreases t
  {
    if t > 0 {
      var b := StepSpec(cfg, polar, rows, draws);
      StepSpecProperties(cfg, polar, rows, draws);
      if b.complete {
        RunKeepsPopulation(cfg, polar, t - 1, b.rows, b.rest);
      }
    }
  }

  /** np.zeros((n, 4)) as rows. */
  function Zeros(n: nat): seq<Row>
  {
    seq(n, _ => Row(0.0, 0.0, 0.0, 0.0))
  }

  /** Writing row r at index |done| of done + Zeros(n) extends done by r. */
  lemma OverwriteZero(done: seq<Row>, r: Row, n: nat)
    requires n > 0
    ensures (done + Zeros(n))[|done| := r] == (done + [r]) + Zeros(n - 1)
  {
    var lhs := (done + Zeros(n))[|done| := r];
    var rhs := (done + [r]) + Zeros(n - 1);
    assert |lhs| == |rhs|;
    forall j | 0 <= j < |lhs| ensures lhs[j] == rhs[j] {
      if j < |done| {
      } else if j == |done| {
      } else {
        assert lhs[j] == Zeros(n)[j - |done|];
        assert rhs[j] == Zeros(n - 1)[j - |done| - 1];
      }
    }
  }

  /** The population the constructor builds: the generated rows written over
      the first rows of np.zeros((N, 4)). */
  function InitialRows(cfg: Config, polar: Polar, supply: seq<Candidate>): seq<Row>
  {
    var b := GenerateN(cfg, polar, cfg.N, supply);
    b.rows + Zeros(cfg.N - |b.rows|)
  }

  /** The constructor always leaves N rows; when the supply suffices every one
      of them is a gen_one_tracker result, and with draws in numpy's ranges
      every one starts on the boundary. */
  lemma InitialRowsSpec(cfg: Config, polar: Polar, supply: seq<Candidate>)
    ensures |InitialRows(cfg, polar, supply)| == cfg.N
    ensures GenerateN(cfg, polar, cfg.N, supply).complete ==>
      && InitialRows(cfg, polar, supply) == GenerateN(cfg, polar, cfg.N, supply).rows
      && FromAccepted(cfg, polar, InitialRows(cfg, polar, supply), supply)
    ensures (&& GenerateN(cfg, polar, cfg.N, supply).complete && cfg.L > 0.0
             && (forall i :: 0 <= i < |supply| ==> InRange(supply[i])))
      ==> AllOnEdge(InitialRows(cfg, polar, supply), cfg.L)
  {
    var b := GenerateN(cfg, polar, cfg.N, supply);
    GenerateNSize(cfg, polar, cfg.N, supply);
    GenerateNFromAccepted(cfg, polar, cfg.N, supply);
    if b.complete {
      assert b.rows + Zeros(0) == b.rows;
      if cfg.L > 0.0 && forall i :: 0 <= i < |supply| ==> InRange(supply[i]) {
        GenerateNOnEdge(cfg, polar, cfg.N, supply);
      }
    }
  }
}
