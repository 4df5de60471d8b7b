/**
 * The simulator object: a population of trackers that the constructor
 * fills and every step moves, thins out and replenishes.
 *
 * The randomness is the field `draws`, the supply of candidates not yet
 * drawn; generating a tracker consumes candidates from its front.
 */
module Simulator {
  import opened TrackerModel

  class RandomTracker {
    const cfg: Config
    const polar: Polar
    var trackers: seq<Row>
    var draws: seq<Candidate>
    /** Whether every row so far came from the generator: false once the
        supply of draws ran out before a fill or a refill finished. */
    var complete: bool

    /** The population has N generated rows, which step's index range relies on. */
    ghost predicate Valid()
      reads this
    {
      complete && |trackers| == cfg.N
    }

    /** np.zeros((N, 4)) followed by one gen_one_tracker call per row. If the
        supply of draws runs out, the rows not yet written stay zero and
        `complete` is false. The parameters after `supply` carry the
        defaults of __init__. */
    constructor (polar: Polar, supply: seq<Candidate>, N: nat := 1, DT: real := 0.02,
                 L: real := 100.0, Noise: real := 0.1, vmin: real := 5.0, vmax: real := 40.0,
                 dmin: real := 0.5)
      ensures cfg == Config(N, DT, L, Noise, vmin, vmax, dmin) && this.polar == polar
      ensures trackers == InitialRows(cfg, polar, supply)
      ensures draws == GenerateN(cfg, polar, N, supply).rest
      ensures complete == GenerateN(cfg, polar, N, supply).complete
      ensures |trackers| == N
      ensures Valid() <==> GenerateN(cfg, polar, N, supply).complete
    {
      cfg := Config(N, DT, L, Noise, vmin, vmax, dmin);
      this.polar := polar;
      trackers := Zeros(N);
      draws := supply;
      complete := true;
      new;
      var i := 0;
      var ok := true;
      ghost var done: seq<Row> := [];
      while i < N && ok
        decreases N - i, if ok then 1 else 0
        invariant 0 <= i <= N && |done| == i
        invariant trackers == done + Zeros(N - i)
        invariant GenerateN(cfg, polar, N, supply)
          == Prepend(done, if ok then GenerateN(cfg, polar, N - i, draws) else Batch([], [], false))
        invariant !ok ==> draws == []
      {
        GenerateNUnfold(cfg, polar, N - i, draws, done);
        var r := GenOneTracker();
        if r.Some? {
          OverwriteZero(done, r.value, N - i);
          trackers := trackers[i := r.value];
          done := done + [r.value];
          i := i + 1;
        } else {
          ok := false;
        }
      }
      complete := ok;
      GenerateNSize(cfg, polar, N, supply);
      InitialRowsSpec(cfg, polar, supply);
    }

    /** One run of the rejection loop over the supply of draws: the first
        accepted candidate gives the new row and everything up to it is
        consumed; with no accepted candidate the supply is used up. */
    method GenOneTracker() returns (r: Option<Row>)
      modifies this`draws
      ensures Drawn(r, draws) == GenOne(cfg, polar, old(draws))
    {
      while draws != []
        invariant GenOne(cfg, polar, draws) == GenOne(cfg, polar, old(draws))
        decreases |draws|
      {
        var c := draws[0];
        draws := draws[1..];
        var p0 := BoundaryPoint(c.side0, c.u0, cfg.L);
        var p1 := BoundaryPoint(c.side1, c.u1, cfg.L);
        if FarEnough(p0, p1, cfg.L, cfg.dmin) {
          var v := polar(Speed(cfg, c.w), p1.x - p0.x, p1.y - p0.y);
          r := Some(Row(p0.x, p0.y, v.0, v.1));
          return;
        }
      }
      r := None;
    }

    /** Move every tracker by DT, delete the ones outside the arena, and
        append fresh ones until there are N again; ok is false when the
        supply of draws ran out first, and `complete` records it. */
    method Step() returns (ok: bool)
      requires Valid()
      modifies this`trackers, this`draws, this`complete
      ensures var b := StepSpec(cfg, polar, old(trackers), old(draws));
        trackers == b.rows && draws == b.rest && ok == b.complete
      ensures complete == ok
      ensures Valid() <==> ok
    {
      ghost var before, d0 := trackers, draws;
      Advance();
      var outRows := RowsOutOfBound();
      DeleteRowsAt(outRows);
      ok := Replenish();
      complete := ok;
      StepSpecProperties(cfg, polar, before, d0);
    }

    /** The first phase of step: every position advances by DT times its velocity. */
    method Advance()
      modifies this`trackers
      ensures trackers == MoveAll(old(trackers), cfg.DT)
    {
      var n := |trackers|;
      for i := 0 to n
        invariant |trackers| == n
        invariant forall j :: 0 <= j < i ==> trackers[j] == Move(old(trackers)[j], cfg.DT)
        invariant forall j :: i <= j < n ==> trackers[j] == old(trackers)[j]
      {
        trackers := trackers[i := Move(trackers[i], cfg.DT)];
      }
    }

    /** The indices in range(N) of the rows outside the arena, in ascending order. */
    method RowsOutOfBound() returns (outRows: seq<nat>)
      requires Valid()
      ensures outRows == OutOfBoundRows(trackers, cfg.L)
    {
      outRows := [];
      for i := 0 to cfg.N
        invariant outRows == OutOfBoundRows(trackers[..i], cfg.L)
      {
        assert trackers[..i + 1][..i] == trackers[..i];
        if OutOfBounds(trackers[i], cfg.L) {
          outRows := outRows + [i];
        }
      }
      assert trackers[..cfg.N] == trackers;
    }

    /** np.delete: drop the rows at the given indices and keep the others in order. */
    method DeleteRowsAt(del: seq<nat>)
      modifies this`trackers
      ensures trackers == DeleteRows(old(trackers), del)
    {
      var kept: seq<Row> := [];
      var n := |trackers|;
      for i := 0 to n
        invariant kept == DeleteRows(trackers[..i], del)
      {
        assert trackers[..i + 1][..i] == trackers[..i];
        if i !in del {
          kept := kept + [trackers[i]];
        }
      }
      assert trackers[..n] == trackers;
      trackers := kept;
    }

    /** The last phase of step: append gen_one_tracker rows until there are N,
        or until the supply of draws runs out, which ok reports. */
    method Replenish() returns (ok: bool)
      modifies this`trackers, this`draws
      ensures var g := GenerateN(cfg, polar, Shortfall(cfg, |old(trackers)|), old(draws));
        trackers == old(trackers) + g.rows && draws == g.rest && ok == g.complete
    {
      var m := |trackers|;
      var count := if m < cfg.N then cfg.N - m else 0;
      var i := 0;
      ok := true;
      ghost var added: seq<Row> := [];
      while i < count && ok
        decreases count - i, if ok then 1 else 0
        invariant 0 <= i <= count && |added| == i
        invariant trackers == old(trackers) + added
        invariant GenerateN(cfg, polar, count, old(draws))
          == Prepend(added, if ok then GenerateN(cfg, polar, count - i, draws) else Batch([], [], false))
        invariant !ok ==> draws == []
      {
        GenerateNUnfold(cfg, polar, count - i, draws, added);
        var r := GenOneTracker();
        if r.Some? {
          trackers := trackers + [r.value];
          added := added + [r.value];
          i := i + 1;
        } else {
          ok := false;
        }
      }
    }
  }
}
