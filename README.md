# Random tracker benchmark, modelled in Dafny

The repository generates synthetic moving point targets ("trackers") for
testing a tracking algorithm. `RandomTracker` keeps exactly `N` trackers
inside the square arena `[0, L] x [0, L]`. Each tracker is a row
`[x, y, vx, vy]`. A tracker enters at a random point on the boundary and
moves in a straight line at constant velocity. When it leaves the arena it
is replaced by a freshly generated one.

The model has two modules:

- `TrackerModel` (`tracker_model.dfy`) holds the values and the pure
  specification. It defines a row, the configuration, and one `Candidate`,
  which is the record of the random draws made by one iteration of the
  rejection loop. It also holds the side-to-boundary-point mapping, the
  distance test, the generator, the three phases of a step as functions, and
  the lemmas about them.
- `Simulator` (`random_tracker.dfy`) holds the class `RandomTracker`. Its
  fields are the fixed configuration, the population `trackers`, the
  supply `draws` of candidates not yet drawn, and the flag `complete`. The
  constructor fills the population in a loop. `GenOneTracker` runs the
  rejection loop over `draws`. `Step` runs the move, the listing of the
  out-of-bound rows, the deletion and the refill in order. Each phase is a
  loop, and each is proved against the function in `TrackerModel` that
  specifies it.

Randomness is an input, so the whole simulator is a deterministic function
of its configuration and of the supply of draws. A supply can run out,
which the unbounded `while(True)` of `gen_one_tracker` never does. When it
runs out, `GenOneTracker` returns `None` and the fill or refill in progress
stops: `Step` reports `ok == false`, and the constructor leaves the
remaining rows at zero, as `np.zeros` created them. In both cases
`complete` becomes false, which falsifies `Valid()`, so no further `Step`
can run over a population that is not made of generated rows.

Two choices follow the code directly:

- `np.random.rand()*L` lies in `[0, L)`, so `BoundaryPointOnEdge` proves
  that an entry point's free coordinate lies in `[0, L)`.
- `__init__` validates none of its arguments, so the constructor requires
  nothing. The lemmas state the assumptions they need themselves (`L > 0`,
  draws in numpy's ranges). The constructor keeps the defaults of
  `__init__` (`N = 1`, `DT = 0.02`, `L = 100`, `Noise = 0.1`, `vmin = 5`,
  `vmax = 40`, `dmin = 0.5`); its first two parameters are the trigonometry
  `polar` and the supply of draws, which have no counterpart there.

## Model

| member | source | states |
|---|---|---|
| TrackerModel.BoundaryPointOnEdge | random_tracker.py:49-62 | for `u` in `[0,1)` and `L > 0`: side 0 gives `y = 0`, side 1 `x = L`, side 2 `y = L`, side 3 `x = 0`, the other coordinate is in `[0, L)`, and the point lies on an edge of the arena |
| TrackerModel.BoundaryPointInjective | random_tracker.py:49-62 | away from the corners, the boundary point determines both the side pick and the uniform draw that produced it |
| TrackerModel.FarEnoughIffNorm | random_tracker.py:63-65 | the square-root-free test accepts exactly when the Euclidean norm of `p1 - p0` is at least `L*dmin`, for every value of `dmin` |
| TrackerModel.AcceptsWithoutMinimum | random_tracker.py:65 | with `L >= 0` and `dmin <= 0`, every candidate passes the distance test |
| TrackerModel.FirstCandidateWithoutMinimum | random_tracker.py:46-65 | with `L >= 0` and `dmin <= 0`, the rejection loop takes the first candidate |
| TrackerModel.SpeedInRange | random_tracker.py:66 | the speed `np.random.uniform(vmin, vmax)` lies in `[vmin, vmax]`, and strictly below `vmax` when `vmin < vmax` |
| TrackerModel.NewRowOnEdge | random_tracker.py:49-69 | an accepted candidate's row is positioned at the first end point `p0`; both end points are on the boundary; and `p0` is at least `L*dmin` from `p1` |
| TrackerModel.FirstAccepted | random_tracker.py:46-71 | returns the index of the first candidate that passes the distance test (every earlier one fails it), or the number of draws when none passes |
| TrackerModel.GenOne | random_tracker.py:46-71 | when no candidate is accepted, every draw is consumed; otherwise fewer draws remain |
| TrackerModel.GenOneSpec | random_tracker.py:45-71 | `gen_one_tracker` returns exactly when some candidate is accepted; it returns the first accepted candidate's row and consumes the draws up to and including that candidate |
| TrackerModel.GenerateN | random_tracker.py:79-80 | `k` successive generator calls yield at most `k` rows |
| TrackerModel.GenerateNSize | random_tracker.py:79-80 | a batch of generator calls is complete exactly when it holds `k` rows; an incomplete batch used up every draw |
| TrackerModel.GenerateNFromAccepted | random_tracker.py:42-43 | every generated row is the row of some accepted candidate among the draws |
| TrackerModel.GenerateNOnEdge | random_tracker.py:42-43 | with draws in numpy's ranges and `L > 0`, every generated row starts on the boundary |
| TrackerModel.MoveAllSpec | random_tracker.py:74 | moving keeps the row count; every position becomes `pos + DT*vel`, and every velocity is unchanged |
| TrackerModel.MatchingRowsSpec | random_tracker.py:75 | the listed indices are in range and strictly ascending, and an index is listed exactly when its row matches the boundary predicate |
| TrackerModel.MatchingRowsCount | random_tracker.py:75 | the number of indices listed as out of bounds and the number listed as inside the arena add up to the number of rows |
| TrackerModel.DeleteRows | random_tracker.py:76 | deleting rows never lengthens the population |
| TrackerModel.RemovalSpec | random_tracker.py:75-76 | removal keeps exactly the rows inside `[0,L]x[0,L]` (boundary values included) in their original order; a row is listed for removal exactly when `x>L`, `x<0`, `y>L` or `y<0`; kept plus removed equals the old count |
| TrackerModel.StepSpecProperties | random_tracker.py:73-80 | from `N` rows, the survivors form a prefix of the new population; at most as many rows are appended as were removed, exactly as many when the draws suffice; the population is `N` again exactly when the draws suffice |
| TrackerModel.StepWithoutExits | random_tracker.py:73-80 | a step in which no tracker leaves the arena moves every row and consumes no draws |
| TrackerModel.StepAppendsOnEdge | random_tracker.py:77-80 | with draws in numpy's ranges and `L > 0`, every row appended by a step starts on the boundary |
| TrackerModel.RunKeepsPopulation | random_tracker.py:73-80 | after any number of completed steps from `N` rows, the population has `N` rows |
| TrackerModel.InitialRowsSpec | random_tracker.py:40-43 | the constructor always leaves `N` rows; when the draws suffice, each row is a generator result, and with draws in range each row starts on the boundary |
| Simulator.RandomTracker.constructor | random_tracker.py:32-43 | stores the configuration, with the defaults of `__init__`; `trackers` becomes the generated rows written over `np.zeros((N,4))`, with the draws left over; the population has `N` rows; `complete`, and with it `Valid()`, holds exactly when all `N` rows were generated |
| Simulator.RandomTracker.GenOneTracker | random_tracker.py:45-71 | the rejection loop over the supply of draws returns, and consumes, what `GenOne` specifies |
| Simulator.RandomTracker.Step | random_tracker.py:73-80 | the new population, the draws left and `ok` are those of `StepSpec`; `complete` becomes `ok`, and `Valid()` holds again exactly when `ok` |
| Simulator.RandomTracker.Advance | random_tracker.py:74 | the population becomes `MoveAll` of the old one |
| Simulator.RandomTracker.RowsOutOfBound | random_tracker.py:75 | returns the ascending indices in `range(N)` of the rows outside the arena |
| Simulator.RandomTracker.DeleteRowsAt | random_tracker.py:76 | `np.delete`: the population loses the rows at the listed indices, in order |
| Simulator.RandomTracker.Replenish | random_tracker.py:77-80 | appends `N - n` generator results or as many as the draws allow, and `ok` says whether they sufficed |

## Left out

- `draw`, `print_trackers` and the `__main__` driver (random_tracker.py:82-104) are plotting, console output and pacing. `TrackerModel.Run` stands in for the driver's repeated `step` calls.
- numpy's random generator is replaced by the supplied draws. One `Candidate` holds the two side picks, the two `rand()` factors, and the unit draw behind `uniform(vmin, vmax)`. The order in which numpy consumes its stream is not modelled. In particular, `gen_one_tracker` draws the speed only after acceptance.
- The velocity `v*cos(arctan2(dy,dx)), v*sin(arctan2(dy,dx))` is floating-point trigonometry. It is the parameter `polar`, applied to the speed and to `p1 - p0`. So no claim is made that `sqrt(vx²+vy²)` lies in `[vmin, vmax]`; `SpeedInRange` covers only the speed passed to `polar`.
- `LA.norm` is replaced by a squared-distance comparison, which `FarEnoughIffNorm` proves equivalent.
- Coordinates are mathematical reals, not 64-bit floats, so rounding in `pos + DT*vel` and `rand()*L` is not modelled.
- `Noise` is stored in the configuration and never used, as in `RandomTracker`.
- The rejection loop's termination holds only with probability 1 and is not claimed. A finite supply of draws stands in for it, and running out is reported instead.
- Simulator.RandomTracker.constructor: where `__init__` would go on drawing for ever, the constructor returns with the unfilled rows at zero and `complete == false`, so `Valid()` fails and `Step` cannot be called.
- `N` is a `nat`: the negative `N` for which `np.zeros((N,4))` raises is not representable, so that error path is not modelled.
- `RandomTracker.Step` requires `Valid()`, that is `N` generated rows, because `range(self.N)` indexes the rows. With fewer rows `step` would fail with an index error, a path this model does not represent.
