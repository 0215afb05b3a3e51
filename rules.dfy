// The fixed configuration of the simulation and the pure rules built on it:
// cell symbols, the survive/born rule sets and the spawn decision for a
// random draw.

module Rules {

  /** Symbol of a live cell on screen and in both grids. */
  const ALIVE_SYM: char := 'x'
  /** Symbol of a dead cell. */
  const DEAD_SYM: char := ' '
  /** Percentage chance that a cell starts alive. */
  const SPAWN_PERC: int := 35
  /** Number of generations to run; a negative value means "forever". */
  const ITERATIONS: int := -1

  /** A live cell survives when its live-neighbour count is one of these. */
  const SURVIVE: seq<int> := [2, 3]
  /** A dead cell is born when its live-neighbour count is one of these. */
  const BORN: seq<int> := [3, 6]

  /** Linear search of BORN for the count. */
  function IsBorn(target: int): (b: bool)
    ensures b <==> target == 3 || target == 6
  {
    target in BORN
  }

  /** Linear search of SURVIVE for the count. */
  function IsSurvive(target: int): (b: bool)
    ensures b <==> target == 2 || target == 3
  {
    target in SURVIVE
  }

  /**
   * Every character other than ALIVE_SYM is read as dead: the result is
   * always one of the two symbols and is ALIVE_SYM exactly when the input is.
   */
  function Normalize(c: char): (d: char)
    ensures d == ALIVE_SYM || d == DEAD_SYM
    ensures d == ALIVE_SYM <==> c == ALIVE_SYM
  {
    if c != ALIVE_SYM then DEAD_SYM else ALIVE_SYM
  }

  /** A draw r (a non-negative rand() value) fills its cell when r % 100 + 1 <= SPAWN_PERC. */
  predicate IsFilled(r: nat)
  {
    r % 100 + 1 <= SPAWN_PERC
  }

  /** The symbol a draw puts into a cell. */
  function FillSym(r: nat): (c: char)
    ensures c == ALIVE_SYM <==> IsFilled(r)
    ensures c == DEAD_SYM <==> !IsFilled(r)
  {
    if IsFilled(r) then ALIVE_SYM else DEAD_SYM
  }

  /** The integers lo, lo + 1, ..., lo + n - 1, built one at a time. */
  ghost function Interval(lo: int, n: nat): set<int>
  {
    if n == 0 then {} else Interval(lo, n - 1) + {lo + n - 1}
  }

  lemma {:induction false} IntervalSize(lo: int, n: nat)
    ensures |Interval(lo, n)| == n
    ensures forall r :: r in Interval(lo, n) <==> lo <= r < lo + n
  {
    if n > 0 {
      IntervalSize(lo, n - 1);
    }
  }

  /**
   * Of any 100 consecutive draw values starting at a multiple of 100, exactly
   * SPAWN_PERC fill their cell: the spawn percentage read as a count.
   */
  lemma SpawnRate(k: nat)
    ensures |set r: int | 100 * k <= r < 100 * k + 100 && IsFilled(r)| == SPAWN_PERC
  {
    var filled := set r: int | 100 * k <= r < 100 * k + 100 && IsFilled(r);
    IntervalSize(100 * k, SPAWN_PERC);
    forall r: int | 100 * k <= r < 100 * k + 100
      ensures r % 100 == r - 100 * k
    {
    }
    assert filled == Interval(100 * k, SPAWN_PERC);
  }
}
