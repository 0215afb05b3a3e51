// The bookkeeping of the program's main loop: the generation counter, the
// reset on a space keypress and the exit once the shown generation is dead.
// Drawing, sleeping and the terminal are not part of this model; a pass's
// keypress (the result of its getch call) is an input.

module Driver {
  import opened Rules
  import opened Random
  import opened Life

  /** How a run of the main loop ends. */
  datatype Outcome =
    | AllDead(level: int)  // every shown cell is dead; LEVEL = ITERATIONS - iteration is reported
    | Interrupted          // the supplied keypresses ran out: the process was stopped from outside

  /**
   * The generation counter after a sequence of completed passes whose
   * keypresses were keys: the number of passes since the last space, that
   * is, the length of the longest space-free suffix of keys.
   */
  function Counter(keys: seq<char>): (n: nat)
    ensures n <= |keys|
    ensures forall i :: |keys| - n <= i < |keys| ==> keys[i] != ' '
    ensures n < |keys| ==> keys[|keys| - n - 1] == ' '
  {
    if keys == [] then 0
    else if keys[|keys| - 1] == ' ' then 0
    else Counter(keys[..|keys| - 1]) + 1
  }

  /**
   * One pass of the loop in main: count the generation, show NEXT_GRID
   * (which copies it into CUR_GRID), compute the following generation into
   * NEXT_GRID, stop if the shown generation has no live cell, and otherwise
   * restart from a fresh random grid with the counter at 0 when the
   * keypress was a space.
   */
  method Pass(board: Board, rng: Prng, iteration: int, key: char) returns (counter: int, exit: bool)
    requires board.Valid()
    modifies board.cur, board.next, rng
    ensures forall y, x :: 0 <= y < board.maxY && 0 <= x < board.maxX ==>
              board.cur[y, x] == Normalize(old(board.next[y, x]))
    ensures exit <==> forall y, x :: 0 <= y < board.maxY && 0 <= x < board.maxX ==> old(board.next[y, x]) != ALIVE_SYM
    ensures exit || key != ' ' ==>
              counter == iteration + 1 && rng.calls == old(rng.calls) && board.HoldsNextGeneration()
    ensures !exit && key == ' ' ==>
              counter == 0 && rng.calls == old(rng.calls) + board.maxX * board.maxY &&
              board.HoldsFill(rng.stream, old(rng.calls))
  {
    counter := iteration + 1;
    board.PrintGridToTerminal();
    label Shown:
    board.AdvanceGeneration();
    exit := board.IsAllDead();
    if exit {
      return;
    }
    // The shown generation has a live cell, which it took from NEXT_GRID.
    ghost var y0, x0 :| 0 <= y0 < board.maxY && 0 <= x0 < board.maxX && board.cur[y0, x0] == ALIVE_SYM;
    assert old(board.next[y0, x0]) == ALIVE_SYM;
    if key == ' ' {
      board.InitializeLife(rng);
      assert unchanged@Shown(board.cur);
      counter := 0;
    }
  }

  /**
   * main after the terminal is prepared: fill NEXT_GRID at random and run
   * passes while iteration != ITERATIONS, one keypress per pass. The counter
   * never reaches ITERATIONS (-1), so only a dead generation or the end of
   * the keypresses ends the run.
   */
  method Run(board: Board, rng: Prng, keys: seq<char>) returns (iteration: int, outcome: Outcome)
    requires board.Valid()
    modifies board.cur, board.next, rng
    ensures iteration >= 0
    ensures outcome.AllDead? ==>
              board.AllDead() && outcome.level == ITERATIONS - iteration &&
              exists k :: 0 <= k < |keys| && iteration == Counter(keys[..k]) + 1
    ensures outcome.Interrupted? ==> iteration == Counter(keys)
  {
    iteration := 0;
    board.InitializeLife(rng);
    var k := 0;
    while iteration != ITERATIONS && k < |keys|
      invariant 0 <= k <= |keys|
      invariant iteration == Counter(keys[..k])
      decreases |keys| - k
    {
      var exit;
      iteration, exit := Pass(board, rng, iteration, keys[k]);
      if exit {
        return iteration, AllDead(ITERATIONS - iteration);
      }
      assert keys[..k + 1][..k] == keys[..k];
      k := k + 1;
    }
    assert keys[..k] == keys;
    outcome := Interrupted;
  }
}
