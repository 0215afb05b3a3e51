// The two screen grids and the generation step that reads one and writes the
// other. CUR_GRID is what the terminal shows, NEXT_GRID what it shows next;
// both hold MAX_Y rows of MAX_X cells and are indexed [y][x], so here a cell
// is cur[y, x] / next[y, x]. MAX_X is the terminal's row count and MAX_Y its
// column count (the source takes them from the terminal the other way round
// and keeps to that naming everywhere).

module Life {
  import opened Rules
  import opened Random

  class Board {
    /** MAX_X: number of cells in a row (the second index). */
    const maxX: nat
    /** MAX_Y: number of rows (the first index). */
    const maxY: nat
    /** CUR_GRID: the generation on screen. */
    const cur: array2<char>
    /** NEXT_GRID: the generation to be shown next. */
    const next: array2<char>

    /** Both grids are MAX_Y by MAX_X and are two distinct buffers. */
    ghost predicate Valid()
    {
      cur.Length0 == maxY && cur.Length1 == maxX &&
      next.Length0 == maxY && next.Length1 == maxX &&
      cur != next
    }

    /**
     * The allocation part of prepareTerminal: the size is the configured one
     * when both dimensions are configured (non-zero), otherwise the
     * terminal's, with MAX_X taken from its rows and MAX_Y from its columns.
     * Every cell starts as the character '\0', which is neither symbol.
     */
    constructor (configX: nat, configY: nat, termRows: nat, termCols: nat)
      ensures Valid() && fresh(cur) && fresh(next)
      ensures configX == 0 || configY == 0 ==> maxX == termRows && maxY == termCols
      ensures configX != 0 && configY != 0 ==> maxX == configX && maxY == configY
      ensures forall y, x :: 0 <= y < maxY && 0 <= x < maxX ==> cur[y, x] == '\0'
      ensures forall y, x :: 0 <= y < maxY && 0 <= x < maxX ==> next[y, x] == '\0'
    {
      var mx, my := configX, configY;
      if configX == 0 || configY == 0 {
        mx, my := termRows, termCols;
      }
      maxX, maxY := mx, my;
      cur := new char[my, mx]((y, x) => '\0');
      next := new char[my, mx]((y, x) => '\0');
    }

    // ---------------------------------------------------------------------
    // Reading the current generation

    /** isValidCoor: (x, y) names a cell of the grids. */
    predicate IsValidCoor(x: int, y: int)
    {
      x >= 0 && x < maxX && y >= 0 && y < maxY
    }

    /** The coordinates isValidCoor accepts are exactly those that index both grids. */
    lemma ValidCoorIndexesGrids(x: int, y: int)
      requires Valid()
      ensures IsValidCoor(x, y) <==> 0 <= y < cur.Length0 && 0 <= x < cur.Length1
      ensures IsValidCoor(x, y) <==> 0 <= y < next.Length0 && 0 <= x < next.Length1
    {
    }

    /**
     * readCellFromTerminal: the current cell, with every position off the
     * grid reading as dead, so a live read always comes from a live cell
     * that really is on the grid.
     */
    function ReadCellFromTerminal(x: int, y: int): (c: char)
      requires Valid()
      reads cur
      ensures IsValidCoor(x, y) ==> c == cur[y, x]
      ensures !IsValidCoor(x, y) ==> c == DEAD_SYM
      ensures c == ALIVE_SYM ==> IsValidCoor(x, y) && cur[y, x] == ALIVE_SYM
    {
      if !IsValidCoor(x, y) then DEAD_SYM else cur[y, x]
    }

    /** One guarded increment of getNumNeighborsFromTerminal. */
    function Indicator(i: int, j: int, target: char): (n: nat)
      requires Valid()
      reads cur
      ensures n <= 1
      ensures n == 1 <==> IsValidCoor(i, j) && (target == ALIVE_SYM || target == DEAD_SYM) &&
                          (cur[j, i] == ALIVE_SYM <==> target == ALIVE_SYM)
    {
      if IsValidCoor(i, j) && Normalize(ReadCellFromTerminal(i, j)) == target then 1 else 0
    }

    /**
     * getNumNeighborsFromTerminal: how many of the eight surrounding cells
     * that lie on the grid are live (alive) or not live (!alive).
     */
    function GetNumNeighborsFromTerminal(x: int, y: int, alive: bool): (n: int)
      requires Valid()
      reads cur
      ensures 0 <= n <= 8
    {
      var target := if alive then ALIVE_SYM else DEAD_SYM;
      Indicator(x, y - 1, target) +      // above
      Indicator(x, y + 1, target) +      // below
      Indicator(x + 1, y, target) +      // right
      Indicator(x - 1, y, target) +      // left
      Indicator(x + 1, y - 1, target) +  // up right
      Indicator(x - 1, y - 1, target) +  // up left
      Indicator(x - 1, y + 1, target) +  // bottom left
      Indicator(x + 1, y + 1, target)    // bottom right
    }

    /**
     * The positions at Chebyshev distance exactly 1 from (x, y), on the grid
     * or not: exactly the eight that getNumNeighborsFromTerminal probes, in
     * its order (above, below, right, left, up right, up left, bottom left,
     * bottom right), all distinct.
     */
    ghost function Around(x: int, y: int): (s: set<(int, int)>)
      ensures s == {(x, y - 1), (x, y + 1), (x + 1, y), (x - 1, y),
                    (x + 1, y - 1), (x - 1, y - 1), (x - 1, y + 1), (x + 1, y + 1)}
      ensures |s| == 8
    {
      set i, j | x - 1 <= i <= x + 1 && y - 1 <= j <= y + 1 && (i, j) != (x, y) :: (i, j)
    }

    /** The neighbours of (x, y) that lie on the grid; positions never wrap around an edge. */
    ghost function InBoundsNeighbors(x: int, y: int): set<(int, int)>
    {
      set p | p in Around(x, y) && IsValidCoor(p.0, p.1)
    }

    /** Those of InBoundsNeighbors(x, y) whose current cell is live (alive) or not (!alive). */
    ghost function NeighborsWhere(x: int, y: int, alive: bool): set<(int, int)>
      requires Valid()
      reads cur
    {
      set p | p in InBoundsNeighbors(x, y) && (cur[p.1, p.0] == ALIVE_SYM) == alive
    }

    /** The contribution of one position to NeighborsWhere. */
    ghost function Hit(i: int, j: int, alive: bool): (s: set<(int, int)>)
      requires Valid()
      reads cur
      ensures s <= {(i, j)}
    {
      if IsValidCoor(i, j) && (cur[j, i] == ALIVE_SYM) == alive then {(i, j)} else {}
    }

    /** A position contributes to the set exactly what its guarded increment adds to the count. */
    lemma HitSize(i: int, j: int, alive: bool)
      requires Valid()
      ensures |Hit(i, j, alive)| == Indicator(i, j, if alive then ALIVE_SYM else DEAD_SYM)
    {
    }

    /** Adding a set of at most one new position adds its size. */
    static lemma AddAtMostOne(u: set<(int, int)>, s: set<(int, int)>, p: (int, int))
      requires s <= {p} && p !in u
      ensures |u + s| == |u| + |s|
    {
      if s != {} {
        assert s == {p};
      } else {
        assert u + s == u;
      }
    }

    static lemma DisjointUnionSize(a: set<(int, int)>, b: set<(int, int)>)
      requires a !! b
      ensures |a + b| == |a| + |b|
    {
      assert a * b == {};
    }

    /** The eight positions' contributions together make up the neighbour set. */
    lemma NeighborsAsUnion(x: int, y: int, alive: bool)
      requires Valid()
      ensures NeighborsWhere(x, y, alive) ==
              Hit(x - 1, y - 1, alive) + Hit(x, y - 1, alive) + Hit(x + 1, y - 1, alive) + Hit(x - 1, y, alive) +
              Hit(x + 1, y, alive) + Hit(x - 1, y + 1, alive) + Hit(x, y + 1, alive) + Hit(x + 1, y + 1, alive)
    {
      NeighborsWithinHits(x, y, alive);
      HitInNeighbors(x, y, alive, x, y - 1);
      HitInNeighbors(x, y, alive, x, y + 1);
      HitInNeighbors(x, y, alive, x + 1, y);
      HitInNeighbors(x, y, alive, x - 1, y);
      HitInNeighbors(x, y, alive, x + 1, y - 1);
      HitInNeighbors(x, y, alive, x - 1, y - 1);
      HitInNeighbors(x, y, alive, x - 1, y + 1);
      HitInNeighbors(x, y, alive, x + 1, y + 1);
    }

    /** Every member of the neighbour set is the contribution of one of the eight positions. */
    lemma NeighborsWithinHits(x: int, y: int, alive: bool)
      requires Valid()
      ensures NeighborsWhere(x, y, alive) <=
              Hit(x - 1, y - 1, alive) + Hit(x, y - 1, alive) + Hit(x + 1, y - 1, alive) + Hit(x - 1, y, alive) +
              Hit(x + 1, y, alive) + Hit(x - 1, y + 1, alive) + Hit(x, y + 1, alive) + Hit(x + 1, y + 1, alive)
    {
      var top := Hit(x - 1, y - 1, alive) + Hit(x, y - 1, alive) + Hit(x + 1, y - 1, alive);
      var middle := Hit(x - 1, y, alive) + Hit(x + 1, y, alive);
      var bottom := Hit(x - 1, y + 1, alive) + Hit(x, y + 1, alive) + Hit(x + 1, y + 1, alive);
      forall p | p in NeighborsWhere(x, y, alive)
        ensures p in top || p in middle || p in bottom
      {
        var (i, j) := p;
        assert p in Hit(i, j, alive);
      }
      assert top + middle + bottom ==
             Hit(x - 1, y - 1, alive) + Hit(x, y - 1, alive) + Hit(x + 1, y - 1, alive) + Hit(x - 1, y, alive) +
             Hit(x + 1, y, alive) + Hit(x - 1, y + 1, alive) + Hit(x, y + 1, alive) + Hit(x + 1, y + 1, alive);
    }

    /** The contribution of a position around (x, y) lies in the neighbour set. */
    lemma HitInNeighbors(x: int, y: int, alive: bool, i: int, j: int)
      requires Valid() && (i, j) in Around(x, y)
      ensures Hit(i, j, alive) <= NeighborsWhere(x, y, alive)
    {
    }

    /**
     * The eight guarded increments count exactly the neighbour set: every
     * in-grid position around (x, y) once, and nothing else.
     */
    lemma NeighborCountMatchesSet(x: int, y: int, alive: bool)
      requires Valid()
      ensures GetNumNeighborsFromTerminal(x, y, alive) == |NeighborsWhere(x, y, alive)|
    {
      var s1 := Hit(x, y - 1, alive);
      var s2 := Hit(x, y + 1, alive);
      var s3 := Hit(x + 1, y, alive);
      var s4 := Hit(x - 1, y, alive);
      var s5 := Hit(x + 1, y - 1, alive);
      var s6 := Hit(x - 1, y - 1, alive);
      var s7 := Hit(x - 1, y + 1, alive);
      var s8 := Hit(x + 1, y + 1, alive);
      HitSize(x, y - 1, alive);
      HitSize(x, y + 1, alive);
      HitSize(x + 1, y, alive);
      HitSize(x - 1, y, alive);
      HitSize(x + 1, y - 1, alive);
      HitSize(x - 1, y - 1, alive);
      HitSize(x - 1, y + 1, alive);
      HitSize(x + 1, y + 1, alive);
      NeighborsAsUnion(x, y, alive);
      EightAroundSize(x, y, s6, s1, s5, s4, s3, s7, s2, s8);
    }

    /** Numbers the 3 by 3 block around (x, y) row by row, from -4 at (x - 1, y - 1) to 4 at (x + 1, y + 1). */
    static function BlockKey(p: (int, int), x: int, y: int): int
    {
      3 * (p.1 - y) + (p.0 - x)
    }

    /** Adding at most the position numbered k to a set of lower-numbered positions adds its size. */
    static lemma AddNext(u: set<(int, int)>, s: set<(int, int)>, p: (int, int), x: int, y: int, k: int)
      requires s <= {p} && BlockKey(p, x, y) == k
      requires forall q :: q in u ==> BlockKey(q, x, y) < k
      ensures |u + s| == |u| + |s|
      ensures forall q :: q in u + s ==> BlockKey(q, x, y) < k + 1
    {
      AddAtMostOne(u, s, p);
    }

    /**
     * Eight sets, each holding at most its own one of the eight positions
     * around (x, y), taken row by row, add up in size.
     */
    static lemma EightAroundSize(x: int, y: int, nw: set<(int, int)>, n: set<(int, int)>, ne: set<(int, int)>,
                                 w: set<(int, int)>, e: set<(int, int)>,
                                 sw: set<(int, int)>, s: set<(int, int)>, se: set<(int, int)>)
      requires nw <= {(x - 1, y - 1)} && n <= {(x, y - 1)} && ne <= {(x + 1, y - 1)}
      requires w <= {(x - 1, y)} && e <= {(x + 1, y)}
      requires sw <= {(x - 1, y + 1)} && s <= {(x, y + 1)} && se <= {(x + 1, y + 1)}
      ensures |nw + n + ne + w + e + sw + s + se| == |nw| + |n| + |ne| + |w| + |e| + |sw| + |s| + |se|
    {
      AddNext({}, nw, (x - 1, y - 1), x, y, -4);
      assert {} + nw == nw;
      AddNext(nw, n, (x, y - 1), x, y, -3);
      AddNext(nw + n, ne, (x + 1, y - 1), x, y, -2);
      AddNext(nw + n + ne, w, (x - 1, y), x, y, -1);
      AddNext(nw + n + ne + w, e, (x + 1, y), x, y, 1);
      AddNext(nw + n + ne + w + e, sw, (x - 1, y + 1), x, y, 2);
      AddNext(nw + n + ne + w + e + sw, s, (x, y + 1), x, y, 3);
      AddNext(nw + n + ne + w + e + sw + s, se, (x + 1, y + 1), x, y, 4);
    }

    /**
     * Every in-grid neighbour is counted either as live or as not live:
     * the two counts add up to the number of neighbours on the grid.
     */
    lemma NeighborCountsPartition(x: int, y: int)
      requires Valid()
      ensures GetNumNeighborsFromTerminal(x, y, true) + GetNumNeighborsFromTerminal(x, y, false)
              == |InBoundsNeighbors(x, y)|
    {
      NeighborCountMatchesSet(x, y, true);
      NeighborCountMatchesSet(x, y, false);
      assert InBoundsNeighbors(x, y) == NeighborsWhere(x, y, true) + NeighborsWhere(x, y, false);
      DisjointUnionSize(NeighborsWhere(x, y, true), NeighborsWhere(x, y, false));
    }

    /** A corner cell has at most three neighbours of either kind: nothing wraps. */
    lemma CornerNeighborBound(x: int, y: int, alive: bool)
      requires Valid() && IsValidCoor(x, y)
      requires x == 0 || x == maxX - 1
      requires y == 0 || y == maxY - 1
      ensures GetNumNeighborsFromTerminal(x, y, alive) <= 3
    {
    }

    /** A cell on an edge has at most five neighbours of either kind. */
    lemma EdgeNeighborBound(x: int, y: int, alive: bool)
      requires Valid() && IsValidCoor(x, y)
      requires x == 0 || x == maxX - 1 || y == 0 || y == maxY - 1
      ensures GetNumNeighborsFromTerminal(x, y, alive) <= 5
    {
    }

    // ---------------------------------------------------------------------
    // The rule

    /**
     * isAlive: whether the cell at (x, y) is live in the next generation. An
     * on-grid live cell survives with 2 or 3 live neighbours; any other
     * position (a dead cell, or one off the grid, which reads as dead) is
     * born with 3 or 6.
     */
    function IsAlive(x: int, y: int): (b: bool)
      requires Valid()
      reads cur
      ensures var n := GetNumNeighborsFromTerminal(x, y, true);
              b <==> if IsValidCoor(x, y) && cur[y, x] == ALIVE_SYM then n == 2 || n == 3 else n == 3 || n == 6
    {
      var isCurAlive := ReadCellFromTerminal(x, y) == ALIVE_SYM;
      var numAlive := GetNumNeighborsFromTerminal(x, y, true);
      if isCurAlive && IsSurvive(numAlive) then true
      else if !isCurAlive && IsBorn(numAlive) then true
      else false
    }

    /** The symbol the generation step writes for (x, y). */
    function NextSym(x: int, y: int): char
      requires Valid()
      reads cur
    {
      if IsAlive(x, y) then ALIVE_SYM else DEAD_SYM
    }

    /**
     * The rule in terms of the live-neighbour set: a live cell stays live
     * with 2 or 3 live neighbours, any other cell becomes live with 3 or 6.
     */
    lemma IsAliveFollowsRule(x: int, y: int)
      requires Valid()
      ensures var n := |NeighborsWhere(x, y, true)|;
              IsAlive(x, y) <==>
                if IsValidCoor(x, y) && cur[y, x] == ALIVE_SYM then n == 2 || n == 3 else n == 3 || n == 6
    {
      NeighborCountMatchesSet(x, y, true);
    }

    /** A live cell with no live neighbour dies (underpopulation). */
    lemma LonelyCellDies(x: int, y: int)
      requires Valid() && IsValidCoor(x, y) && cur[y, x] == ALIVE_SYM
      requires NeighborsWhere(x, y, true) == {}
      ensures !IsAlive(x, y)
    {
      IsAliveFollowsRule(x, y);
    }

    /** A dead cell all of whose eight neighbours are live stays dead: 8 is not a birth count. */
    lemma CrowdedDeadCellStaysDead(x: int, y: int)
      requires Valid() && IsValidCoor(x, y) && cur[y, x] != ALIVE_SYM
      requires |NeighborsWhere(x, y, true)| == 8
      ensures !IsAlive(x, y)
    {
      IsAliveFollowsRule(x, y);
    }

    /** A dead cell with exactly six live neighbours is born, unlike in Conway's rule. */
    lemma SixNeighborsGiveBirth(x: int, y: int)
      requires Valid() && IsValidCoor(x, y) && cur[y, x] != ALIVE_SYM
      requires |NeighborsWhere(x, y, true)| == 6
      ensures IsAlive(x, y)
    {
      IsAliveFollowsRule(x, y);
    }

    // ---------------------------------------------------------------------
    // Writing the next generation

    /** setCellInGrid: the caller guarantees an in-grid position. */
    method SetCellInGrid(x: int, y: int, out: char)
      requires Valid() && IsValidCoor(x, y)
      modifies next
      ensures next[y, x] == out
      ensures forall j, i :: 0 <= j < maxY && 0 <= i < maxX && (j, i) != (y, x) ==> next[j, i] == old(next[j, i])
    {
      next[y, x] := out;
    }

    /** readCellFromGrid: the caller guarantees an in-grid position. */
    function ReadCellFromGrid(x: int, y: int): char
      requires Valid() && IsValidCoor(x, y)
      reads next
    {
      next[y, x]
    }

    /** Every cell of NEXT_GRID holds the rule's verdict on the current generation. */
    ghost predicate HoldsNextGeneration()
      requires Valid()
      reads cur, next
    {
      forall y, x :: 0 <= y < maxY && 0 <= x < maxX ==> next[y, x] == NextSym(x, y)
    }

    /**
     * advanceGeneration: every cell of NEXT_GRID receives the rule's verdict
     * on CUR_GRID as it was before the call, and CUR_GRID is not touched, so
     * the result does not depend on the order the cells are visited in.
     */
    method AdvanceGeneration()
      requires Valid()
      modifies next
      ensures unchanged(cur)
      ensures HoldsNextGeneration()
    {
      var x := 0;
      while x < maxX
        invariant 0 <= x <= maxX
        invariant forall j, i :: 0 <= j < maxY && 0 <= i < x ==> next[j, i] == NextSym(i, j)
      {
        var y := 0;
        while y < maxY
          invariant 0 <= y <= maxY
          invariant forall j, i :: 0 <= j < maxY && 0 <= i < x ==> next[j, i] == NextSym(i, j)
          invariant forall j :: 0 <= j < y ==> next[j, x] == NextSym(x, j)
        {
          var out;
          if IsAlive(x, y) {
            out := ALIVE_SYM;
          } else {
            out := DEAD_SYM;
          }
          SetCellInGrid(x, y, out);
          y := y + 1;
        }
        x := x + 1;
      }
    }

    /**
     * The grid-copy half of printGridToTerminal: CUR_GRID becomes NEXT_GRID
     * with every non-live character replaced by DEAD_SYM; NEXT_GRID is kept.
     */
    method PrintGridToTerminal()
      requires Valid()
      modifies cur
      ensures unchanged(next)
      ensures forall y, x :: 0 <= y < maxY && 0 <= x < maxX ==> cur[y, x] == Normalize(next[y, x])
    {
      var x := 0;
      while x < maxX
        invariant 0 <= x <= maxX
        invariant forall j, i :: 0 <= j < maxY && 0 <= i < x ==> cur[j, i] == Normalize(next[j, i])
      {
        var y := 0;
        while y < maxY
          invariant 0 <= y <= maxY
          invariant forall j, i :: 0 <= j < maxY && 0 <= i < x ==> cur[j, i] == Normalize(next[j, i])
          invariant forall j :: 0 <= j < y ==> cur[j, x] == Normalize(next[j, x])
        {
          if ReadCellFromGrid(x, y) == ALIVE_SYM {
            cur[y, x] := ALIVE_SYM;
          } else {
            cur[y, x] := DEAD_SYM;
          }
          y := y + 1;
        }
        x := x + 1;
      }
    }

    /** No cell of CUR_GRID is live. */
    ghost predicate AllDead()
      requires Valid()
      reads cur
    {
      forall y, x :: 0 <= y < maxY && 0 <= x < maxX ==> cur[y, x] != ALIVE_SYM
    }

    /** isAllDead: scans CUR_GRID (and only it) for a live cell. */
    method IsAllDead() returns (b: bool)
      requires Valid()
      ensures b <==> AllDead()
    {
      var x := 0;
      while x < maxX
        invariant 0 <= x <= maxX
        invariant forall j, i :: 0 <= j < maxY && 0 <= i < x ==> cur[j, i] != ALIVE_SYM
      {
        var y := 0;
        while y < maxY
          invariant 0 <= y <= maxY
          invariant forall j :: 0 <= j < y ==> cur[j, x] != ALIVE_SYM
        {
          if cur[y, x] == ALIVE_SYM {
            return false;
          }
          y := y + 1;
        }
        x := x + 1;
      }
      return true;
    }

    /** Every cell of NEXT_GRID holds the fill symbol of its own draw, counting draws from start. */
    ghost predicate HoldsFill(stream: nat -> nat, start: nat)
      requires Valid()
      reads next
    {
      forall y, x :: 0 <= y < maxY && 0 <= x < maxX ==> next[y, x] == FillSym(stream(start + DrawIndex(x, y)))
    }

    /** initializeLife fills column by column: the cell (x, y) takes the (x * MAX_Y + y)-th draw. */
    function DrawIndex(x: nat, y: nat): nat
    {
      x * maxY + y
    }

    /** Each cell of the grid takes its own draw, and the fill uses exactly MAX_X * MAX_Y draws. */
    lemma DrawIndexIsOneToOne(x1: nat, y1: nat, x2: nat, y2: nat)
      requires IsValidCoor(x1, y1) && IsValidCoor(x2, y2)
      ensures DrawIndex(x1, y1) < maxX * maxY
      ensures DrawIndex(x1, y1) == DrawIndex(x2, y2) ==> x1 == x2 && y1 == y2
    {
      MulMonotone(x1 + 1, maxX, maxY);
      if x1 < x2 {
        MulMonotone(x1 + 1, x2, maxY);
      } else if x2 < x1 {
        MulMonotone(x2 + 1, x1, maxY);
      }
    }

    static lemma {:induction false} MulMonotone(a: nat, b: nat, m: nat)
      requires a <= b
      ensures a * m <= b * m
    {
      if a < b {
        MulMonotone(a, b - 1, m);
        assert b * m == (b - 1) * m + m;
      }
    }

    /**
     * initializeLife: draws one value per cell, column by column (x outer,
     * y inner), and writes into NEXT_GRID the cell's fill symbol; CUR_GRID
     * is not touched.
     */
    method InitializeLife(rng: Prng)
      requires Valid()
      modifies next, rng
      ensures unchanged(cur)
      ensures rng.calls == old(rng.calls) + maxX * maxY
      ensures HoldsFill(rng.stream, old(rng.calls))
    {
      ghost var start := rng.calls;
      var x := 0;
      while x < maxX
        invariant 0 <= x <= maxX
        invariant rng.calls == start + DrawIndex(x, 0)
        invariant forall j, i :: 0 <= j < maxY && 0 <= i < x ==> next[j, i] == FillSym(rng.stream(start + DrawIndex(i, j)))
      {
        var y := 0;
        while y < maxY
          invariant 0 <= y <= maxY
          invariant rng.calls == start + DrawIndex(x, y)
          invariant forall j, i :: 0 <= j < maxY && 0 <= i < x ==> next[j, i] == FillSym(rng.stream(start + DrawIndex(i, j)))
          invariant forall j :: 0 <= j < y ==> next[j, x] == FillSym(rng.stream(start + DrawIndex(x, j)))
        {
          var r := rng.Rand();
          var isFilled := r % 100 + 1 <= SPAWN_PERC;
          SetCellInGrid(x, y, if isFilled then ALIVE_SYM else DEAD_SYM);
          y := y + 1;
        }
        assert DrawIndex(x, maxY) == DrawIndex(x + 1, 0);
        x := x + 1;
      }
    }
  }
}
