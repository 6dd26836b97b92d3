/**
 * The board engine: a dim-by-dim board of tiles stored row-major in a
 * UInt32Array, with a score, an undo budget and a link to the board it was
 * moved from. The boards reachable through that link form the undo history.
 *
 * Each loop body is a method of its own, proved against the row and board
 * functions of RowMoves. Some of these methods take ghost parameters that
 * only name a sum: `n` for col + 1, `next` for base + dim, `p'` for p + 1.
 * With the sum named once, the caller's and the callee's contracts speak of
 * the same term, and the solver need not relate two spellings of it.
 * JoinRows is a sequence identity kept apart for the same reason.
 */
module GameStates {
  import opened Ints
  import opened RowMoves
  import opened Spawning
  import opened UInt32Arrays

  /** A board coordinate, as `add_random` collects them. */
  datatype Index = Index(i: nat, j: nat)

  /**
   * Row `i` of a dim-wide board starts at offset Mul(i, dim), the next row
   * dim cells later, and a row above the last ends inside the board.
   */
  lemma RowStart(i: nat, dim: nat)
    requires i <= dim
    ensures Mul(i, dim) <= Mul(dim, dim)
    ensures Mul(i + 1, dim) == Mul(i, dim) + dim
    ensures i < dim ==> Mul(i, dim) + dim <= Mul(dim, dim)
  {
    MulMonotone(i, dim, dim);
    if i < dim {
      MulMonotone(i + 1, dim, dim);
    }
  }

  /** The linear index `(i * dim) + j` of a coordinate on a dim-wide board. */
  function Linear(ix: Index, dim: nat): nat
  {
    Mul(ix.i, dim) + ix.j
  }

  /** The linear indices of a sequence of coordinates. */
  function Linears(s: seq<Index>, dim: nat): (r: seq<nat>)
    ensures |r| == |s|
  {
    if s == [] then [] else Linears(s[..|s| - 1], dim) + [Linear(s[|s| - 1], dim)]
  }

  /** One more coordinate adds its linear index. */
  lemma LinearsSnoc(s: seq<Index>, x: Index, dim: nat)
    ensures Linears(s + [x], dim) == Linears(s, dim) + [Linear(x, dim)]
  {
    assert (s + [x])[..|s + [x]| - 1] == s;
  }

  lemma {:induction false} LinearsAt(s: seq<Index>, dim: nat, t: nat)
    requires t < |s|
    ensures Linears(s, dim)[t] == Linear(s[t], dim)
  {
    if t < |s| - 1 {
      assert s[..|s| - 1][t] == s[t];
      LinearsAt(s[..|s| - 1], dim, t);
    }
  }

  class GameState {
    const tiles: UInt32Array
    const dim: nat
    const prevLeft: nat
    var prev: GameState?
    var score: u32

    /** The tile storage exists and holds exactly dim*dim cells. */
    ghost predicate Valid()
      reads tiles
    {
      tiles.Valid() && tiles.items != null && tiles.length == Mul(dim, dim)
    }

    /** The cells of the board, row by row. */
    ghost function Cells(): (c: seq<u32>)
      reads tiles, tiles.items
      requires Valid()
      ensures |c| == Mul(dim, dim)
    {
      tiles.Contents()
    }

    /** The compound literal `(GameState){...}`, with no previous board. */
    constructor (tiles: UInt32Array, dim: nat, prevLeft: nat, score: u32)
      ensures this.tiles == tiles && this.dim == dim && this.prevLeft == prevLeft
      ensures this.score == score && this.prev == null
    {
      this.tiles := tiles;
      this.dim := dim;
      this.prevLeft := prevLeft;
      this.prev := null;
      this.score := score;
    }

    /**
     * `GameState_get`: the cell at linear index i*dim + j. The coordinates
     * are not checked one by one; only the linear index is bounded, and past
     * the board it reads 0.
     */
    function Get(i: nat, j: nat): (v: u32)
      reads tiles, tiles.items
      requires tiles.Valid()
      ensures Valid() && Mul(i, dim) + j < Mul(dim, dim) ==> v == tiles.items[Mul(i, dim) + j]
      ensures Valid() && Mul(i, dim) + j >= Mul(dim, dim) ==> v == 0
    {
      tiles.Get(Mul(i, dim) + j)
    }

    /** `GameState_set`: writes the cell at linear index i*dim + j if it is on the board. */
    method Set(i: nat, j: nat, val: u32) returns (ok: bool)
      requires Valid()
      modifies tiles.items
      ensures Valid()
      ensures ok == (Mul(i, dim) + j < Mul(dim, dim))
      ensures Cells() == if ok then old(Cells())[Mul(i, dim) + j := val] else old(Cells())
    {
      ok := tiles.Set(Mul(i, dim) + j, val);
    }

    /**
     * `GameState_add_random`: counts the empty cells, collects their
     * coordinates in a fresh buffer and writes a 2 or a 4 into one of them.
     * `pick` and `roll` are the two `rand()` results; `allocFails` stands for
     * `malloc` of the coordinate buffer returning NULL. A full board is
     * reported before anything is allocated.
     */
    method AddRandom(pick: nat, roll: nat, allocFails: bool) returns (added: bool)
      requires Valid()
      modifies tiles.items
      ensures Valid()
      ensures added == (|EmptyCells(old(Cells()))| > 0 && !allocFails)
      ensures Cells() == if added then Spawn(old(Cells()), pick, roll) else old(Cells())
    {
      var zeroCount := CountEmpty();
      if zeroCount == 0 {
        return false;
      }
      if allocFails {
        return false;
      }
      var avail := CollectEmpty(zeroCount);
      EmptyCellsExact(Cells());
      var randomIdx := pick % zeroCount;
      var newTile := avail[randomIdx];
      var value: u32 := if roll % 10 < 9 then 2 else 4;
      LinearsAt(avail[..], dim, randomIdx);
      var _ := Set(newTile.i, newTile.j, value);
      added := true;
    }

    /** Cell j of row i is the cell at linear index p. */
    lemma GetCell(i: nat, j: nat, p: nat)
      requires Valid() && p == Mul(i, dim) + j && p < Mul(dim, dim)
      ensures Get(i, j) == Cells()[p]
    {
    }

    /** The counting loop of `GameState_add_random`: the number of empty cells. */
    method CountEmpty() returns (zeroCount: nat)
      requires Valid()
      ensures zeroCount == |EmptyCells(Cells())|
    {
      ghost var cells := Cells();
      var dim := this.dim;
      zeroCount := 0;
      ghost var base: nat := 0;
      for i := 0 to dim
        invariant base == Mul(i, dim) && base <= |cells|
        invariant zeroCount == |EmptyCells(cells[..base])|
      {
        RowStart(i, dim);
        ghost var next := base + dim;
        zeroCount := CountEmptyInRow(i, base, next, zeroCount);
        base := next;
      }
      assert cells[..base] == cells;
    }

    /** One row of the counting loop of `GameState_add_random`. */
    method CountEmptyInRow(i: nat, ghost base: nat, ghost next: nat, countIn: nat) returns (count: nat)
      requires Valid() && i < dim && base == Mul(i, dim) && next == base + dim && next <= Mul(dim, dim)
      requires countIn == |EmptyCells(Cells()[..base])|
      ensures count == |EmptyCells(Cells()[..next])|
    {
      ghost var cells := Cells();
      count := countIn;
      ghost var p := base;
      for j := 0 to dim
        invariant p == base + j
        invariant count == |EmptyCells(cells[..p])|
      {
        ghost var p' := p + 1;
        EmptyCellsStep(cells, p, p');
        GetCell(i, j, p);
        if Get(i, j) == 0 {
          count := count + 1;
        }
        p := p';
      }
    }

    /**
     * The collecting loop of `GameState_add_random`: a fresh buffer of
     * `zeroCount` coordinates, those of the empty cells in row-major order.
     */
    method CollectEmpty(zeroCount: nat) returns (avail: array<Index>)
      requires Valid() && zeroCount == |EmptyCells(Cells())|
      ensures fresh(avail) && avail.Length == zeroCount
      ensures Linears(avail[..], dim) == EmptyCells(Cells())
    {
      ghost var cells := Cells();
      var dim := this.dim;
      avail := new Index[zeroCount](_ => Index(0, 0));
      var current: nat := 0;
      ghost var base: nat := 0;
      for i := 0 to dim
        invariant base == Mul(i, dim) && base <= |cells|
        invariant current <= zeroCount
        invariant Linears(avail[..current], dim) == EmptyCells(cells[..base])
        modifies avail
      {
        RowStart(i, dim);
        ghost var next := base + dim;
        current := CollectEmptyInRow(i, base, next, avail, current);
        base := next;
      }
      assert cells[..base] == cells;
      EmptyCellsPrefix(cells, |cells|);
      assert avail[..] == avail[..current];
    }

    /** One row of the collecting loop of `GameState_add_random`. */
    method CollectEmptyInRow(i: nat, ghost base: nat, ghost next: nat, avail: array<Index>, currentIn: nat)
      returns (current: nat)
      requires Valid() && i < dim && base == Mul(i, dim) && next == base + dim && next <= Mul(dim, dim)
      requires avail.Length == |EmptyCells(Cells())| && currentIn <= avail.Length
      requires Linears(avail[..currentIn], dim) == EmptyCells(Cells()[..base])
      modifies avail
      ensures current <= avail.Length
      ensures Linears(avail[..current], dim) == EmptyCells(Cells()[..next])
    {
      ghost var cells := Cells();
      current := currentIn;
      ghost var p := base;
      for j := 0 to dim
        invariant p == base + j && current <= avail.Length
        invariant Linears(avail[..current], dim) == EmptyCells(cells[..p])
      {
        ghost var p' := p + 1;
        current := CollectCell(i, j, p, p', avail, current);
        p := p';
      }
    }

    /** One cell of the collecting loop of `GameState_add_random`. */
    method CollectCell(i: nat, j: nat, ghost p: nat, ghost p': nat, avail: array<Index>, currentIn: nat)
      returns (current: nat)
      requires Valid() && j < dim && p == Mul(i, dim) + j && p' == p + 1 && p' <= Mul(dim, dim)
      requires avail.Length == |EmptyCells(Cells())| && currentIn <= avail.Length
      requires Linears(avail[..currentIn], dim) == EmptyCells(Cells()[..p])
      modifies avail
      ensures current <= avail.Length
      ensures Linears(avail[..current], dim) == EmptyCells(Cells()[..p'])
    {
      ghost var cells := Cells();
      EmptyCellsStep(cells, p, p');
      EmptyCellsPrefix(cells, p');
      GetCell(i, j, p);
      current := currentIn;
      if Get(i, j) == 0 {
        ghost var done := avail[..current];
        var after := current + 1;
        avail[current] := Index(i, j);
        assert avail[..after] == done + [Index(i, j)];
        LinearsSnoc(done, Index(i, j), dim);
        current := after;
      }
    }

    /**
     * `GameState_create`: a board with dim*dim empty cells, an undo budget of
     * 3, no history and score 0, after two calls of `add_random`.
     * `structFails` and `arrayFails` stand for the two allocations returning
     * NULL; the rolls of the two spawns are parameters.
     */
    static method Create(dim: nat, structFails: bool, arrayFails: bool,
                         pick1: nat, roll1: nat, pick2: nat, roll2: nat)
      returns (gs: GameState?)
      ensures gs == null <==> structFails || arrayFails
      ensures gs != null ==> fresh(gs) && fresh(gs.tiles) && fresh(gs.tiles.items) && gs.Valid()
      ensures gs != null ==> gs.dim == dim && gs.prevLeft == 3 && gs.prev == null && gs.score == 0
      ensures gs != null ==> gs.Cells() == Spawn(Spawn(Zeros(Mul(dim, dim)), pick1, roll1), pick2, roll2)
      ensures gs != null && Mul(dim, dim) >= 2 ==>
        |NonZeros(gs.Cells())| == 2 && forall k :: 0 <= k < Mul(dim, dim) ==> gs.Cells()[k] in {0, 2, 4}
    {
      if structFails {
        return null;
      }
      var tiles := UInt32Array.Create(Mul(dim, dim), Mul(dim, dim), arrayFails);
      if tiles.items == null {
        return null;
      }
      gs := new GameState(tiles, dim, 3, 0);
      assert tiles.items[..tiles.length] == tiles.items[..];
      assert gs.Cells() == Zeros(Mul(dim, dim));
      var _ := gs.AddRandom(pick1, roll1, false);
      var _ := gs.AddRandom(pick2, roll2, false);
      if Mul(dim, dim) >= 2 {
        TwoSpawnsOnEmptyBoard(Mul(dim, dim), pick1, roll1, pick2, roll2);
      }
    }

    /**
     * `GameState_copy`: NULL for NULL or when the struct allocation fails
     * (`structFails`); otherwise a fresh board with a copy of the tiles, the
     * same dimension, undo budget and score, and no history. When the copy of
     * the tiles fails (`arrayFails`) the board keeps the empty array: the
     * source does not check for it.
     */
    static method Copy(gs: GameState?, structFails: bool, arrayFails: bool) returns (c: GameState?)
      requires gs != null ==> gs.tiles.Valid()
      ensures c == null <==> gs == null || structFails
      ensures c != null ==> fresh(c) && fresh(c.tiles) && c.prev == null && c.tiles.Valid()
      ensures c != null ==> c.dim == gs.dim && c.prevLeft == gs.prevLeft && c.score == gs.score
      ensures c != null && arrayFails ==> c.tiles.items == null
      ensures c != null && !arrayFails ==> fresh(c.tiles.items) && c.tiles.Contents() == gs.tiles.Contents()
      ensures c != null && !arrayFails && gs.Valid() ==> c.Valid() && c.Cells() == gs.Cells()
    {
      if gs == null {
        return null;
      }
      if structFails {
        return null;
      }
      var tiles := UInt32Array.Copy(gs.tiles, arrayFails);
      c := new GameState(tiles, gs.dim, gs.prevLeft, gs.score);
    }

    /**
     * `GameState_slide_right`: every row of the board slides right, one row
     * after the other.
     */
    method SlideRight()
      requires Valid()
      modifies tiles.items
      ensures Valid()
      ensures Cells() == SlideRows(old(Cells()), dim)
    {
      ghost var orig: seq<u32> := Cells();
      var dim := this.dim;
      ghost var base := 0;
      ghost var done: seq<u32> := [];
      CellsAt();
      for row := 0 to dim
        invariant base == Mul(row, dim) && Spliced(base, done, orig)
        invariant done == SlideRows(orig[..base], dim)
      {
        RowStart(row, dim);
        ghost var next := base + dim;
        done := SlideRowOfBoard(row, base, next, orig, done);
        base := next;
      }
      assert orig[..base] == orig;
      CellsAre(done);
    }

    /** One iteration of the row loop of `GameState_slide_right`. */
    method SlideRowOfBoard(row: nat, ghost base: nat, ghost next: nat, ghost orig: seq<u32>, ghost done: seq<u32>)
      returns (ghost done': seq<u32>)
      requires row < dim && base == Mul(row, dim) && next == base + dim && next <= |orig|
      requires Spliced(base, done, orig) && done == SlideRows(orig[..base], dim)
      modifies tiles.items
      ensures Spliced(next, done', orig) && done' == SlideRows(orig[..next], dim)
    {
      ghost var line: seq<u32> := orig[base..next];
      SlideRowRight(row, base, line);
      SlideRowsStep(orig, base, next, dim);
      PrefixGrows(base, done, SlideRow(line));
      done' := done + SlideRow(line);
    }

    /**
     * The body of the row loop of `GameState_slide_right`: each tile from
     * the second-last column leftwards moves right over the empty cells next
     * to it, which slides the row right. The other cells are not touched.
     */
    method SlideRowRight(row: nat, ghost base: nat, ghost line: seq<u32>)
      requires Valid() && row < dim && base == Mul(row, dim) && base + dim <= Mul(dim, dim) && |line| == dim
      requires forall k :: 0 <= k < dim ==> tiles.items[base + k] == line[k]
      modifies tiles.items
      ensures Valid()
      ensures forall k :: 0 <= k < dim ==> tiles.items[base + k] == SlideRow(line)[k]
      ensures forall k :: 0 <= k < Mul(dim, dim) && !(base <= k < base + dim) ==> tiles.items[k] == old(tiles.items[k])
    {
      var dim := this.dim;
      ghost var r: seq<u32> := line;
      assert line[dim - 1..] == [line[dim - 1]];
      SlideRowSingle(line[dim - 1]);
      ghost var c := dim - 1;
      for i := 0 to dim - 1
        invariant c == dim - 1 - i && |r| == dim
        invariant forall k :: 0 <= k < dim ==> tiles.items[base + k] == r[k]
        invariant forall k :: 0 <= k < Mul(dim, dim) && !(base <= k < base + dim) ==> tiles.items[k] == old(tiles.items[k])
        invariant r[..c] == line[..c] && r[c..] == SlideRow(line[c..])
      {
        var col := dim - 2 - i;
        var tile := Get(row, col);
        if tile != 0 {
          r := SlideTile(row, col, c, tile, base, line, r);
        } else {
          SlideScanEmpty(r, line, col, c);
        }
        c := col;
      }
      assert r == SlideRow(line);
    }

    method SlideTile(row: nat, col: nat, ghost n: nat, tile: u32, ghost base: nat, ghost line: seq<u32>, ghost r: seq<u32>)
      returns (ghost r': seq<u32>)
      requires Valid() && row < dim && base == Mul(row, dim) && base + dim <= Mul(dim, dim)
      requires n == col + 1 && n < |line| == |r| == dim && tile == r[col] != 0
      requires forall k :: 0 <= k < dim ==> tiles.items[base + k] == r[k]
      requires r[..n] == line[..n] && r[n..] == SlideRow(line[n..])
      modifies tiles.items
      ensures Valid() && |r'| == dim
      ensures forall k :: 0 <= k < dim ==> tiles.items[base + k] == r'[k]
      ensures forall k :: 0 <= k < Mul(dim, dim) && !(base <= k < base + dim) ==> tiles.items[k] == old(tiles.items[k])
      ensures r'[..col] == line[..col] && r'[col..] == SlideRow(line[col..])
    {
      var dim := this.dim;
      ghost var z := dim - n - |NonZeros(line[n..])|;
      SlideScanTile(r, line, col, n, z);
      var target := FarthestEmpty(row, col, base, r, z);
      r' := r;
      if target != col {
        SetAt(row, target, tile, base);
        r' := r'[target := tile];
        SetAt(row, col, 0, base);
        r' := r'[col := 0];
      }
    }

    /**
     * The inner loop of `GameState_slide_right`: from `col`, the target
     * moves right while the next cell is empty. With `z` empty cells right
     * of `col` before the next tile or the edge, it stops at `col + z`.
     */
    method FarthestEmpty(row: nat, col: nat, ghost base: nat, ghost r: seq<u32>, ghost z: nat) returns (target: nat)
      requires Valid() && row < dim && base == Mul(row, dim) && base + dim <= Mul(dim, dim)
      requires |r| == dim && col + z < dim
      requires forall k :: 0 <= k < dim ==> tiles.items[base + k] == r[k]
      requires forall k :: col < k <= col + z ==> r[k] == 0
      requires col + z + 1 < dim ==> r[col + z + 1] != 0
      ensures target == col + z
    {
      target := col;
      while target + 1 < dim && Get(row, target + 1) == 0
        invariant col <= target <= col + z
        invariant target < col + z ==> r[target + 1] == 0
      {
        GetAt(row, target + 1, base);
        target := target + 1;
      }
      if target + 1 < dim {
        GetAt(row, target + 1, base);
      }
    }

    /**
     * The moving part of `GameState_slide_and_merge_right`: slide, merge
     * with the merge points added to the score (`uint32_t` addition, which
     * wraps at 2^32), slide again. `total` is what the move earns before
     * wrapping.
     */
    method Move() returns (ghost total: nat)
      requires Valid()
      modifies this, tiles.items
      ensures Valid() && prev == old(prev)
      ensures Cells() == MoveBoard(old(Cells()), dim)
      ensures total == MoveScore(old(Cells()), dim)
      ensures score == AddWrapped(old(score), total)
    {
      ghost var c0 := Cells();
      SlideRight();
      var delta;
      delta, total := MergeRight();
      ghost var c2 := Cells();
      assert c2 == MergeRows(SlideRows(c0, dim), dim);
      AddWrappedAbsorbs(score, total, delta);
      AddScore(delta);
      SlideRight();
    }

    /**
     * The `+=` of `new_gs->score += ...`: `uint32_t` addition, which wraps
     * at 2^32.
     */
    method AddScore(delta: u32)
      modifies this
      ensures score == AddWrapped(old(score), delta)
      ensures prev == old(prev)
    {
      score := AddWrapped(score, delta);
    }

    /** Slots before `base` match `done` and the next `|r|` slots match `r`. */
    lemma PrefixGrows(base: nat, done: seq<u32>, r: seq<u32>)
      requires Valid() && |done| == base && base + |r| <= Mul(dim, dim)
      requires forall k :: 0 <= k < base ==> tiles.items[k] == done[k]
      requires forall k :: 0 <= k < |r| ==> tiles.items[base + k] == r[k]
      ensures forall k :: 0 <= k < base + |r| ==> tiles.items[k] == (done + r)[k]
    {
      forall k | base <= k < base + |r|
        ensures tiles.items[k] == (done + r)[k]
      {
        assert tiles.items[base + (k - base)] == r[k - base];
      }
    }

    /**
     * The board part-way through a pass over the rows: the first `base`
     * slots hold `done`, the others still hold `orig`.
     */
    ghost predicate Spliced(base: nat, done: seq<u32>, orig: seq<u32>)
      reads tiles, tiles.items
    {
      Valid() && |done| == base <= |orig| == Mul(dim, dim)
      && (forall k :: 0 <= k < base ==> tiles.items[k] == done[k])
      && (forall k :: base <= k < |orig| ==> tiles.items[k] == orig[k])
    }

    /** A board whose every array slot matches `c` holds `c`. */
    lemma CellsAre(c: seq<u32>)
      requires Valid() && |c| == Mul(dim, dim)
      requires forall k :: 0 <= k < |c| ==> tiles.items[k] == c[k]
      ensures Cells() == c
    {
    }

    /** Every cell of the board is the array slot of the same index. */
    lemma CellsAt()
      requires Valid()
      ensures forall k :: 0 <= k < |Cells()| ==> tiles.items[k] == Cells()[k]
    {
    }

    /** Reading cell `col` of row `row` reads the array slot `base + col`. */
    lemma GetAt(row: nat, col: nat, base: nat)
      requires Valid() && base == Mul(row, dim) && col < dim && base + dim <= Mul(dim, dim)
      ensures Get(row, col) == tiles.items[base + col]
    {
    }

    /** `GameState_set` of cell `col` of row `row`: that one slot changes. */
    method SetAt(row: nat, col: nat, val: u32, ghost base: nat)
      requires Valid() && base == Mul(row, dim) && col < dim && base + dim <= Mul(dim, dim)
      modifies tiles.items
      ensures Valid()
      ensures tiles.items[base + col] == val
      ensures forall k :: 0 <= k < Mul(dim, dim) && k != base + col ==> tiles.items[k] == old(tiles.items[k])
    {
      var _ := Set(row, col, val);
    }

    /**
     * `GameState_merge_right`: every row of the board goes through one
     * merging pass, one row after the other. Returns the sum of the doubled
     * values, wrapped at 2^32 as `uint32_t` addition does.
     */
    method MergeRight() returns (scoreAdd: u32, ghost total: nat)
      requires Valid()
      modifies tiles.items
      ensures Valid()
      ensures Cells() == MergeRows(old(Cells()), dim)
      ensures total == MergeScoreRows(old(Cells()), dim) && scoreAdd == total % TWO_32
    {
      ghost var orig: seq<u32> := Cells();
      scoreAdd := 0;
      var dim := this.dim;
      ghost var base := 0;
      ghost var done: seq<u32> := [];
      ghost var sum: nat := 0;
      CellsAt();
      for row := 0 to dim
        invariant base == Mul(row, dim) && Spliced(base, done, orig)
        invariant done == MergeRows(orig[..base], dim)
        invariant sum == MergeScoreRows(orig[..base], dim) && scoreAdd == sum % TWO_32
      {
        RowStart(row, dim);
        ghost var next := base + dim;
        scoreAdd, sum, done := MergeRowOfBoard(row, base, next, orig, done, sum, scoreAdd);
        base := next;
      }
      assert orig[..base] == orig;
      CellsAre(done);
      total := sum;
    }

    /** One iteration of the row loop of `GameState_merge_right`. */
    method MergeRowOfBoard(row: nat, ghost base: nat, ghost next: nat, ghost orig: seq<u32>, ghost done: seq<u32>, ghost total: nat, scoreIn: u32)
      returns (scoreAdd: u32, ghost total': nat, ghost done': seq<u32>)
      requires row < dim && base == Mul(row, dim) && next == base + dim && next <= |orig|
      requires Spliced(base, done, orig) && done == MergeRows(orig[..base], dim)
      requires total == MergeScoreRows(orig[..base], dim) && scoreIn == total % TWO_32
      modifies tiles.items
      ensures Spliced(next, done', orig) && done' == MergeRows(orig[..next], dim)
      ensures total' == MergeScoreRows(orig[..next], dim) && scoreAdd == total' % TWO_32
    {
      ghost var line: seq<u32> := orig[base..next];
      scoreAdd := MergeRowRight(row, base, line, scoreIn);
      MergeRowsGrow(orig, base, next, dim, line, scoreIn, scoreAdd);
      total' := MergeScoreRows(orig[..next], dim);
      PrefixGrows(base, done, MergeRow(line));
      done' := done + MergeRow(line);
    }

    /**
     * The body of the row loop of `GameState_merge_right`: scanning from the
     * right, each pair of equal non-zero neighbours becomes an empty cell and
     * a doubled tile (doubling wraps at 2^32), and the doubled value is added
     * to the running score. The other cells are not touched.
     */
    method MergeRowRight(row: nat, ghost base: nat, ghost line: seq<u32>, scoreIn: u32) returns (scoreAdd: u32)
      requires Valid() && row < dim && base == Mul(row, dim) && base + dim <= Mul(dim, dim) && |line| == dim
      requires forall k :: 0 <= k < dim ==> tiles.items[base + k] == line[k]
      modifies tiles.items
      ensures Valid()
      ensures forall k :: 0 <= k < dim ==> tiles.items[base + k] == MergeRow(line)[k]
      ensures forall k :: 0 <= k < Mul(dim, dim) && !(base <= k < base + dim) ==> tiles.items[k] == old(tiles.items[k])
      ensures scoreAdd == (scoreIn + MergeScore(line)) % TWO_32
    {
      var dim := this.dim;
      ghost var r: seq<u32> := line;
      ghost var done: nat := 0;
      assert r[..dim] == r;
      scoreAdd := scoreIn;
      var col := dim - 1;
      ghost var n := dim;
      while col > 0
        invariant 0 <= col < dim && n == col + 1 && |r| == dim
        invariant forall k :: 0 <= k < dim ==> tiles.items[base + k] == r[k]
        invariant forall k :: 0 <= k < Mul(dim, dim) && !(base <= k < base + dim) ==> tiles.items[k] == old(tiles.items[k])
        invariant MergeRow(line) == MergeRow(r[..n]) + r[n..]
        invariant done + MergeScore(r[..n]) == MergeScore(line)
        invariant scoreAdd == (scoreIn + done) % TWO_32
      {
        scoreAdd, done, r := MergeAt(row, col, base, line, scoreIn, n, scoreAdd, done, r);
        n := col;
        col := col - 1;
      }
      assert r[..n] == [r[0]];
      assert r == MergeRow(line);
    }

    /** One iteration of the column loop of `GameState_merge_right`, at columns (col - 1, col). */
    method MergeAt(row: nat, col: nat, ghost base: nat, ghost line: seq<u32>, scoreIn: u32, ghost n: nat,
                   scoreAdd: u32, ghost done: nat, ghost r: seq<u32>)
      returns (scoreAdd': u32, ghost done': nat, ghost r': seq<u32>)
      requires Valid() && row < dim && base == Mul(row, dim) && base + dim <= Mul(dim, dim)
      requires 0 < col < dim && n == col + 1 && |r| == dim
      requires forall k :: 0 <= k < dim ==> tiles.items[base + k] == r[k]
      requires MergeRow(line) == MergeRow(r[..n]) + r[n..]
      requires done + MergeScore(r[..n]) == MergeScore(line)
      requires scoreAdd == (scoreIn + done) % TWO_32
      modifies tiles.items
      ensures Valid() && |r'| == dim
      ensures forall k :: 0 <= k < dim ==> tiles.items[base + k] == r'[k]
      ensures forall k :: 0 <= k < Mul(dim, dim) && !(base <= k < base + dim) ==> tiles.items[k] == old(tiles.items[k])
      ensures MergeRow(line) == MergeRow(r'[..col]) + r'[col..]
      ensures done' + MergeScore(r'[..col]) == MergeScore(line)
      ensures scoreAdd' == (scoreIn + done') % TWO_32
    {
      var rightTile := Get(row, col);
      var leftTile := Get(row, col - 1);
      if rightTile == leftTile && rightTile != 0 {
        var mergedValue;
        mergedValue, r' := MergePair(row, col, n, rightTile, base, r);
        done' := done + mergedValue;
        ModAddBack(scoreIn + done, scoreAdd, mergedValue, scoreIn + done');
        scoreAdd' := (scoreAdd + mergedValue) % TWO_32;
      } else {
        MergeSkipStep(r, col, n);
        scoreAdd', done', r' := scoreAdd, done, r;
      }
    }

    /**
     * The merge of the pair at columns (col - 1, col) in the scan of
     * `GameState_merge_right`: the right cell gets the doubled tile, the
     * left one is emptied.
     */
    method MergePair(row: nat, col: nat, ghost n: nat, tile: u32, ghost base: nat, ghost r: seq<u32>)
      returns (mergedValue: u32, ghost r': seq<u32>)
      requires Valid() && row < dim && base == Mul(row, dim) && base + dim <= Mul(dim, dim)
      requires 0 < col < |r| == dim && n == col + 1 && tile == r[col] == r[col - 1] && tile != 0
      requires forall k :: 0 <= k < dim ==> tiles.items[base + k] == r[k]
      modifies tiles.items
      ensures Valid() && |r'| == dim && mergedValue == Double(tile)
      ensures forall k :: 0 <= k < dim ==> tiles.items[base + k] == r'[k]
      ensures forall k :: 0 <= k < Mul(dim, dim) && !(base <= k < base + dim) ==> tiles.items[k] == old(tiles.items[k])
      ensures MergeRow(r'[..col]) + r'[col..] == MergeRow(r[..n]) + r[n..]
      ensures MergeScore(r[..n]) == MergeScore(r'[..col]) + mergedValue
    {
      mergedValue := Double(tile);
      MergePairStep(r, col, n);
      SetAt(row, col, mergedValue, base);
      SetAt(row, col - 1, 0, base);
      r' := r[col := mergedValue][col - 1 := 0];
    }
  }

  /** The first `next` cells are the first `b` and the ones between. */
  lemma JoinRows(orig: seq<u32>, b: nat, next: nat)
    requires b <= next <= |orig|
    ensures orig[..next] == orig[..b] + orig[b..next]
  {
  }

  /** Sliding one more row of the board. */
  lemma SlideRowsStep(orig: seq<u32>, b: nat, next: nat, dim: nat)
    requires dim > 0 && next == b + dim && next <= |orig|
    ensures SlideRows(orig[..next], dim) == SlideRows(orig[..b], dim) + SlideRow(orig[b..next])
  {
    JoinRows(orig, b, next);
    SlideRowsSnoc(orig[..b], orig[b..next], dim);
  }

  /** Merging one more row of the board. */
  lemma MergeRowsStep(orig: seq<u32>, b: nat, next: nat, dim: nat, line: seq<u32>)
    requires dim > 0 && next == b + dim && next <= |orig| && line == orig[b..next]
    ensures MergeRows(orig[..next], dim) == MergeRows(orig[..b], dim) + MergeRow(line)
    ensures MergeScoreRows(orig[..next], dim) == MergeScoreRows(orig[..b], dim) + MergeScore(line)
  {
    JoinRows(orig, b, next);
    MergeRowsSnoc(orig[..b], line, dim);
  }

  /** Bookkeeping of one more merged row: the rows so far and the wrapped score grow by it. */
  lemma MergeRowsGrow(orig: seq<u32>, b: nat, next: nat, dim: nat, line: seq<u32>, scoreIn: u32, scoreAdd: u32)
    requires dim > 0 && next == b + dim && next <= |orig| && line == orig[b..next]
    requires scoreIn == MergeScoreRows(orig[..b], dim) % TWO_32
    requires scoreAdd == (scoreIn + MergeScore(line)) % TWO_32
    ensures MergeRows(orig[..next], dim) == MergeRows(orig[..b], dim) + MergeRow(line)
    ensures scoreAdd == MergeScoreRows(orig[..next], dim) % TWO_32
  {
    MergeRowsStep(orig, b, next, dim, line);
    ModAddBack(MergeScoreRows(orig[..b], dim), scoreIn, MergeScore(line), MergeScoreRows(orig[..next], dim));
  }

  // -----------------------------------------------------------------------
  // The history chain
  // -----------------------------------------------------------------------

  /** `chain` lists the boards reached from `start` through `prev`, up to NULL. */
  ghost predicate IsChainFrom(start: GameState?, chain: seq<GameState>)
    reads set k | 0 <= k < |chain| :: chain[k]
  {
    (if chain == [] then start == null else start == chain[0] && chain[|chain| - 1].prev == null)
    && forall k :: 0 <= k < |chain| - 1 ==> chain[k].prev == chain[k + 1]
  }

  /** Every board of the chain is its own struct, with its own tile storage. */
  ghost predicate Separate(chain: seq<GameState>)
  {
    forall k, m :: 0 <= k < m < |chain| ==> chain[k] != chain[m] && chain[k].tiles != chain[m].tiles
  }

  /** The boards of a chain. */
  ghost function BoardsOf(chain: seq<GameState>): set<GameState>
  {
    set k | 0 <= k < |chain| :: chain[k]
  }

  /** The tile storage of the boards of a chain. */
  ghost function TilesOf(chain: seq<GameState>): set<UInt32Array>
  {
    set k | 0 <= k < |chain| :: chain[k].tiles
  }

  /**
   * How many of the n older boards a move keeps, given the undo budget: all
   * of them when the budget is 0; otherwise the new board and the kept ones
   * number at most prevLeft, and exactly prevLeft when some are dropped.
   */
  function Retained(prevLeft: nat, n: nat): (k: nat)
    ensures k <= n
    ensures prevLeft == 0 ==> k == n
    ensures prevLeft > 0 ==> k + 1 <= prevLeft
    ensures k < n ==> k + 1 == prevLeft
  {
    if prevLeft == 0 then n else if prevLeft - 1 < n then prevLeft - 1 else n
  }

  /**
   * `GameState_destroy`: walks the chain through `prev` and releases the
   * tile storage of every board on it.
   */
  method Destroy(gs: GameState?, ghost chain: seq<GameState>)
    requires IsChainFrom(gs, chain) && Separate(chain)
    modifies TilesOf(chain)
    ensures forall k :: 0 <= k < |chain| ==> chain[k].tiles.items == null
    ensures forall k :: 0 <= k < |chain| && old(chain[k].tiles.items) != null ==>
      chain[k].tiles.length == 0 && chain[k].tiles.capacity == 0
  {
    var current := gs;
    ghost var idx := 0;
    while current != null
      invariant 0 <= idx <= |chain|
      invariant current == if idx < |chain| then chain[idx] else null
      invariant forall k :: 0 <= k < idx ==> chain[k].tiles.items == null
      invariant forall k :: 0 <= k < idx && old(chain[k].tiles.items) != null ==>
        chain[k].tiles.length == 0 && chain[k].tiles.capacity == 0
      invariant forall k :: idx <= k < |chain| ==> chain[k].tiles.items == old(chain[k].tiles.items)
      decreases |chain| - idx
    {
      var prev := current.prev;
      current.tiles.Destroy();
      current := prev;
      idx := idx + 1;
    }
  }

  /**
   * `GameState_slide_and_merge_right`: a new board moved right (slide,
   * merge, slide) with the merge score added, linked in front of the
   * history. When the undo budget is positive, the history behind the first
   * prevLeft boards of the new chain is destroyed and cut off. The copy is
   * taken to succeed: the source dereferences it without a check.
   */
  method SlideAndMergeRight(gs: GameState, ghost chain: seq<GameState>)
    returns (newGs: GameState, ghost newChain: seq<GameState>)
    requires gs.Valid() && IsChainFrom(gs, chain) && Separate(chain)
    modifies BoardsOf(chain), TilesOf(chain)
    ensures fresh(newGs) && fresh(newGs.tiles) && fresh(newGs.tiles.items) && newGs.Valid()
    ensures newGs.dim == gs.dim && newGs.prevLeft == gs.prevLeft
    ensures newGs.Cells() == MoveBoard(old(gs.Cells()), gs.dim)
    ensures newGs.score == AddWrapped(old(gs.score), MoveScore(old(gs.Cells()), gs.dim))
    ensures newChain == [newGs] + chain[..Retained(gs.prevLeft, |chain|)]
    ensures IsChainFrom(newGs, newChain) && Separate(newChain)
    ensures forall k :: 0 <= k < |chain| ==>
      chain[k].score == old(chain[k].score)
    ensures forall k :: 0 <= k < Retained(gs.prevLeft, |chain|) ==>
      unchanged(chain[k].tiles) && (chain[k].tiles.items != null ==> unchanged(chain[k].tiles.items))
    ensures forall k :: Retained(gs.prevLeft, |chain|) <= k < |chain| ==> chain[k].tiles.items == null
  {
    newGs := MovedCopy(gs, MoveScore(gs.Cells(), gs.dim));
    newChain := PruneBehind(newGs, chain);
  }

  /**
   * The history handling of `GameState_slide_and_merge_right`, for a new
   * board linked in front of `chain`: the older boards past the undo budget
   * lose their tile storage and are unlinked.
   */
  method PruneBehind(newGs: GameState, ghost chain: seq<GameState>) returns (ghost newChain: seq<GameState>)
    requires |chain| > 0 && newGs.prev == chain[0] && IsChainFrom(chain[0], chain) && Separate(chain)
    requires forall k :: 0 <= k < |chain| ==> chain[k] != newGs && chain[k].tiles != newGs.tiles
    modifies newGs, BoardsOf(chain), TilesOf(chain)
    ensures newGs.score == old(newGs.score)
    ensures unchanged(newGs.tiles) && (newGs.tiles.items != null ==> unchanged(newGs.tiles.items))
    ensures newChain == [newGs] + chain[..Retained(newGs.prevLeft, |chain|)]
    ensures IsChainFrom(newGs, newChain) && Separate(newChain)
    ensures forall k :: 0 <= k < |chain| ==> chain[k].score == old(chain[k].score)
    ensures forall k :: 0 <= k < Retained(newGs.prevLeft, |chain|) ==>
      unchanged(chain[k].tiles) && (chain[k].tiles.items != null ==> unchanged(chain[k].tiles.items))
    ensures forall k :: Retained(newGs.prevLeft, |chain|) <= k < |chain| ==> chain[k].tiles.items == null
  {
    ghost var full := [newGs] + chain;
    assert full[1..] == chain;
    newChain := PruneHistory(newGs, full);
    ghost var kept := Retained(newGs.prevLeft, |chain|);
    assert |newChain| == kept + 1;
    assert newChain == [newGs] + chain[..kept];
    forall k | 0 <= k < |chain| ensures chain[k].score == old(chain[k].score) {
      assert chain[k] == full[k + 1];
    }
    forall k | 0 <= k < kept
      ensures unchanged(chain[k].tiles) && (chain[k].tiles.items != null ==> unchanged(chain[k].tiles.items))
    {
      assert chain[k] == newChain[k + 1];
    }
    forall k | kept <= k < |chain| ensures chain[k].tiles.items == null {
      assert chain[k] == full[k + 1];
    }
  }

  /**
   * The first part of `GameState_slide_and_merge_right`: a copy of the board
   * linked to it, then moved.
   */
  method MovedCopy(gs: GameState, ghost total: nat) returns (newGs: GameState)
    requires gs.Valid() && total == MoveScore(gs.Cells(), gs.dim)
    ensures fresh(newGs) && fresh(newGs.tiles) && fresh(newGs.tiles.items) && newGs.Valid()
    ensures newGs.dim == gs.dim && newGs.prevLeft == gs.prevLeft && newGs.prev == gs
    ensures newGs.Cells() == MoveBoard(gs.Cells(), gs.dim)
    ensures newGs.score == AddWrapped(gs.score, total)
  {
    var copy := GameState.Copy(gs, false, false);
    newGs := copy;
    newGs.prev := gs;
    ghost var t := newGs.Move();
  }

  /**
   * The walk of `GameState_slide_and_merge_right`: at most `steps` steps
   * along `prev`, stopping early at the oldest board. It ends at board
   * `min(steps, n - 1)` of an `n`-board chain, which has a predecessor
   * exactly when the walk stopped before the end of the chain.
   */
  method WalkBack(start: GameState, steps: nat, ghost chain: seq<GameState>) returns (current: GameState, i: nat)
    requires IsChainFrom(start, chain)
    ensures i < |chain| && current == chain[i]
    ensures i == if steps < |chain| - 1 then steps else |chain| - 1
    ensures current.prev == null <==> i == |chain| - 1
  {
    current := start;
    i := 0;
    while i < steps && current.prev != null
      invariant i < |chain| && i <= steps && current == chain[i]
    {
      current := current.prev;
      i := i + 1;
    }
    if i < |chain| - 1 {
      assert chain[i].prev == chain[i + 1];
    }
  }

  /**
   * The pruning part of `GameState_slide_and_merge_right`: with a positive
   * undo budget, the walk stops at the prevLeft-th board of the chain (or at
   * its end); whatever lies behind it is destroyed and unlinked.
   */
  method PruneHistory(newGs: GameState, ghost full: seq<GameState>) returns (ghost newChain: seq<GameState>)
    requires IsChainFrom(newGs, full) && Separate(full)
    modifies BoardsOf(full), TilesOf(full[1..])
    ensures newChain == full[..Retained(newGs.prevLeft, |full| - 1) + 1]
    ensures IsChainFrom(newGs, newChain) && Separate(newChain)
    ensures forall k :: 0 <= k < |full| ==> full[k].score == old(full[k].score)
    ensures forall k :: 0 <= k < |newChain| ==>
      unchanged(newChain[k].tiles) && (newChain[k].tiles.items != null ==> unchanged(newChain[k].tiles.items))
    ensures forall k :: |newChain| <= k < |full| ==> full[k].tiles.items == null
  {
    newChain := full;
    assert full[..|full|] == full;
    if newGs.prevLeft > 0 {
      var current, i := WalkBack(newGs, newGs.prevLeft - 1, full);
      if current.prev != null {
        newChain := CutAfter(current, i, full);
      }
    }
  }

  /**
   * The cut of `GameState_slide_and_merge_right`: the boards behind board
   * `i` of the chain lose their tile storage, and board `i` becomes the
   * oldest one.
   */
  method CutAfter(current: GameState, i: nat, ghost full: seq<GameState>) returns (ghost newChain: seq<GameState>)
    requires i < |full| - 1 && current == full[i] && IsChainFrom(full[0], full) && Separate(full)
    modifies current, TilesOf(full[i + 1..])
    ensures newChain == full[..i + 1]
    ensures IsChainFrom(full[0], newChain) && Separate(newChain)
    ensures current.score == old(current.score)
    ensures forall k :: i < k < |full| ==> full[k].tiles.items == null
  {
    assert full[i + 1..][1..] == full[i + 2..];
    Destroy(current.prev, full[i + 1..]);
    current.prev := null;
    newChain := full[..i + 1];
  }
}
