/**
 * Where a new tile appears: the empty cells of a row-major board in
 * scanning order, and the cell and value that two random draws select.
 */
module Spawning {
  import opened Ints
  import opened RowMoves

  /** The linear indices of the empty cells of a board, in row-major order. */
  function EmptyCells(s: seq<u32>): (e: seq<nat>)
    ensures |e| <= |s|
    decreases |s|
  {
    if s == [] then []
    else EmptyCells(s[..|s| - 1]) + (if s[|s| - 1] == 0 then [|s| - 1] else [])
  }

  /**
   * EmptyCells lists exactly the empty cells, each once, in increasing
   * order.
   */
  lemma {:induction false} EmptyCellsExact(s: seq<u32>)
    ensures forall t :: 0 <= t < |EmptyCells(s)| ==> EmptyCells(s)[t] < |s| && s[EmptyCells(s)[t]] == 0
    ensures forall t, u :: 0 <= t < u < |EmptyCells(s)| ==> EmptyCells(s)[t] < EmptyCells(s)[u]
    ensures forall k :: 0 <= k < |s| && s[k] == 0 ==> k in EmptyCells(s)
    decreases |s|
  {
    if s != [] {
      var p := s[..|s| - 1];
      EmptyCellsExact(p);
      assert forall k :: 0 <= k < |p| ==> p[k] == s[k];
    }
  }

  /** Scanning a prefix of the board lists a prefix of the empty cells. */
  lemma {:induction false} EmptyCellsPrefix(s: seq<u32>, k: nat)
    requires k <= |s|
    ensures |EmptyCells(s[..k])| <= |EmptyCells(s)|
    ensures EmptyCells(s[..k]) == EmptyCells(s)[..|EmptyCells(s[..k])|]
    decreases |s|
  {
    if k < |s| {
      var p := s[..|s| - 1];
      assert s[..k] == p[..k];
      EmptyCellsPrefix(p, k);
      var m := |EmptyCells(p[..k])|;
      assert EmptyCells(s)[..m] == EmptyCells(p)[..m];
    } else {
      assert s[..k] == s;
    }
  }

  /** One more cell scanned adds that cell when it is empty. */
  lemma EmptyCellsStep(s: seq<u32>, k: nat, k': nat)
    requires k' == k + 1 && k' <= |s|
    ensures EmptyCells(s[..k']) == EmptyCells(s[..k]) + (if s[k] == 0 then [k] else [])
  {
    assert s[..k'][..k] == s[..k];
  }

  /** `(rand() % 10) < 9 ? 2 : 4`. */
  function SpawnValue(roll: nat): (v: u32)
    ensures v == 2 || v == 4
  {
    if roll % 10 < 9 then 2 else 4
  }

  /**
   * The board after `add_random` with `rand()` returning `pick` and then
   * `roll`: the (pick mod n)-th of the n empty cells gets the spawned value;
   * a full board is left alone.
   */
  function Spawn(s: seq<u32>, pick: nat, roll: nat): (r: seq<u32>)
    ensures |r| == |s|
  {
    var e := EmptyCells(s);
    if |e| == 0 then s
    else
      EmptyCellsExact(s);
      s[e[pick % |e|] := SpawnValue(roll)]
  }

  /**
   * A spawn on a board with an empty cell fills exactly one previously
   * empty cell with 2 or 4 and adds one tile.
   */
  lemma SpawnFillsOneEmptyCell(s: seq<u32>, pick: nat, roll: nat)
    requires |EmptyCells(s)| > 0
    ensures exists k :: 0 <= k < |s| && s[k] == 0 && Spawn(s, pick, roll) == s[k := SpawnValue(roll)]
    ensures |NonZeros(Spawn(s, pick, roll))| == |NonZeros(s)| + 1
  {
    EmptyCellsExact(s);
    var e := EmptyCells(s);
    var k := e[pick % |e|];
    FillCountsOne(s, k, SpawnValue(roll));
  }

  /** Putting a tile into an empty cell adds one tile. */
  lemma {:induction false} FillCountsOne(s: seq<u32>, k: nat, v: u32)
    requires k < |s| && s[k] == 0 && v != 0
    ensures |NonZeros(s[k := v])| == |NonZeros(s)| + 1
  {
    if k == 0 {
      assert s[k := v][1..] == s[1..];
    } else {
      assert s[k := v][1..] == s[1..][k - 1 := v];
      FillCountsOne(s[1..], k - 1, v);
    }
  }

  /**
   * Two spawns on an all-empty board with at least two cells leave exactly
   * two tiles, each 2 or 4, and every other cell empty.
   */
  lemma TwoSpawnsOnEmptyBoard(n: nat, pick1: nat, roll1: nat, pick2: nat, roll2: nat)
    requires n >= 2
    ensures |NonZeros(Spawn(Spawn(Zeros(n), pick1, roll1), pick2, roll2))| == 2
    ensures forall k :: 0 <= k < n ==>
      Spawn(Spawn(Zeros(n), pick1, roll1), pick2, roll2)[k] in {0, 2, 4}
  {
    var z := Zeros(n);
    ZerosAreZero(n);
    NonZerosOfZeros(n);
    var b1 := Spawn(z, pick1, roll1);
    FirstSpawn(n, pick1, roll1);
    var k1 :| 0 <= k1 < n && z[k1] == 0 && b1 == z[k1 := SpawnValue(roll1)];
    var other := if k1 == 0 then 1 else 0;
    assert b1[other] == 0;
    EmptyCellsExact(b1);
    assert other in EmptyCells(b1);
    SpawnFillsOneEmptyCell(b1, pick2, roll2);
    var b2 := Spawn(b1, pick2, roll2);
    var k2 :| 0 <= k2 < n && b1[k2] == 0 && b2 == b1[k2 := SpawnValue(roll2)];
    forall k | 0 <= k < n ensures b2[k] in {0, 2, 4} {
      assert b1[k] in {0, 2, 4};
    }
  }

  /** The first spawn on an all-empty board fills one cell and leaves the rest empty. */
  lemma FirstSpawn(n: nat, pick: nat, roll: nat)
    requires n >= 1
    ensures exists k :: 0 <= k < n && Zeros(n)[k] == 0 && Spawn(Zeros(n), pick, roll) == Zeros(n)[k := SpawnValue(roll)]
    ensures |NonZeros(Spawn(Zeros(n), pick, roll))| == 1
    ensures forall j :: 0 <= j < n ==> Spawn(Zeros(n), pick, roll)[j] in {0, 2, 4}
  {
    var z := Zeros(n);
    ZerosAreZero(n);
    NonZerosOfZeros(n);
    EmptyCellsExact(z);
    assert 0 in EmptyCells(z);
    var e := EmptyCells(z);
    var k := e[pick % |e|];
    FillCountsOne(z, k, SpawnValue(roll));
  }
}
