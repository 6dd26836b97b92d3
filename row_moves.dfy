/**
 * What one rightward move does to a single row, and to a whole row-major
 * board. These pure definitions specify the in-place loops of GameStates,
 * and the lemmas here are the properties those loops inherit.
 *
 * A few lemmas (HeadTail, SplitAt, LastOne, LastTwo, MultisetOfAppend,
 * DropCons, ZeroShift) state a single sequence identity. Dafny proves each
 * at once on its own, but asserting the same identity inside an inductive
 * proof, with the recursive definitions and multisets in scope, makes the
 * solver search much longer. So the proofs call these lemmas with the exact
 * terms they need.
 */
module RowMoves {
  import opened Ints

  // ---------------------------------------------------------------------
  // Sliding
  // ---------------------------------------------------------------------

  /** The nonzero tiles of a row, left to right. */
  function NonZeros(s: seq<u32>): (r: seq<u32>)
    ensures |r| <= |s|
  {
    if s == [] then [] else (if s[0] != 0 then [s[0]] else []) + NonZeros(s[1..])
  }

  /** NonZeros keeps only tiles. */
  lemma {:induction false} NonZerosAreNonZero(s: seq<u32>)
    ensures forall k :: 0 <= k < |NonZeros(s)| ==> NonZeros(s)[k] != 0
  {
    if s != [] {
      NonZerosAreNonZero(s[1..]);
    }
  }

  /** A row slid to the right: its nonzero tiles, in order, behind zeros. */
  function SlideRow(s: seq<u32>): seq<u32>
  {
    Zeros(|s| - |NonZeros(s)|) + NonZeros(s)
  }

  /** No empty cell lies to the right of a tile. */
  ghost predicate Packed(r: seq<u32>)
  {
    forall i, j :: 0 <= i < j < |r| && r[i] != 0 ==> r[j] != 0
  }

  /** The tiles of two row parts, one after the other. */
  lemma {:induction false} NonZerosAppend(a: seq<u32>, b: seq<u32>)
    ensures NonZeros(a + b) == NonZeros(a) + NonZeros(b)
  {
    if a != [] {
      assert (a + b)[0] == a[0];
      assert (a + b)[1..] == a[1..] + b;
      NonZerosAppend(a[1..], b);
    } else {
      assert a + b == b;
    }
  }

  /** Empty cells hold no tiles. */
  lemma {:induction false} NonZerosOfZeros(n: nat)
    ensures NonZeros(Zeros(n)) == []
  {
    if n > 0 {
      assert Zeros(n)[1..] == Zeros(n - 1);
      NonZerosOfZeros(n - 1);
    }
  }

  /** A row of tiles only is its own list of tiles. */
  lemma {:induction false} NonZerosOfNonZero(s: seq<u32>)
    requires forall k :: 0 <= k < |s| ==> s[k] != 0
    ensures NonZeros(s) == s
  {
    if s != [] {
      NonZerosOfNonZero(s[1..]);
    }
  }

  /** The tiles of a row with one more cell in front. */
  lemma NonZerosCons(t: u32, x: seq<u32>)
    ensures NonZeros([t] + x) == (if t != 0 then [t] else []) + NonZeros(x)
  {
    assert ([t] + x)[1..] == x;
  }

  /** The empty cells of a row. */
  function ZeroCount(s: seq<u32>): nat
  {
    if s == [] then 0 else (if s[0] == 0 then 1 else 0) + ZeroCount(s[1..])
  }

  /** Every cell of a row is either a tile or empty. */
  lemma {:induction false} ZeroCountIsRest(s: seq<u32>)
    ensures ZeroCount(s) == |s| - |NonZeros(s)|
  {
    if s != [] {
      ZeroCountIsRest(s[1..]);
    }
  }

  /** A row's tiles together with its empty cells are the row's cells. */
  lemma {:induction false} NonZerosPermutes(s: seq<u32>)
    ensures multiset(NonZeros(s)) + multiset(Zeros(ZeroCount(s))) == multiset(s)
  {
    if s != [] {
      var x := s[1..];
      NonZerosPermutes(x);
      HeadTail(s);
      ZerosCons(s[0], ZeroCount(s), ZeroCount(x));
      PermutesStep(s, s[0], x, NonZeros(s), NonZeros(x), Zeros(ZeroCount(s)), Zeros(ZeroCount(x)));
    } else {
      assert NonZeros(s) == [] && Zeros(ZeroCount(s)) == [];
    }
  }

  /** A nonempty row is its first cell followed by the rest. */
  lemma HeadTail(s: seq<u32>)
    requires s != []
    ensures s == [s[0]] + s[1..]
  {
  }

  /** A row is its first k cells followed by the others. */
  lemma SplitAt(s: seq<u32>, k: nat)
    requires k <= |s|
    ensures s == s[..k] + s[k..]
  {
  }

  /** A nonempty row is its cells before the last, then the last. */
  lemma LastOne(s: seq<u32>)
    requires |s| >= 1
    ensures s == s[..|s| - 1] + [s[|s| - 1]]
  {
  }

  /** A row of two or more cells is its cells before the last two, then those two. */
  lemma LastTwo(s: seq<u32>)
    requires |s| >= 2
    ensures s == s[..|s| - 2] + [s[|s| - 2], s[|s| - 1]]
  {
  }

  /** The empty cells of a row with one more cell in front. */
  lemma ZerosCons(t: u32, n: nat, m: nat)
    requires n == (if t == 0 then 1 else 0) + m
    ensures Zeros(n) == (if t == 0 then [0] else []) + Zeros(m)
  {
    if t != 0 {
      assert [] + Zeros(m) == Zeros(m);
    }
  }

  /** One cell in front: a tile joins the tiles, an empty cell the empty ones. */
  lemma PermutesStep(s: seq<u32>, t: u32, x: seq<u32>, nzs: seq<u32>, nzx: seq<u32>, zs: seq<u32>, zx: seq<u32>)
    requires s == [t] + x
    requires multiset(nzx) + multiset(zx) == multiset(x)
    requires nzs == (if t != 0 then [t] else []) + nzx
    requires zs == (if t == 0 then [0] else []) + zx
    ensures multiset(nzs) + multiset(zs) == multiset(s)
  {
  }

  /** Sliding a row that starts with an empty cell keeps that cell first. */
  lemma SlideRowConsEmpty(x: seq<u32>)
    ensures SlideRow([0] + x) == [0] + SlideRow(x)
  {
    NonZerosCons(0, x);
    var nz := NonZeros(x);
    var z := |x| - |nz|;
    assert |[0] + x| - |NonZeros([0] + x)| == z + 1;
    calc {
      SlideRow([0] + x);
      Zeros(z + 1) + nz;
      ([0] + Zeros(z)) + nz;
      [0] + (Zeros(z) + nz);
    }
  }

  /** Sliding a row that starts with a tile puts it just left of the others. */
  lemma SlideRowConsTile(t: u32, x: seq<u32>)
    requires t != 0
    ensures SlideRow([t] + x) == Zeros(|x| - |NonZeros(x)|) + [t] + NonZeros(x)
  {
    NonZerosCons(t, x);
    var nz := NonZeros(x);
    var z := |x| - |nz|;
    assert NonZeros([t] + x) == [t] + nz;
    assert |[t] + x| - |[t] + nz| == z;
    assert Zeros(z) + ([t] + nz) == Zeros(z) + [t] + nz;
  }

  /** The slid row is packed against the right edge. */
  lemma SlideRowPacked(s: seq<u32>)
    ensures Packed(SlideRow(s))
  {
    ZerosAreZero(|s| - |NonZeros(s)|);
    NonZerosAreNonZero(s);
  }

  /** Sliding keeps the nonzero tiles and their left-to-right order. */
  lemma SlideRowKeepsOrder(s: seq<u32>)
    ensures |SlideRow(s)| == |s|
    ensures NonZeros(SlideRow(s)) == NonZeros(s)
  {
    var z := |s| - |NonZeros(s)|;
    NonZerosAppend(Zeros(z), NonZeros(s));
    NonZerosOfZeros(z);
    NonZerosAreNonZero(s);
    NonZerosOfNonZero(NonZeros(s));
  }

  /** Sliding only rearranges the row. */
  lemma SlideRowPermutes(s: seq<u32>)
    ensures multiset(SlideRow(s)) == multiset(s)
  {
    NonZerosPermutes(s);
    ZeroCountIsRest(s);
    MultisetOfAppend(SlideRow(s), Zeros(ZeroCount(s)), NonZeros(s));
  }

  /** The cells of two row parts together. */
  lemma MultisetOfAppend(r: seq<u32>, a: seq<u32>, b: seq<u32>)
    requires r == a + b
    ensures multiset(r) == multiset(a) + multiset(b)
  {
  }

  /** A packed row is made of zeros followed by its nonzero tiles. */
  lemma {:induction false} PackedShape(r: seq<u32>)
    requires Packed(r)
    ensures r == SlideRow(r)
  {
    if r != [] {
      if r[0] == 0 {
        assert Packed(r[1..]) by {
          forall i, j | 0 <= i < j < |r[1..]| && r[1..][i] != 0
            ensures r[1..][j] != 0
          {
            assert r[i + 1] != 0;
          }
        }
        PackedShape(r[1..]);
        assert r == [0] + r[1..];
        SlideRowConsEmpty(r[1..]);
      } else {
        assert forall k :: 0 <= k < |r| ==> r[k] != 0 by {
          forall k | 0 <= k < |r| ensures r[k] != 0 {
            if k > 0 {
              assert r[0] != 0;
            }
          }
        }
        NonZerosOfNonZero(r);
      }
    }
  }

  /**
   * SlideRow is the only way to pack a row that keeps its nonzero tiles in
   * order: any packed row of the same length with the same nonzero tiles is
   * SlideRow's result.
   */
  lemma SlideRowUnique(s: seq<u32>, r: seq<u32>)
    requires |r| == |s| && Packed(r) && NonZeros(r) == NonZeros(s)
    ensures r == SlideRow(s)
  {
    PackedShape(r);
  }

  /** Sliding a slid row changes nothing. */
  lemma SlideRowIdempotent(s: seq<u32>)
    ensures SlideRow(SlideRow(s)) == SlideRow(s)
  {
    SlideRowPacked(s);
    PackedShape(SlideRow(s));
  }

  // ---------------------------------------------------------------------
  // Merging
  // ---------------------------------------------------------------------

  /** `right_tile * 2` in `uint32_t` arithmetic. */
  function Double(v: u32): (d: u32)
    ensures v < TWO_32 / 2 ==> d == 2 * v
  {
    (2 * v) % TWO_32
  }

  /**
   * One right-to-left merging pass over a row: the rightmost pair of equal
   * nonzero neighbours becomes (0, double), and the scan resumes left of
   * the pair, since the zeroed cell cannot match its left neighbour.
   */
  function MergeRow(s: seq<u32>): (r: seq<u32>)
    ensures |r| == |s|
    decreases |s|
  {
    if |s| < 2 then s
    else
      var n := |s|;
      if s[n - 1] == s[n - 2] && s[n - 1] != 0 then MergeRow(s[..n - 2]) + [0, Double(s[n - 1])]
      else MergeRow(s[..n - 1]) + [s[n - 1]]
  }

  /** The sum of the doubled values that MergeRow writes. */
  function MergeScore(s: seq<u32>): nat
    decreases |s|
  {
    if |s| < 2 then 0
    else
      var n := |s|;
      if s[n - 1] == s[n - 2] && s[n - 1] != 0 then MergeScore(s[..n - 2]) + Double(s[n - 1])
      else MergeScore(s[..n - 1])
  }

  /** Marks the right cell of every pair that MergeRow merges. */
  function MergedAt(s: seq<u32>): (m: seq<bool>)
    ensures |m| == |s|
    decreases |s|
  {
    if |s| < 2 then seq(|s|, _ => false)
    else
      var n := |s|;
      if s[n - 1] == s[n - 2] && s[n - 1] != 0 then MergedAt(s[..n - 2]) + [false, true]
      else MergedAt(s[..n - 1]) + [false]
  }

  /** After a zero nothing can merge, so a trailing zero stays put. */
  lemma MergeRowTrailingZero(x: seq<u32>)
    ensures MergeRow(x + [0]) == MergeRow(x) + [0]
    ensures MergeScore(x + [0]) == MergeScore(x)
    ensures MergedAt(x + [0]) == MergedAt(x) + [false]
  {
    assert (x + [0])[..|x|] == x;
  }

  /**
   * What MergeRow leaves in each cell: a merged right cell holds the double
   * of a pair of equal tiles, its left partner is emptied, and every other
   * cell keeps its tile; cell 0 is never the right cell of a pair, and no
   * cell is in two pairs.
   */
  lemma {:induction false} MergeRowAt(s: seq<u32>, k: nat)
    requires k < |s|
    ensures MergedAt(s)[k] ==> 0 < k && s[k - 1] == s[k] && s[k] != 0
    ensures MergedAt(s)[k] ==> MergeRow(s)[k] == Double(s[k]) && MergeRow(s)[k - 1] == 0
    ensures k + 1 < |s| ==> !(MergedAt(s)[k] && MergedAt(s)[k + 1])
    ensures !MergedAt(s)[k] && (k + 1 == |s| || !MergedAt(s)[k + 1]) ==> MergeRow(s)[k] == s[k]
    decreases |s|
  {
    var n := |s|;
    if n >= 2 {
      if s[n - 1] == s[n - 2] && s[n - 1] != 0 {
        if k < n - 2 {
          MergeRowAt(s[..n - 2], k);
          if k + 1 < n - 2 {
            MergeRowAt(s[..n - 2], k + 1);
          }
        }
        if k == n - 3 {
          assert MergedAt(s)[k + 1] == false;
        }
      } else {
        if k < n - 1 {
          MergeRowAt(s[..n - 1], k);
          if k + 1 < n - 1 {
            MergeRowAt(s[..n - 1], k + 1);
          }
        }
      }
    }
  }

  /** The total of the cell values of a row. */
  function Sum(s: seq<u32>): int
  {
    if s == [] then 0 else Sum(s[..|s| - 1]) + s[|s| - 1]
  }

  /** The sum of the cells that `marks` flags. */
  function SumMarked(s: seq<u32>, marks: seq<bool>): int
    requires |marks| == |s|
  {
    if s == [] then 0
    else SumMarked(s[..|s| - 1], marks[..|s| - 1]) + (if marks[|s| - 1] then s[|s| - 1] else 0)
  }

  /** The total of two row parts, one after the other. */
  lemma {:induction false} SumAppend(a: seq<u32>, b: seq<u32>)
    ensures Sum(a + b) == Sum(a) + Sum(b)
    decreases |b|
  {
    if b == [] {
      assert a + b == a;
    } else {
      assert (a + b)[..|a + b| - 1] == a + b[..|b| - 1];
      assert (a + b)[|a + b| - 1] == b[|b| - 1];
      SumAppend(a, b[..|b| - 1]);
    }
  }

  /** The marked total of two row parts, one after the other. */
  lemma {:induction false} SumMarkedAppend(a: seq<u32>, ma: seq<bool>, b: seq<u32>, mb: seq<bool>)
    requires |ma| == |a| && |mb| == |b|
    ensures SumMarked(a + b, ma + mb) == SumMarked(a, ma) + SumMarked(b, mb)
    decreases |b|
  {
    if b == [] {
      assert a + b == a && ma + mb == ma;
    } else {
      assert (a + b)[..|a + b| - 1] == a + b[..|b| - 1];
      assert (ma + mb)[..|a + b| - 1] == ma + mb[..|b| - 1];
      assert (a + b)[|a + b| - 1] == b[|b| - 1];
      assert (ma + mb)[|a + b| - 1] == mb[|b| - 1];
      SumMarkedAppend(a, ma, b[..|b| - 1], mb[..|b| - 1]);
    }
  }

  /** The score of a pass is the sum of the values its merges wrote. */
  lemma {:induction false} MergeScoreIsWritten(s: seq<u32>)
    ensures MergeScore(s) == SumMarked(MergeRow(s), MergedAt(s))
    decreases |s|
  {
    var n := |s|;
    if n < 2 {
      if n == 1 {
        assert SumMarked(s, MergedAt(s)) == SumMarked([], []);
      }
    } else if s[n - 1] == s[n - 2] && s[n - 1] != 0 {
      MergeScoreIsWritten(s[..n - 2]);
      SumMarkedAppend(MergeRow(s[..n - 2]), MergedAt(s[..n - 2]), [0, Double(s[n - 1])], [false, true]);
      assert SumMarked([0, Double(s[n - 1])], [false, true]) == Double(s[n - 1]) by {
        assert [0, Double(s[n - 1])][..1] == [0];
        assert [false, true][..1] == [false];
        assert SumMarked([0], [false]) == SumMarked([], []);
      }
    } else {
      MergeScoreIsWritten(s[..n - 1]);
      SumMarkedAppend(MergeRow(s[..n - 1]), MergedAt(s[..n - 1]), [s[n - 1]], [false]);
      assert SumMarked([s[n - 1]], [false]) == SumMarked([], []);
    }
  }

  /** Tiles below 2^31 double without wrapping. */
  ghost predicate NoWrap(s: seq<u32>)
  {
    forall k :: 0 <= k < |s| ==> s[k] < TWO_32 / 2
  }

  /** The total of a two-cell row. */
  lemma SumTwo(x: u32, y: u32)
    ensures Sum([x, y]) == x + y
  {
    assert [x, y][..1] == [x];
    assert [x][..0] == [];
    assert Sum([x]) == x;
  }

  /** A merge turns v, v into 0, 2v: the row's total is conserved. */
  lemma {:induction false} MergeRowConserves(s: seq<u32>)
    requires NoWrap(s)
    ensures Sum(MergeRow(s)) == Sum(s)
    decreases |s|
  {
    var n := |s|;
    if n >= 2 {
      if s[n - 1] == s[n - 2] && s[n - 1] != 0 {
        var p := s[..n - 2];
        var v := s[n - 1];
        NoWrapParts(s, n - 2);
        MergeRowConserves(p);
        SumTwo(0, Double(v));
        SumTwo(v, v);
        SumAppend(MergeRow(p), [0, Double(v)]);
        LastTwo(s);
        SumAppend(p, [v, v]);
      } else {
        NoWrapParts(s, n - 1);
        MergeRowConserves(s[..n - 1]);
        SumAppend(MergeRow(s[..n - 1]), [s[n - 1]]);
        LastOne(s);
        SumAppend(s[..n - 1], [s[n - 1]]);
      }
    }
  }

  /** Every cell is empty or a power of two (IsTile). */
  ghost predicate AllTiles(s: seq<u32>)
  {
    forall k :: 0 <= k < |s| ==> IsTile(s[k])
  }

  /** Both parts of a row of tiles are rows of tiles. */
  lemma AllTilesParts(s: seq<u32>, k: nat)
    requires AllTiles(s) && k <= |s|
    ensures AllTiles(s[..k]) && AllTiles(s[k..])
  {
    assert forall j :: k <= j < |s| ==> s[k..][j - k] == s[j];
  }

  /** Both parts of a row whose tiles double without wrapping are such rows. */
  lemma NoWrapParts(s: seq<u32>, k: nat)
    requires NoWrap(s) && k <= |s|
    ensures NoWrap(s[..k]) && NoWrap(s[k..])
  {
    assert forall j :: k <= j < |s| ==> s[k..][j - k] == s[j];
  }

  /** The double of a tile, wrapped to 32 bits, is again a tile (2^31 wraps to 0). */
  lemma DoubleIsTile(v: u32)
    requires IsTile(v)
    ensures IsTile(Double(v))
  {
    if v != 0 {
      var k :| 1 <= k < 32 && v == Pow2(k);
      if k < 31 {
        Pow2Monotone(k + 1, 32);
        Pow2Of32();
        assert Double(v) == Pow2(k + 1);
      } else {
        Pow2Of32();
        assert Double(v) == 0;
      }
    }
  }

  /** Merging keeps every cell empty or a power of two. */
  lemma {:induction false} MergeRowKeepsTiles(s: seq<u32>)
    requires AllTiles(s)
    ensures AllTiles(MergeRow(s))
    decreases |s|
  {
    var n := |s|;
    if n >= 2 {
      if s[n - 1] == s[n - 2] && s[n - 1] != 0 {
        MergeRowKeepsTiles(s[..n - 2]);
        DoubleIsTile(s[n - 1]);
      } else {
        MergeRowKeepsTiles(s[..n - 1]);
      }
    }
  }

  /** Sliding keeps every cell empty or a power of two. */
  lemma SlideRowKeepsTiles(s: seq<u32>)
    requires AllTiles(s)
    ensures AllTiles(SlideRow(s))
  {
    SlideRowPermutes(s);
    forall k | 0 <= k < |SlideRow(s)| ensures IsTile(SlideRow(s)[k]) {
      assert SlideRow(s)[k] in multiset(s);
    }
  }

  /** The full rightward move of one row: slide, merge, slide. */
  function MoveRow(s: seq<u32>): (r: seq<u32>)
    ensures |r| == |s|
  {
    SlideRow(MergeRow(SlideRow(s)))
  }

  /** `[2,2,0,0]` moved right is `[0,0,0,4]` and scores 4. */
  lemma MoveRowExample1()
    ensures MoveRow([2, 2, 0, 0]) == [0, 0, 0, 4] && MergeScore(SlideRow([2, 2, 0, 0])) == 4
  {
    assert SlideRow([2, 2, 0, 0]) == [0, 0, 2, 2];
    assert MergeRow([0, 0, 2, 2]) == [0, 0, 0, 4];
    assert SlideRow([0, 0, 0, 4]) == [0, 0, 0, 4];
  }

  /** `[2,0,2,4]` moved right is `[0,0,4,4]` and scores 4. */
  lemma MoveRowExample2()
    ensures MoveRow([2, 0, 2, 4]) == [0, 0, 4, 4] && MergeScore(SlideRow([2, 0, 2, 4])) == 4
  {
    assert SlideRow([2, 0, 2, 4]) == [0, 2, 2, 4];
    assert [0, 2, 2, 4][..3] == [0, 2, 2];
    assert [0, 2, 2][..1] == [0];
    assert MergeRow([0, 2, 2]) == [0, 0, 4];
    assert MergeRow([0, 2, 2, 4]) == [0, 0, 4, 4];
    assert SlideRow([0, 0, 4, 4]) == [0, 0, 4, 4];
  }

  /** `[4,4,4,4]` moved right is `[0,0,8,8]` and scores 16. */
  lemma MoveRowExample3()
    ensures MoveRow([4, 4, 4, 4]) == [0, 0, 8, 8] && MergeScore(SlideRow([4, 4, 4, 4])) == 16
  {
    assert SlideRow([4, 4, 4, 4]) == [4, 4, 4, 4];
    assert MergeRow([4, 4, 4, 4]) == [0, 8, 0, 8];
    assert SlideRow([0, 8, 0, 8]) == [0, 0, 8, 8];
  }

  // ---------------------------------------------------------------------
  // Single steps of the in-place scans
  // ---------------------------------------------------------------------

  /** A single cell is already slid. */
  lemma SlideRowSingle(x: u32)
    ensures SlideRow([x]) == [x]
  {
    if x == 0 {
      SlideRowConsEmpty([]);
    } else {
      SlideRowConsTile(x, []);
    }
  }

  /**
   * Moving a tile at `col` over the z empty cells to its right, onto the
   * last of them, slides the part of the row that starts at `col`.
   */
  lemma ShiftTile(r: seq<u32>, col: nat, n: nat, z: nat, tile: u32, nz: seq<u32>)
    requires z > 0 && n == col + 1 && n <= |r| && r[col] == tile && r[n..] == Zeros(z) + nz
    ensures col + z < |r|
    ensures r[col + z := tile][col := 0][..col] == r[..col]
    ensures r[col + z := tile][col := 0][col..] == Zeros(z) + [tile] + nz
  {
    ZerosAreZero(z);
    var r' := r[col + z := tile][col := 0];
    var want := Zeros(z) + [tile] + nz;
    assert |r'[col..]| == |want|;
    forall k | 0 <= k < |want| ensures r'[col..][k] == want[k] {
      if k == 0 {
      } else if k < z {
        assert r[n..][k - 1] == Zeros(z)[k - 1];
      } else if k == z {
      } else {
        assert r[n..][k - 1] == nz[k - z - 1];
      }
    }
  }

  /**
   * The sliding scan meets a tile at `col` with the row right of it already
   * slid: the z empty cells it can move over lie directly next to it, a tile
   * (or the edge) follows them, and moving the tile onto the last of them
   * slides the row from `col` on.
   */
  lemma SlideScanTile(r: seq<u32>, line: seq<u32>, col: nat, n: nat, z: nat)
    requires n == col + 1 && n < |line| && |r| == |line|
    requires r[..n] == line[..n]
    requires r[n..] == SlideRow(line[n..])
    requires r[col] != 0
    requires z == |line| - n - |NonZeros(line[n..])|
    ensures col + z < |r|
    ensures r[..col] == line[..col]
    ensures forall k :: col < k <= col + z ==> r[k] == 0
    ensures col + z + 1 < |r| ==> r[col + z + 1] != 0
    ensures z == 0 ==> r[col..] == SlideRow(line[col..])
    ensures z > 0 ==> r[col + z := r[col]][col := 0][..col] == line[..col]
    ensures z > 0 ==> r[col + z := r[col]][col := 0][col..] == SlideRow(line[col..])
  {
    var x := line[n..];
    var nz := NonZeros(x);
    var tile := r[col];
    PrefixParts(r, line, col, n);
    DropCons(line, col, n);
    DropCons(r, col, n);
    SlideRowConsTile(tile, x);
    ZerosAreZero(z);
    NonZerosAreNonZero(x);
    ScanShape(r, col, n, z, nz);
    if z > 0 {
      ShiftTile(r, col, n, z, tile, nz);
    } else {
      ZeroShift(tile, nz);
    }
  }

  /** Rows agreeing on the first n cells agree on the first n - 1 and on cell n - 1. */
  lemma PrefixParts(r: seq<u32>, line: seq<u32>, col: nat, n: nat)
    requires n == col + 1 && n <= |r| && n <= |line| && r[..n] == line[..n]
    ensures r[..col] == line[..col] && r[col] == line[col]
  {
    assert r[..col] == r[..n][..col];
    assert line[..col] == line[..n][..col];
    assert r[col] == r[..n][col];
  }

  /** The row from `col` on is cell `col` followed by the row from `col + 1` on. */
  lemma DropCons(s: seq<u32>, col: nat, n: nat)
    requires n == col + 1 && n <= |s|
    ensures s[col..] == [s[col]] + s[n..]
  {
  }

  /** A slid row part: its z empty cells come first, then tiles only. */
  lemma ScanShape(r: seq<u32>, col: nat, n: nat, z: nat, nz: seq<u32>)
    requires n == col + 1 && n <= |r| && r[n..] == Zeros(z) + nz
    requires forall k :: 0 <= k < z ==> Zeros(z)[k] == 0
    requires forall k :: 0 <= k < |nz| ==> nz[k] != 0
    ensures col + z < |r|
    ensures forall k :: col < k <= col + z ==> r[k] == 0
    ensures col + z + 1 < |r| ==> r[col + z + 1] != 0
  {
    forall k | col < k <= col + z ensures r[k] == 0 {
      assert r[k] == r[n..][k - n];
    }
    if col + z + 1 < |r| {
      assert r[col + z + 1] == r[n..][z];
    }
  }

  /** With no empty cell to cross, a tile stays just left of the others. */
  lemma ZeroShift(tile: u32, nz: seq<u32>)
    ensures [tile] + (Zeros(0) + nz) == Zeros(0) + [tile] + nz
  {
  }

  /** The sliding scan meets an empty cell at `col` and moves on. */
  lemma SlideScanEmpty(r: seq<u32>, line: seq<u32>, col: nat, n: nat)
    requires n == col + 1 && n < |line| && |r| == |line|
    requires r[..n] == line[..n]
    requires r[n..] == SlideRow(line[n..])
    requires r[col] == 0
    ensures r[..col] == line[..col]
    ensures r[col..] == SlideRow(line[col..])
  {
    assert line[col] == 0;
    SlideRowConsEmpty(line[col + 1..]);
    assert line[col..] == [0] + line[col + 1..];
    assert r[col..] == [0] + r[col + 1..];
    assert r[..col] == r[..col + 1][..col];
  }

  /** The merging scan meets a pair at (c-1, c) and merges it. */
  lemma MergePairStep(q: seq<u32>, c: nat, n: nat)
    requires 0 < c < |q| && n == c + 1 && q[c] == q[c - 1] && q[c] != 0
    ensures MergeRow(q[c := Double(q[c])][c - 1 := 0][..c]) + q[c := Double(q[c])][c - 1 := 0][c..]
         == MergeRow(q[..n]) + q[n..]
    ensures MergeScore(q[..n]) == MergeScore(q[c := Double(q[c])][c - 1 := 0][..c]) + Double(q[c])
  {
    var q' := q[c := Double(q[c])][c - 1 := 0];
    var p := q[..c - 1];
    assert q[..n][..c - 1] == p;
    assert q'[..c] == p + [0];
    assert q'[c..] == [Double(q[c])] + q[n..];
    MergeRowTrailingZero(p);
  }

  /** The merging scan meets no pair at (c-1, c) and moves on. */
  lemma MergeSkipStep(q: seq<u32>, c: nat, n: nat)
    requires 0 < c < |q| && n == c + 1 && !(q[c] == q[c - 1] && q[c] != 0)
    ensures MergeRow(q[..c]) + q[c..] == MergeRow(q[..n]) + q[n..]
    ensures MergeScore(q[..c]) == MergeScore(q[..n])
  {
    assert q[..n][..c] == q[..c];
    assert q[c..] == [q[c]] + q[n..];
  }

  // ---------------------------------------------------------------------
  // Whole boards: row-major, rows of width dim, each row moved on its own
  // ---------------------------------------------------------------------

  /** Every row of a row-major board, slid. */
  function SlideRows(s: seq<u32>, dim: nat): (r: seq<u32>)
    ensures |r| == |s|
    decreases |s|
  {
    if dim == 0 || |s| < dim then s
    else SlideRows(s[..|s| - dim], dim) + SlideRow(s[|s| - dim..])
  }

  /** Every row of a row-major board after one merging pass. */
  function MergeRows(s: seq<u32>, dim: nat): (r: seq<u32>)
    ensures |r| == |s|
    decreases |s|
  {
    if dim == 0 || |s| < dim then s
    else MergeRows(s[..|s| - dim], dim) + MergeRow(s[|s| - dim..])
  }

  /** The score of one merging pass over every row (before wrapping to 32 bits). */
  function MergeScoreRows(s: seq<u32>, dim: nat): nat
    decreases |s|
  {
    if dim == 0 || |s| < dim then 0
    else MergeScoreRows(s[..|s| - dim], dim) + MergeScore(s[|s| - dim..])
  }

  /** The board after a full rightward move: slide, merge, slide. */
  function MoveBoard(s: seq<u32>, dim: nat): (r: seq<u32>)
    ensures |r| == |s|
  {
    SlideRows(MergeRows(SlideRows(s, dim), dim), dim)
  }

  /** The score a rightward move earns (before wrapping to 32 bits). */
  function MoveScore(s: seq<u32>, dim: nat): nat
  {
    MergeScoreRows(SlideRows(s, dim), dim)
  }

  /** A board with one more row below: the new row is handled on its own. */
  lemma SlideRowsSnoc(p: seq<u32>, q: seq<u32>, dim: nat)
    requires dim > 0 && |q| == dim
    ensures SlideRows(p + q, dim) == SlideRows(p, dim) + SlideRow(q)
  {
    var pq := p + q;
    assert pq[..|pq| - dim] == p;
    assert pq[|pq| - dim..] == q;
  }

  /** A board with one more row below: the new row is merged on its own. */
  lemma MergeRowsSnoc(p: seq<u32>, q: seq<u32>, dim: nat)
    requires dim > 0 && |q| == dim
    ensures MergeRows(p + q, dim) == MergeRows(p, dim) + MergeRow(q)
    ensures MergeScoreRows(p + q, dim) == MergeScoreRows(p, dim) + MergeScore(q)
  {
    var pq := p + q;
    assert pq[..|pq| - dim] == p;
    assert pq[|pq| - dim..] == q;
  }

  /** Sliding a slid board changes nothing. */
  lemma {:induction false} SlideRowsIdempotent(s: seq<u32>, dim: nat)
    ensures SlideRows(SlideRows(s, dim), dim) == SlideRows(s, dim)
    decreases |s|
  {
    if dim > 0 && |s| >= dim {
      var p, q := s[..|s| - dim], s[|s| - dim..];
      SlideRowsIdempotent(p, dim);
      SlideRowsSnoc(SlideRows(p, dim), SlideRow(q), dim);
      SlideRowIdempotent(q);
    }
  }

  /** Sliding a board only rearranges its tiles. */
  lemma {:induction false} SlideRowsPermutes(s: seq<u32>, dim: nat)
    ensures multiset(SlideRows(s, dim)) == multiset(s)
    decreases |s|
  {
    if dim > 0 && |s| >= dim {
      var p, q := s[..|s| - dim], s[|s| - dim..];
      SlideRowsPermutes(p, dim);
      SlideRowPermutes(q);
      SplitAt(s, |s| - dim);
    }
  }

  /** Merging conserves a board's total when no tile wraps. */
  lemma {:induction false} MergeRowsConserves(s: seq<u32>, dim: nat)
    requires NoWrap(s)
    ensures Sum(MergeRows(s, dim)) == Sum(s)
    decreases |s|
  {
    if dim > 0 && |s| >= dim {
      var p, q := s[..|s| - dim], s[|s| - dim..];
      NoWrapParts(s, |s| - dim);
      MergeRowsConserves(p, dim);
      MergeRowConserves(q);
      SumAppend(MergeRows(p, dim), MergeRow(q));
      SplitAt(s, |s| - dim);
      SumAppend(p, q);
    }
  }

  /** Merging keeps every cell of a board empty or a power of two. */
  lemma {:induction false} MergeRowsKeepsTiles(s: seq<u32>, dim: nat)
    requires AllTiles(s)
    ensures AllTiles(MergeRows(s, dim))
    decreases |s|
  {
    if dim > 0 && |s| >= dim {
      var p, q := s[..|s| - dim], s[|s| - dim..];
      AllTilesParts(s, |s| - dim);
      MergeRowsKeepsTiles(p, dim);
      MergeRowKeepsTiles(q);
    }
  }

  /** Sliding keeps every cell of a board empty or a power of two. */
  lemma SlideRowsKeepsTiles(s: seq<u32>, dim: nat)
    requires AllTiles(s)
    ensures AllTiles(SlideRows(s, dim))
  {
    SlideRowsPermutes(s, dim);
    forall k | 0 <= k < |s| ensures IsTile(SlideRows(s, dim)[k]) {
      assert SlideRows(s, dim)[k] in multiset(s);
    }
  }

  /** Sliding a board whose tiles double without wrapping keeps that so. */
  lemma SlideRowsKeepsNoWrap(s: seq<u32>, dim: nat)
    requires NoWrap(s)
    ensures NoWrap(SlideRows(s, dim))
  {
    SlideRowsPermutes(s, dim);
    forall k | 0 <= k < |s| ensures SlideRows(s, dim)[k] < TWO_32 / 2 {
      assert SlideRows(s, dim)[k] in multiset(s);
    }
  }

  /** Empty cells add nothing to a total. */
  lemma {:induction false} SumOfZeros(n: nat)
    ensures Sum(Zeros(n)) == 0
  {
    if n > 0 {
      SumOfZeros(n - 1);
      SumAppend([0], Zeros(n - 1));
      assert Sum([0]) == 0 by {
        assert [0 as u32][..0] == [];
      }
    }
  }

  /** Dropping the empty cells keeps the total. */
  lemma {:induction false} SumOfNonZeros(s: seq<u32>)
    ensures Sum(NonZeros(s)) == Sum(s)
  {
    if s != [] {
      SumOfNonZeros(s[1..]);
      HeadTail(s);
      SumAppend([s[0]], s[1..]);
      var head: seq<u32> := if s[0] != 0 then [s[0]] else [];
      SumAppend(head, NonZeros(s[1..]));
      assert Sum([s[0]]) == s[0] by {
        assert [s[0]][..0] == [];
      }
    }
  }

  /** Sliding a row keeps its total. */
  lemma SlideRowSum(s: seq<u32>)
    ensures Sum(SlideRow(s)) == Sum(s)
  {
    SumAppend(Zeros(|s| - |NonZeros(s)|), NonZeros(s));
    SumOfZeros(|s| - |NonZeros(s)|);
    SumOfNonZeros(s);
  }

  /** Sliding a board keeps its total. */
  lemma {:induction false} SlideRowsSum(s: seq<u32>, dim: nat)
    ensures Sum(SlideRows(s, dim)) == Sum(s)
    decreases |s|
  {
    if dim > 0 && |s| >= dim {
      var p, q := s[..|s| - dim], s[|s| - dim..];
      SlideRowsSum(p, dim);
      SlideRowSum(q);
      SumAppend(SlideRows(p, dim), SlideRow(q));
      SplitAt(s, |s| - dim);
      SumAppend(p, q);
    }
  }

  /**
   * A whole rightward move conserves the board's total when no tile wraps:
   * slides only rearrange, and every merge turns v, v into 0, 2v.
   */
  lemma MoveBoardConserves(s: seq<u32>, dim: nat)
    requires NoWrap(s)
    ensures Sum(MoveBoard(s, dim)) == Sum(s)
  {
    var a := SlideRows(s, dim);
    SlideRowsSum(s, dim);
    SlideRowsKeepsNoWrap(s, dim);
    MergeRowsConserves(a, dim);
    SlideRowsSum(MergeRows(a, dim), dim);
  }

  /** A whole rightward move keeps every cell empty or a power of two. */
  lemma MoveBoardKeepsTiles(s: seq<u32>, dim: nat)
    requires AllTiles(s)
    ensures AllTiles(MoveBoard(s, dim))
  {
    SlideRowsKeepsTiles(s, dim);
    MergeRowsKeepsTiles(SlideRows(s, dim), dim);
    SlideRowsKeepsTiles(MergeRows(SlideRows(s, dim), dim), dim);
  }

  /** A board of a single row is moved, merged and scored as that row. */
  lemma SingleRowBoard(r: seq<u32>, dim: nat)
    requires |r| == dim > 0
    ensures SlideRows(r, dim) == SlideRow(r)
    ensures MergeRows(r, dim) == MergeRow(r) && MergeScoreRows(r, dim) == MergeScore(r)
  {
    assert r[..0] == [] && r[0..] == r;
  }

  /** A one-row board moves exactly as MoveRow moves that row, and scores the same. */
  lemma MoveBoardOneRow(r: seq<u32>, dim: nat)
    requires |r| == dim > 0
    ensures MoveBoard(r, dim) == MoveRow(r)
    ensures MoveScore(r, dim) == MergeScore(SlideRow(r))
  {
    SingleRowBoard(r, dim);
    SingleRowBoard(SlideRow(r), dim);
    SingleRowBoard(MergeRow(SlideRow(r)), dim);
  }

  /**
   * Rows do not mix: a board with one more row below moves as the board
   * above it and, separately, that row; the scores add up.
   */
  lemma MoveBoardSnoc(p: seq<u32>, q: seq<u32>, dim: nat)
    requires dim > 0 && |q| == dim
    ensures MoveBoard(p + q, dim) == MoveBoard(p, dim) + MoveRow(q)
    ensures MoveScore(p + q, dim) == MoveScore(p, dim) + MergeScore(SlideRow(q))
  {
    SlideRowsSnoc(p, q, dim);
    MergeRowsSnoc(SlideRows(p, dim), SlideRow(q), dim);
    SlideRowsSnoc(MergeRows(SlideRows(p, dim), dim), MergeRow(SlideRow(q)), dim);
  }

  /** An empty row stays empty and scores nothing. */
  lemma MoveRowEmpty()
    ensures MoveRow([0, 0, 0, 0]) == [0, 0, 0, 0] && MergeScore(SlideRow([0, 0, 0, 0])) == 0
  {
    assert [0, 0, 0, 0] == Zeros(4);
    NonZerosOfZeros(4);
    assert SlideRow([0, 0, 0, 0]) == [0, 0, 0, 0];
    assert [0, 0, 0, 0][..3] == [0, 0, 0];
    assert [0, 0, 0][..2] == [0, 0];
    assert [0, 0][..1] == [0];
    assert MergeRow([0, 0, 0, 0]) == [0, 0, 0, 0];
  }

  /**
   * A 4-by-4 board moves right row by row: each row becomes MoveRow of
   * itself, and the move scores the sum of the rows' scores.
   */
  lemma MoveBoardFourRows(r1: seq<u32>, r2: seq<u32>, r3: seq<u32>, r4: seq<u32>)
    requires |r1| == |r2| == |r3| == |r4| == 4
    ensures MoveBoard(r1 + r2 + r3 + r4, 4) == MoveRow(r1) + MoveRow(r2) + MoveRow(r3) + MoveRow(r4)
    ensures MoveScore(r1 + r2 + r3 + r4, 4) ==
      MergeScore(SlideRow(r1)) + MergeScore(SlideRow(r2)) + MergeScore(SlideRow(r3)) + MergeScore(SlideRow(r4))
  {
    MoveBoardOneRow(r1, 4);
    MoveBoardSnoc(r1, r2, 4);
    MoveBoardSnoc(r1 + r2, r3, 4);
    MoveBoardSnoc(r1 + r2 + r3, r4, 4);
  }

  /**
   * The three worked rows and an empty one as a 4-by-4 board: each row
   * moves right on its own, and the move scores 4 + 4 + 16.
   */
  lemma MoveBoardExample(r1: seq<u32>, r2: seq<u32>, r3: seq<u32>, r4: seq<u32>)
    requires r1 == [2, 2, 0, 0] && r2 == [2, 0, 2, 4] && r3 == [4, 4, 4, 4] && r4 == [0, 0, 0, 0]
    ensures MoveBoard(r1 + r2 + r3 + r4, 4) == [0, 0, 0, 4] + [0, 0, 4, 4] + [0, 0, 8, 8] + [0, 0, 0, 0]
    ensures MoveScore(r1 + r2 + r3 + r4, 4) == 24
  {
    MoveRowExample1();
    MoveRowExample2();
    MoveRowExample3();
    MoveRowEmpty();
    MoveBoardFourRows(r1, r2, r3, r4);
  }
}
