/**
 * The line merge of the 4x4 tile game (main.c, slide_and_merge_row).
 *
 * A line is one row or column of the grid, read in the direction of the
 * move. Its non-empty tiles are written to the front of a buffer in order;
 * an incoming tile equal to the LAST tile written is merged into it (doubled)
 * instead of being written. Because the comparison is with the last written
 * tile, a tile produced by a merge can merge again with the next incoming
 * tile: [2, 2, 4, 0] becomes [8, 0, 0, 0].
 */
module Line {

  /** GRID_SIZE: every row and every column holds this many cells. */
  const Size: nat := 4

  /** The value of an empty cell (EMPTY_CELL). */
  const Empty: int := 0

  /** Sum of the values of a line. */
  function Sum(s: seq<int>): int
  {
    if s == [] then 0 else Sum(s[..|s| - 1]) + s[|s| - 1]
  }

  /** Number of non-empty cells among the first n cells of s. */
  function Count(s: seq<int>, n: nat): (c: nat)
    requires n <= |s|
    ensures c <= n
  {
    if n == 0 then 0 else Count(s, n - 1) + (if s[n - 1] != Empty then 1 else 0)
  }

  /** Number of non-empty cells of a line. */
  function NonEmpty(s: seq<int>): nat
  {
    Count(s, |s|)
  }

  /** n empty cells. */
  function Zeros(n: nat): (z: seq<int>)
    ensures |z| == n
    ensures forall k :: 0 <= k < n ==> z[k] == Empty
  {
    seq(n, _ => Empty)
  }

  /** A positive power of two (1, 2, 4, 8, ...). */
  predicate IsPowerOfTwo(x: int)
    decreases if x < 0 then 0 else x
  {
    x == 1 || (x > 1 && x % 2 == 0 && IsPowerOfTwo(x / 2))
  }

  /** A tile value: a power of two no smaller than 2, the smallest tile placed. */
  predicate IsTile(x: int)
  {
    x >= 2 && IsPowerOfTwo(x)
  }

  /** Every cell is empty or holds a tile. */
  predicate AllTiles(s: seq<int>)
  {
    forall k :: 0 <= k < |s| ==> s[k] == Empty || IsTile(s[k])
  }

  /**
   * One iteration of the merge loop: the cell x arrives while `written`
   * holds the tiles written so far. An empty cell is skipped; a tile equal
   * to the last written tile doubles it; any other tile is written after it.
   */
  function Absorb(written: seq<int>, x: int): seq<int>
  {
    if x == Empty then written
    else if |written| > 0 && written[|written| - 1] == x then written[..|written| - 1] + [2 * x]
    else written + [x]
  }

  /**
   * The tiles the merge loop has written after reading the first n cells of
   * s. There are never more of them than non-empty cells read, and none of
   * them is empty.
   */
  function Written(s: seq<int>, n: nat): (r: seq<int>)
    requires n <= |s|
    ensures |r| <= Count(s, n)
    ensures forall k :: 0 <= k < |r| ==> r[k] != Empty
  {
    if n == 0 then [] else Absorb(Written(s, n - 1), s[n - 1])
  }

  /** The line after the merge: all its written tiles, then empty cells. */
  function SlideRow(s: seq<int>): (r: seq<int>)
    ensures |r| == |s|
  {
    var t := Written(s, |s|);
    t + Zeros(|s| - |t|)
  }

  /** At least one merge happens while reading s. */
  predicate Merges(s: seq<int>)
  {
    |Written(s, |s|)| < NonEmpty(s)
  }

  /** A buffer of Size cells holding the written tiles, then empty cells. */
  function Padded(written: seq<int>): (t: seq<int>)
    requires |written| <= Size
    ensures |t| == Size
  {
    written + Zeros(Size - |written|)
  }

  // ---------------------------------------------------------------------
  // The merge on a buffer, as main.c runs it

  /**
   * The first loop of slide_and_merge_row: reads the line and writes its
   * tiles, merged, to the front of a fresh zeroed buffer. Reports whether a
   * merge happened.
   */
  method MergeIntoBuffer(row: array<int>) returns (temp: array<int>, merged: bool)
    requires row.Length == Size
    ensures fresh(temp) && temp.Length == Size
    ensures temp[..] == SlideRow(row[..])
    ensures merged == Merges(row[..])
  {
    merged := false;
    temp := new int[Size](_ => Empty);
    var writeIndex := 0;
    ghost var written: seq<int> := [];
    ghost var line := row[..];
    assert temp[..] == Padded([]);

    for i := 0 to Size
      invariant line == row[..]
      invariant written == Written(line, i)
      invariant writeIndex == |written|
      invariant temp[..] == Padded(written)
      invariant merged == (writeIndex < Count(line, i))
    {
      ghost var t0 := temp[..];
      AbsorbPadded(written, row[i]);
      assert writeIndex > 0 ==> temp[writeIndex - 1] == written[writeIndex - 1];
      written := Absorb(written, row[i]);
      if row[i] != Empty {
        if writeIndex > 0 && temp[writeIndex - 1] == row[i] {
          temp[writeIndex - 1] := temp[writeIndex - 1] * 2;
          merged := true;
          assert temp[..] == t0[writeIndex - 1 := 2 * row[i]];
        } else {
          temp[writeIndex] := row[i];
          assert temp[..] == t0[writeIndex := row[i]];
          writeIndex := writeIndex + 1;
        }
      }
    }
  }

  /**
   * slide_and_merge_row: merges the line in place and reports whether it
   * changed. The flag is raised by a merge and by any rewritten cell; a
   * merge always changes the line, so it is true exactly when the line
   * changed.
   */
  method SlideAndMergeRow(row: array<int>) returns (moved: bool)
    requires row.Length == Size
    modifies row
    ensures row[..] == SlideRow(old(row[..]))
    ensures moved == (row[..] != old(row[..]))
  {
    var temp;
    temp, moved := MergeIntoBuffer(row);
    ghost var before := row[..];
    ghost var merged := moved;
    if merged {
      MergeChangesLine(before);
    }

    for i := 0 to Size
      modifies row
      invariant row[..i] == temp[..i]
      invariant forall k :: i <= k < Size ==> row[k] == before[k]
      invariant moved == (merged || before[..i] != temp[..i])
    {
      assert before[..i + 1] == before[..i] + [before[i]];
      assert temp[..i + 1] == temp[..i] + [temp[i]];
      if row[i] != temp[i] {
        row[i] := temp[i];
        moved := true;
      }
    }
    assert row[..] == row[..Size] == temp[..Size] == temp[..];
  }

  /** One step of the merge loop, seen on the whole buffer. */
  lemma AbsorbPadded(written: seq<int>, x: int)
    requires |written| <= Size
    requires |written| == Size ==> x == Empty || written[|written| - 1] == x
    ensures |Absorb(written, x)| <= Size
    ensures Padded(Absorb(written, x)) ==
      if x == Empty then Padded(written)
      else if |written| > 0 && written[|written| - 1] == x then Padded(written)[|written| - 1 := 2 * x]
      else Padded(written)[|written| := x]
  {
  }

  // ---------------------------------------------------------------------
  // Sums

  lemma {:induction false} SumAppend(a: seq<int>, b: seq<int>)
    ensures Sum(a + b) == Sum(a) + Sum(b)
    decreases |b|
  {
    if b != [] {
      assert (a + b)[..|a + b| - 1] == a + b[..|b| - 1];
      SumAppend(a, b[..|b| - 1]);
    } else {
      assert a + b == a;
    }
  }

  lemma {:induction false} SumZeros(n: nat)
    ensures Sum(Zeros(n)) == 0
  {
    if n > 0 {
      assert Zeros(n)[..n - 1] == Zeros(n - 1);
      SumZeros(n - 1);
    }
  }

  lemma AbsorbSum(written: seq<int>, x: int)
    ensures Sum(Absorb(written, x)) == Sum(written) + x
  {
    if x != Empty {
      var n := |written|;
      if n > 0 && written[n - 1] == x {
        assert written == written[..n - 1] + [x];
        SumAppend(written[..n - 1], [x]);
        SumAppend(written[..n - 1], [2 * x]);
      } else {
        SumAppend(written, [x]);
      }
    }
  }

  lemma {:induction false} WrittenSum(s: seq<int>, n: nat)
    requires n <= |s|
    ensures Sum(Written(s, n)) == Sum(s[..n])
  {
    if n > 0 {
      WrittenSum(s, n - 1);
      AbsorbSum(Written(s, n - 1), s[n - 1]);
      assert s[..n][..n - 1] == s[..n - 1];
    }
  }

  /** Merging never creates or destroys value: the line's sum is unchanged. */
  lemma SlideRowSum(s: seq<int>)
    ensures Sum(SlideRow(s)) == Sum(s)
  {
    var t := Written(s, |s|);
    SumAppend(t, Zeros(|s| - |t|));
    SumZeros(|s| - |t|);
    WrittenSum(s, |s|);
    assert s[..|s|] == s;
  }

  // ---------------------------------------------------------------------
  // Packing and the number of tiles

  lemma {:induction false} CountAgree(s: seq<int>, t: seq<int>, n: nat)
    requires n <= |s| && n <= |t|
    requires forall k :: 0 <= k < n ==> s[k] == t[k]
    ensures Count(s, n) == Count(t, n)
  {
    if n > 0 {
      CountAgree(s, t, n - 1);
    }
  }

  lemma {:induction false} CountAppend(a: seq<int>, b: seq<int>, k: nat)
    requires k <= |b|
    ensures Count(a + b, |a| + k) == Count(a, |a|) + Count(b, k)
  {
    if k == 0 {
      CountAgree(a + b, a, |a|);
    } else {
      CountAppend(a, b, k - 1);
    }
  }

  lemma {:induction false} CountZeros(n: nat, k: nat)
    requires k <= n
    ensures Count(Zeros(n), k) == 0
  {
    if k > 0 {
      CountZeros(n, k - 1);
    }
  }

  lemma {:induction false} CountFull(s: seq<int>, n: nat)
    requires n <= |s|
    requires forall k :: 0 <= k < n ==> s[k] != Empty
    ensures Count(s, n) == n
  {
    if n > 0 {
      CountFull(s, n - 1);
    }
  }

  /**
   * After the merge the line is packed: no empty cell comes before a tile.
   * It holds exactly the written tiles, never more tiles than before, and
   * fewer exactly when a merge happened.
   */
  lemma SlideRowPacked(s: seq<int>)
    ensures var r := SlideRow(s);
      && (forall i, j :: 0 <= i < j < |r| && r[i] == Empty ==> r[j] == Empty)
      && r[..|Written(s, |s|)|] == Written(s, |s|)
      && NonEmpty(r) == |Written(s, |s|)| <= NonEmpty(s)
      && (NonEmpty(r) < NonEmpty(s) <==> Merges(s))
  {
    var t := Written(s, |s|);
    var z := Zeros(|s| - |t|);
    CountAppend(t, z, |z|);
    CountZeros(|z|, |z|);
    CountFull(t, |t|);
    assert (t + z)[..|t|] == t;
  }

  /** A merge always leaves the line different from what it was. */
  lemma MergeChangesLine(s: seq<int>)
    requires Merges(s)
    ensures SlideRow(s) != s
  {
    SlideRowPacked(s);
  }

  // ---------------------------------------------------------------------
  // Lines that cannot move

  /** No empty cell and no two neighbouring equal tiles. */
  predicate Stuck(s: seq<int>)
  {
    && (forall k :: 0 <= k < |s| ==> s[k] != Empty)
    && (forall k :: 0 <= k < |s| - 1 ==> s[k] != s[k + 1])
  }

  lemma {:induction false} WrittenStuck(s: seq<int>, n: nat)
    requires Stuck(s) && n <= |s|
    ensures Written(s, n) == s[..n]
  {
    if n > 0 {
      WrittenStuck(s, n - 1);
      assert s[..n] == s[..n - 1] + [s[n - 1]];
    }
  }

  /** A full line without neighbouring equal tiles is left as it is. */
  lemma SlideRowStuck(s: seq<int>)
    requires Stuck(s)
    ensures SlideRow(s) == s
  {
    WrittenStuck(s, |s|);
    assert s[..|s|] + Zeros(0) == s;
  }

  /** When every cell read has been written on its own, nothing merged or moved. */
  lemma {:induction false} WrittenFull(s: seq<int>, n: nat)
    requires n <= |s| && |Written(s, n)| == n
    ensures Written(s, n) == s[..n]
  {
    if n > 0 {
      var w := Written(s, n - 1);
      assert |w| <= n - 1;
      assert |Absorb(w, s[n - 1])| <= |w| + 1;
      WrittenFull(s, n - 1);
      assert s[..n] == s[..n - 1] + [s[n - 1]];
    }
  }

  /** A merge that changes a line leaves its last cell empty. */
  lemma SlideRowLeavesEmpty(s: seq<int>)
    requires |s| > 0
    ensures SlideRow(s) != s ==> SlideRow(s)[|s| - 1] == Empty
  {
    var w := Written(s, |s|);
    if |w| == |s| {
      WrittenFull(s, |s|);
      assert s[..|s|] + Zeros(0) == s;
    }
  }

  // ---------------------------------------------------------------------
  // Tile values

  lemma DoublePowerOfTwo(x: int)
    requires IsPowerOfTwo(x)
    ensures IsPowerOfTwo(2 * x)
  {
    assert (2 * x) / 2 == x;
  }

  lemma {:induction false} WrittenTiles(s: seq<int>, n: nat)
    requires AllTiles(s) && n <= |s|
    ensures AllTiles(Written(s, n))
  {
    if n > 0 {
      WrittenTiles(s, n - 1);
      var w := Written(s, n - 1);
      var x := s[n - 1];
      if x != Empty && |w| > 0 && w[|w| - 1] == x {
        DoublePowerOfTwo(x);
      }
    }
  }

  /** A line of empty cells and powers of two stays one. */
  lemma SlideRowTiles(s: seq<int>)
    requires AllTiles(s)
    ensures AllTiles(SlideRow(s))
  {
    WrittenTiles(s, |s|);
  }

  // ---------------------------------------------------------------------
  // The cascade

  /**
   * Each incoming tile is compared with the last tile written, even one a
   * merge has just produced: [2, 2, 4, 0] collapses to a single 8, and
   * [4, 2, 2, 0] leaves two neighbouring 4s, which a second merge joins, so
   * the merge is not idempotent.
   */
  lemma CascadingMerges()
    ensures SlideRow([2, 2, 4, 0]) == [8, 0, 0, 0]
    ensures SlideRow([4, 2, 2, 0]) == [4, 4, 0, 0]
    ensures SlideRow(SlideRow([4, 2, 2, 0])) != SlideRow([4, 2, 2, 0])
  {
    var a := [2, 2, 4, 0];
    assert Written(a, 2) == [4];
    assert Written(a, 4) == [8];
    var b := [4, 2, 2, 0];
    assert Written(b, 2) == [4, 2];
    assert Written(b, 4) == [4, 4];
    var c := [4, 4, 0, 0];
    assert Written(c, 2) == [8];
    assert Written(c, 4) == [8];
  }
}
