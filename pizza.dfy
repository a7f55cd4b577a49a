/**
 * The pizza slicer: a pizza is a grid of cells, some of them ham. A slice is an axis-aligned
 * rectangle given by its inclusive corners `[r1, c1, r2, c2]`. `cut(k, start_row, max_rows)`
 * scans the rows `start_row ..` band by band, `k` rows at a time, and records every slice of
 * `k` rows by `max / k` columns that holds at least `hams` ham cells, skipping one column
 * when a candidate falls short. `best_cut` splits the pizza into bands of `max / 2` rows
 * and keeps, for each band, the slice height that gives the most slices.
 */
module PizzaSlicer {
  import opened Optional

  /** `[r1, c1, r2, c2]`: rows r1..r2 and columns c1..c2, both ends included. */
  datatype Slice = Slice(r1: int, c1: int, r2: int, c2: int)

  /** The parsed pizza: `rows`, `cols`, the minimum number of ham cells per slice, the
      maximum slice area, and `matrix[i][j]`, true for a ham cell. */
  datatype Board = Board(rows: nat, cols: nat, hams: nat, max: nat, matrix: seq<seq<bool>>)
  {
    predicate Valid() {
      |matrix| == rows && forall i :: 0 <= i < rows ==> |matrix[i]| == cols
    }
  }

  /** Every cell a slice names exists (an empty range of rows or columns names none). */
  predicate Inside(b: Board, s: Slice) {
    0 <= s.r1 && 0 <= s.c1 && s.r2 < b.rows && s.c2 < b.cols
  }

  /** The cell (x, y) belongs to the slice. */
  predicate Covers(s: Slice, x: int, y: int) {
    s.r1 <= x <= s.r2 && s.c1 <= y <= s.c2
  }

  /** Two slices share no cell. */
  ghost predicate Disjoint(a: Slice, c: Slice) {
    forall x, y :: !(Covers(a, x, y) && Covers(c, x, y))
  }

  function Height(s: Slice): nat { if s.r2 < s.r1 then 0 else s.r2 - s.r1 + 1 }
  function Width(s: Slice): nat { if s.c2 < s.c1 then 0 else s.c2 - s.c1 + 1 }
  function Area(s: Slice): nat { Height(s) * Width(s) }

  // ---------------------------------------------------------------------------
  // Counting ham cells (nb_hams)

  /** The ham cells of `row` in columns c1..c2. */
  function RowHams(row: seq<bool>, c1: int, c2: int): nat
    requires 0 <= c1 && c2 < |row|
    decreases c2 - c1
  {
    if c2 < c1 then 0 else RowHams(row, c1, c2 - 1) + (if row[c2] then 1 else 0)
  }

  /** The ham cells of slice `s`, row by row. */
  function Hams(b: Board, s: Slice): nat
    requires b.Valid() && Inside(b, s)
    decreases s.r2 - s.r1
  {
    if s.r2 < s.r1 then 0 else Hams(b, s.(r2 := s.r2 - 1)) + RowHams(b.matrix[s.r2], s.c1, s.c2)
  }

  lemma {:induction false} RowHamsBounds(row: seq<bool>, c1: int, c2: int)
    requires 0 <= c1 && c2 < |row|
    ensures RowHams(row, c1, c2) <= (if c2 < c1 then 0 else c2 - c1 + 1)
    decreases c2 - c1
  {
    if c1 <= c2 {
      RowHamsBounds(row, c1, c2 - 1);
    }
  }

  /** A slice holds at most as many ham cells as it has cells, and none when it is empty. */
  lemma {:induction false} HamsBounds(b: Board, s: Slice)
    requires b.Valid() && Inside(b, s)
    ensures Hams(b, s) <= Area(s)
    ensures Height(s) == 0 || Width(s) == 0 ==> Hams(b, s) == 0
    decreases s.r2 - s.r1
  {
    if s.r1 <= s.r2 {
      var t := s.(r2 := s.r2 - 1);
      HamsBounds(b, t);
      RowHamsBounds(b.matrix[s.r2], s.c1, s.c2);
      assert Height(s) == Height(t) + 1;
      assert Width(s) == Width(t);
      assert Area(s) == Area(t) + Width(s);
    }
  }

  /** A slice without columns holds no ham: the zero-width candidates of `cut`. */
  lemma NoColumnsNoHams(b: Board, s: Slice)
    requires b.Valid() && Inside(b, s) && s.c2 < s.c1
    ensures Hams(b, s) == 0
  {
    HamsBounds(b, s);
  }

  // ---------------------------------------------------------------------------
  // What cut records, as functions of the pizza

  /** The slices cut records in the band of rows i..i+k-1, scanning the columns from `j`
      with slices `l` columns wide. */
  function CutRow(b: Board, i: nat, k: nat, l: nat, j: nat): seq<Slice>
    requires b.Valid() && k >= 1 && i + k <= b.rows && (l >= 1 || b.hams > 0)
    decreases b.cols + 1 - j
  {
    if j + l > b.cols then []
    else
      var s := Slice(i, j, i + k - 1, j + l - 1);
      if Hams(b, s) >= b.hams then
        (if l == 0 then NoColumnsNoHams(b, s); [] else [s] + CutRow(b, i, k, l, j + l))
      else CutRow(b, i, k, l, j + 1)
  }

  /** The slices cut records in the bands starting at rows i, i+k, ... that end by `maxRows`. */
  function CutRows(b: Board, i: nat, k: nat, l: nat, maxRows: nat): seq<Slice>
    requires b.Valid() && k >= 1 && maxRows <= b.rows && (l >= 1 || b.hams > 0)
    decreases maxRows - i
  {
    if i + k > maxRows then [] else CutRow(b, i, k, l, 0) + CutRows(b, i + k, k, l, maxRows)
  }

  lemma DivAtLeastOne(m: nat, k: nat)
    requires 1 <= k <= m
    ensures m / k >= 1
  {
    assert m == k * (m / k) + m % k;
  }

  /** `slices` after `cut(k, start_row, max_rows)`. The source needs `max / k >= 1` (or a
      positive ham threshold) to make progress, which for k >= 1 is `k <= max`. */
  function CutResult(b: Board, k: nat, startRow: nat, maxRows: nat): seq<Slice>
    requires b.Valid() && k >= 1 && maxRows <= b.rows && (k <= b.max || b.hams > 0)
  {
    if k <= b.max then DivAtLeastOne(b.max, k); CutRows(b, startRow, k, b.max / k, maxRows)
    else CutRows(b, startRow, k, b.max / k, maxRows)
  }

  /** The column the scan of cut moves to from the candidate at column `j`: past the
      candidate when it holds enough ham, one column on otherwise. */
  function NextColumn(b: Board, i: nat, k: nat, l: nat, j: nat): nat
    requires b.Valid() && k >= 1 && i + k <= b.rows && j + l <= b.cols
  {
    if Hams(b, Slice(i, j, i + k - 1, j + l - 1)) >= b.hams then j + l else j + 1
  }

  /** The scan moves on exactly when the slices are at least one column wide or the ham
      threshold is positive. With zero-width slices and a threshold of 0 every candidate is
      accepted and the column stays put: the case that Cut's precondition excludes. */
  lemma NextColumnProgress(b: Board, i: nat, k: nat, l: nat, j: nat)
    requires b.Valid() && k >= 1 && i + k <= b.rows && j + l <= b.cols
    ensures NextColumn(b, i, k, l, j) > j <==> l >= 1 || b.hams > 0
    ensures NextColumn(b, i, k, l, j) == j <==> l == 0 && b.hams == 0
  {
    if l == 0 {
      NoColumnsNoHams(b, Slice(i, j, i + k - 1, j - 1));
    }
  }

  // ---------------------------------------------------------------------------
  // Shape, threshold and order of the slices cut records

  /** Row-major order: `a` lies in an earlier band than `c`, or in the same band to its left. */
  predicate Precedes(a: Slice, c: Slice) {
    a.r2 < c.r1 || (a.r1 == c.r1 && a.r2 == c.r2 && a.c2 < c.c1)
  }

  predicate Ordered(ss: seq<Slice>) {
    forall p, q :: 0 <= p < q < |ss| ==> Precedes(ss[p], ss[q])
  }

  lemma OrderedConcat(x: seq<Slice>, y: seq<Slice>)
    requires Ordered(x) && Ordered(y)
    requires forall a, c :: a in x && c in y ==> Precedes(a, c)
    ensures Ordered(x + y)
  {
    forall p, q | 0 <= p < q < |x + y| ensures Precedes((x + y)[p], (x + y)[q]) {
      if q < |x| {
        assert (x + y)[p] == x[p] && (x + y)[q] == x[q];
      } else if p < |x| {
        assert (x + y)[p] in x && (x + y)[q] in y;
      } else {
        assert (x + y)[p] == y[p - |x|] && (x + y)[q] == y[q - |x|];
      }
    }
  }

  lemma PrecedesDisjoint(a: Slice, c: Slice)
    requires Precedes(a, c)
    ensures Disjoint(a, c)
  {
  }

  /** A slice cut may record: `k` rows by `max / k` columns inside rows lo..hi-1 of the
      pizza, with at least `hams` ham cells. */
  predicate Admissible(b: Board, s: Slice, k: nat, lo: nat, hi: nat)
    requires b.Valid() && k >= 1
  {
    && Inside(b, s) && lo <= s.r1 && s.r2 < hi
    && s.r2 - s.r1 + 1 == k && s.c2 - s.c1 + 1 == b.max / k
    && Hams(b, s) >= b.hams
  }

  lemma {:induction false} CutRowFacts(b: Board, i: nat, k: nat, l: nat, j: nat)
    requires b.Valid() && k >= 1 && i + k <= b.rows && (l >= 1 || b.hams > 0)
    requires l == b.max / k
    ensures forall s :: s in CutRow(b, i, k, l, j) ==>
              Admissible(b, s, k, i, i + k) && s.r1 == i && j <= s.c1
    ensures Ordered(CutRow(b, i, k, l, j))
    decreases b.cols + 1 - j
  {
    if j + l <= b.cols {
      var s := Slice(i, j, i + k - 1, j + l - 1);
      if Hams(b, s) >= b.hams {
        if l == 0 {
          NoColumnsNoHams(b, s);
        } else {
          CutRowFacts(b, i, k, l, j + l);
          OrderedConcat([s], CutRow(b, i, k, l, j + l));
        }
      } else {
        CutRowFacts(b, i, k, l, j + 1);
      }
    }
  }

  lemma {:induction false} CutRowsFacts(b: Board, i: nat, k: nat, l: nat, maxRows: nat)
    requires b.Valid() && k >= 1 && maxRows <= b.rows && (l >= 1 || b.hams > 0)
    requires l == b.max / k
    ensures forall s :: s in CutRows(b, i, k, l, maxRows) ==> Admissible(b, s, k, i, maxRows)
    ensures Ordered(CutRows(b, i, k, l, maxRows))
    decreases maxRows - i
  {
    if i + k <= maxRows {
      CutRowFacts(b, i, k, l, 0);
      CutRowsFacts(b, i + k, k, l, maxRows);
      OrderedConcat(CutRow(b, i, k, l, 0), CutRows(b, i + k, k, l, maxRows));
    }
  }

  lemma SliceArea(m: nat, k: nat)
    requires k >= 1
    ensures k * (m / k) <= m
  {
    assert m == k * (m / k) + m % k;
  }

  /** Every slice `cut(k, start_row, max_rows)` records is k rows by `max / k` columns, so its
      area is at most `max`; it lies in rows start_row..max_rows-1 of the pizza and holds at
      least `hams` ham cells; the slices come in row-major order and share no cell. */
  lemma CutSlices(b: Board, k: nat, startRow: nat, maxRows: nat)
    requires b.Valid() && k >= 1 && maxRows <= b.rows && (k <= b.max || b.hams > 0)
    ensures forall s :: s in CutResult(b, k, startRow, maxRows) ==>
              Admissible(b, s, k, startRow, maxRows) && Area(s) <= b.max
    ensures Ordered(CutResult(b, k, startRow, maxRows))
    ensures forall p, q :: 0 <= p < q < |CutResult(b, k, startRow, maxRows)| ==>
              Disjoint(CutResult(b, k, startRow, maxRows)[p], CutResult(b, k, startRow, maxRows)[q])
  {
    if k <= b.max {
      DivAtLeastOne(b.max, k);
    }
    var l := b.max / k;
    CutRowsFacts(b, startRow, k, l, maxRows);
    SliceArea(b.max, k);
    var c := CutResult(b, k, startRow, maxRows);
    forall s | s in c ensures Area(s) <= b.max {
      assert Height(s) == k && Width(s) == l;
    }
    forall p, q | 0 <= p < q < |c| ensures Disjoint(c[p], c[q]) {
      PrecedesDisjoint(c[p], c[q]);
    }
  }

  // ---------------------------------------------------------------------------
  // The bands of best_cut

  /** `rows / (max/2)` bands; the source divides by `max / 2`, so `max >= 2`. */
  function BandCount(b: Board): nat
    requires b.max >= 2
  {
    b.rows / (b.max / 2)
  }

  /** `start_row = l * max/2`, which Ruby evaluates as `(l * max) / 2`. */
  function BandStart(b: Board, l: nat): nat {
    l * b.max / 2
  }

  /** `stop_row = start_row + max/2`, capped at `rows`. */
  function BandStop(b: Board, l: nat): nat {
    if BandStart(b, l) + b.max / 2 > b.rows then b.rows else BandStart(b, l) + b.max / 2
  }

  lemma BandStep(b: Board, l: nat)
    ensures BandStart(b, l) + b.max / 2 <= BandStart(b, l + 1)
  {
    var a := l * b.max;
    assert (l + 1) * b.max == a + b.max;
    assert a == 2 * (a / 2) + a % 2;
    assert b.max == 2 * (b.max / 2) + b.max % 2;
    assert a + b.max == 2 * (a / 2 + b.max / 2) + (a % 2 + b.max % 2);
  }

  /** The bands are pairwise disjoint: a band ends no later than any later band starts, and
      the band ends never decrease. */
  lemma {:induction false} BandsDisjoint(b: Board, l: nat, l': nat)
    requires l < l'
    ensures BandStop(b, l) <= BandStart(b, l')
    ensures BandStop(b, l) <= BandStop(b, l')
    decreases l' - l
  {
    BandStep(b, l);
    if l + 1 < l' {
      BandsDisjoint(b, l + 1, l');
      assert BandStart(b, l + 1) <= BandStop(b, l + 1) || BandStop(b, l + 1) == b.rows;
    }
  }

  /** With an even `max` the bands tile the first `BandCount * (max/2)` rows without gaps. */
  lemma EvenBandsTile(b: Board, l: nat)
    requires b.max >= 2 && b.max % 2 == 0 && l + 1 <= BandCount(b)
    ensures BandStart(b, l) == l * (b.max / 2)
    ensures BandStop(b, l) == BandStart(b, l + 1) == (l + 1) * (b.max / 2)
  {
    var h := b.max / 2;
    assert b.max == 2 * h;
    assert l * b.max == 2 * (l * h);
    assert (l + 1) * b.max == 2 * ((l + 1) * h);
    assert (l + 1) * h <= BandCount(b) * h <= b.rows by {
      assert b.rows == h * (b.rows / h) + b.rows % h;
      MulLe(l + 1, BandCount(b), h);
    }
  }

  lemma MulLe(x: nat, y: nat, h: nat)
    requires x <= y
    ensures x * h <= y * h
  {
  }

  /** With an odd `max` the bands leave rows out and can start at the last row: for a pizza
      of 4 rows with `max = 3` the fourth band starts at row 4, has no rows, and so no
      height yields a slice in it. */
  lemma OddMaxEmptyBand(b: Board)
    requires b.Valid() && b.rows == 4 && b.max == 3
    ensures BandCount(b) == 4
    ensures BandStart(b, 3) == BandStop(b, 3) == 4
    ensures CutResult(b, 1, BandStart(b, 3), BandStop(b, 3)) == []
  {
  }

  // ---------------------------------------------------------------------------
  // The choice of height per band

  /** `(best_slice_count, best_slices)` after heights 1..n were tried in rows start..stop-1;
      a height replaces the best only with strictly more slices. */
  function BandBest(b: Board, start: nat, stop: nat, n: nat): (nat, Option<seq<Slice>>)
    requires b.Valid() && b.max >= 2 && n <= b.max / 2 && stop <= b.rows
  {
    if n == 0 then (0, None)
    else
      var (count, best) := BandBest(b, start, stop, n - 1);
      var c := CutResult(b, n, start, stop);
      if |c| > count then (|c|, Some(c)) else (count, best)
  }

  /** The height loop of best_cut keeps the first height whose cut has the most slices; it
      keeps none exactly when every height yields no slice, and then the count stays 0. */
  lemma {:induction false} BandBestIsFirstMaximum(b: Board, start: nat, stop: nat, n: nat)
    requires b.Valid() && b.max >= 2 && n <= b.max / 2 && stop <= b.rows
    ensures var r := BandBest(b, start, stop, n);
      && (r.1.None? <==> forall k :: 1 <= k <= n ==> CutResult(b, k, start, stop) == [])
      && (r.1.None? ==> r.0 == 0)
      && (r.1.Some? ==> r.0 == |r.1.value| > 0)
      && (r.1.Some? ==> exists k :: 1 <= k <= n && r.1.value == CutResult(b, k, start, stop)
                                    && forall k' :: 1 <= k' < k ==> |CutResult(b, k', start, stop)| < r.0)
      && (forall k :: 1 <= k <= n ==> |CutResult(b, k, start, stop)| <= r.0)
  {
    if n > 0 {
      BandBestIsFirstMaximum(b, start, stop, n - 1);
      var r := BandBest(b, start, stop, n);
      var prev := BandBest(b, start, stop, n - 1);
      var c := CutResult(b, n, start, stop);
      if |c| > prev.0 {
        assert r.1.value == CutResult(b, n, start, stop);
      } else if prev.1.Some? {
        var k :| 1 <= k <= n - 1 && prev.1.value == CutResult(b, k, start, stop)
                 && forall k' :: 1 <= k' < k ==> |CutResult(b, k', start, stop)| < prev.0;
        assert r.1.value == CutResult(b, k, start, stop);
      }
    }
  }

  /** best_slices of band `l` once every height was tried; None where the source's
      `best.concat best_slices` raises. */
  function BandWinner(b: Board, l: nat): Option<seq<Slice>>
    requires b.Valid() && b.max >= 2
  {
    BandBest(b, BandStart(b, l), BandStop(b, l), b.max / 2).1
  }

  /** The winners of bands 0..n-1, concatenated; None once a band has no winner. */
  function Bands(b: Board, n: nat): Option<seq<Slice>>
    requires b.Valid() && b.max >= 2
  {
    if n == 0 then Some([])
    else match Bands(b, n - 1)
      case None => None
      case Some(acc) =>
        match BandWinner(b, n - 1)
        case None => None
        case Some(w) => Some(acc + w)
  }

  /** best_cut succeeds exactly when every band has a winner. */
  lemma {:induction false} BandsSucceed(b: Board, n: nat)
    requires b.Valid() && b.max >= 2
    ensures Bands(b, n).Some? <==> forall l :: 0 <= l < n ==> BandWinner(b, l).Some?
  {
    if n > 0 {
      BandsSucceed(b, n - 1);
    }
  }

  /** The slices of a band's winner: those of `cut` for some height. */
  lemma WinnerSlices(b: Board, l: nat)
    requires b.Valid() && b.max >= 2 && BandWinner(b, l).Some?
    ensures forall s :: s in BandWinner(b, l).value ==>
              Inside(b, s) && BandStart(b, l) <= s.r1 && s.r2 < BandStop(b, l)
              && Hams(b, s) >= b.hams && Area(s) <= b.max
    ensures Ordered(BandWinner(b, l).value)
  {
    var start, stop := BandStart(b, l), BandStop(b, l);
    BandBestIsFirstMaximum(b, start, stop, b.max / 2);
    var k :| 1 <= k <= b.max / 2 && BandWinner(b, l).value == CutResult(b, k, start, stop);
    CutSlices(b, k, start, stop);
  }

  /** Every slice best_cut keeps lies inside the pizza, holds at least `hams` ham cells and
      has area at most `max`; the slices come in row-major order, so no two share a cell. */
  lemma {:induction false} BandsSlices(b: Board, n: nat)
    requires b.Valid() && b.max >= 2 && Bands(b, n).Some?
    ensures forall s :: s in Bands(b, n).value ==>
              Inside(b, s) && Hams(b, s) >= b.hams && Area(s) <= b.max
    ensures n > 0 ==> forall s :: s in Bands(b, n).value ==> s.r2 < BandStop(b, n - 1)
    ensures Ordered(Bands(b, n).value)
    ensures forall p, q :: 0 <= p < q < |Bands(b, n).value| ==>
              Disjoint(Bands(b, n).value[p], Bands(b, n).value[q])
  {
    if n > 0 {
      BandsSlices(b, n - 1);
      var acc := Bands(b, n - 1).value;
      var w := BandWinner(b, n - 1).value;
      WinnerSlices(b, n - 1);
      if n > 1 {
        BandsDisjoint(b, n - 2, n - 1);
      }
      OrderedConcat(acc, w);
    }
    var ss := Bands(b, n).value;
    forall p, q | 0 <= p < q < |ss| ensures Disjoint(ss[p], ss[q]) {
      PrecedesDisjoint(ss[p], ss[q]);
    }
  }

  // ---------------------------------------------------------------------------
  // The pizza object

  class Pizza {
    const rows: nat
    const cols: nat
    const hams: nat
    const max: nat
    const matrix: seq<seq<bool>>
    var slices: seq<Slice>

    function AsBoard(): Board {
      Board(rows, cols, hams, max, matrix)
    }

    predicate Valid() {
      AsBoard().Valid()
    }

    constructor (rows: nat, cols: nat, hams: nat, max: nat, matrix: seq<seq<bool>>)
      ensures this.rows == rows && this.cols == cols && this.hams == hams && this.max == max
      ensures this.matrix == matrix && slices == []
    {
      this.rows, this.cols, this.hams, this.max := rows, cols, hams, max;
      this.matrix := matrix;
      slices := [];
    }

    /** slice_count */
    function SliceCount(): nat
      reads this
    {
      |slices|
    }

    /** nb_hams: visit the rows and columns of the slice and count the ham cells. */
    method NbHams(s: Slice) returns (nb: nat)
      requires Valid() && Inside(AsBoard(), s)
      ensures nb == Hams(AsBoard(), s)
    {
      nb := 0;
      var i := s.r1;
      while i <= s.r2
        invariant s.r1 <= i && (i <= s.r2 + 1 || i == s.r1)
        invariant nb == if i == s.r1 then 0 else Hams(AsBoard(), s.(r2 := i - 1))
      {
        var j := s.c1;
        while j <= s.c2
          invariant s.c1 <= j && (j <= s.c2 + 1 || j == s.c1)
          invariant nb == (if i == s.r1 then 0 else Hams(AsBoard(), s.(r2 := i - 1)))
                          + (if j == s.c1 then 0 else RowHams(matrix[i], s.c1, j - 1))
        {
          if matrix[i][j] {
            nb := nb + 1;
          }
          j := j + 1;
        }
        assert Hams(AsBoard(), s.(r2 := i)) == (if i == s.r1 then 0 else Hams(AsBoard(), s.(r2 := i - 1)))
                                            + RowHams(matrix[i], s.c1, s.c2);
        i := i + 1;
      }
      assert s.r1 <= s.r2 ==> s.(r2 := i - 1) == s;
    }

    /** cut: reset `slices`, then scan bands of `k` rows from `startRow` while they end by
        `maxRows`, and in each band the columns from the left, recording every candidate
        slice that holds enough ham and moving past it, or moving one column on. */
    method Cut(k: nat, startRow: nat, maxRows: nat)
      requires Valid() && k >= 1 && maxRows <= rows && (k <= max || hams > 0)
      modifies this`slices
      ensures slices == CutResult(AsBoard(), k, startRow, maxRows)
    {
      slices := [];
      if k <= max {
        DivAtLeastOne(max, k);
      }
      var l := max / k;
      CutBands(startRow, k, l, maxRows);
    }

    /** The loop of cut over the bands i, i+k, ... with slices `l` columns wide (`l` is
        `max / k`, the same in every band). */
    method CutBands(startRow: nat, k: nat, l: nat, maxRows: nat)
      requires Valid() && k >= 1 && maxRows <= rows && (l >= 1 || hams > 0)
      modifies this`slices
      ensures slices == old(slices) + CutRows(AsBoard(), startRow, k, l, maxRows)
    {
      ghost var b := AsBoard();
      var i := startRow;
      while i + k <= maxRows
        invariant slices + CutRows(b, i, k, l, maxRows) == old(slices) + CutRows(b, startRow, k, l, maxRows)
        decreases maxRows - i
      {
        ghost var before := slices;
        CutBand(i, k, l, maxRows);
        assert slices + CutRows(b, i + k, k, l, maxRows) == before + CutRows(b, i, k, l, maxRows);
        i := i + k;
      }
    }

    /** One band of cut: the columns of rows i..i+k-1, left to right. */
    method CutBand(i: nat, k: nat, l: nat, maxRows: nat)
      requires Valid() && k >= 1 && i + k <= maxRows <= rows && (l >= 1 || hams > 0)
      modifies this`slices
      ensures slices == old(slices) + CutRow(AsBoard(), i, k, l, 0)
    {
      ghost var b := AsBoard();
      var j := 0;
      while j + l <= cols
        invariant slices + CutRow(b, i, k, l, j) == old(slices) + CutRow(b, i, k, l, 0)
        decreases cols + 1 - j
      {
        var slice := Slice(i, j, i + k - 1, j + l - 1);
        var nb := NbHams(slice);
        if nb >= hams {
          if l == 0 {
            NoColumnsNoHams(b, slice);
          }
          assert CutRow(b, i, k, l, j) == [slice] + CutRow(b, i, k, l, j + l);
          slices := slices + [slice];
          j := j + l;
        } else {
          j := j + 1;
        }
      }
    }

    /** best_cut: for each band, try every height 1..max/2 and keep the first with the most
        slices; concatenate the winners. `ok` is false where the source raises, because a
        band had no winner; `slices` is then what the last `cut` of that band left. */
    method BestCut() returns (ok: bool)
      requires Valid() && max >= 2
      modifies this`slices
      ensures ok <==> Bands(AsBoard(), BandCount(AsBoard())).Some?
      ensures ok ==> slices == Bands(AsBoard(), BandCount(AsBoard())).value
      ensures !ok ==> exists l :: 0 <= l < BandCount(AsBoard()) && BandWinner(AsBoard(), l).None?
                        && slices == CutResult(AsBoard(), max / 2, BandStart(AsBoard(), l), BandStop(AsBoard(), l))
    {
      ghost var b := AsBoard();
      var best: seq<Slice> := [];
      var l := 0;
      var n := rows / (max / 2);
      assert n == BandCount(b);
      while l < n
        invariant 0 <= l <= n
        invariant Bands(b, l) == Some(best)
      {
        var startRow, stopRow := BandRows(l);
        var bestSliceCount, bestSlices := TryHeights(startRow, stopRow);
        assert bestSlices == BandWinner(b, l);
        if bestSlices.None? {
          BandsSucceed(b, n);
          assert !Bands(b, n).Some?;
          return false;
        }
        best := best + bestSlices.value;
        l := l + 1;
      }
      slices := best;
      return true;
    }

    /** The rows of band `l`: start_row and stop_row of best_cut. */
    method BandRows(l: nat) returns (startRow: nat, stopRow: nat)
      ensures startRow == BandStart(AsBoard(), l) && stopRow == BandStop(AsBoard(), l)
    {
      startRow := l * max / 2;
      stopRow := startRow + max / 2;
      if stopRow > rows {
        stopRow := rows;
      }
    }

    /** The inner loop of best_cut: cut rows startRow..stopRow-1 at every height
        1..max/2, remembering the first height with the most slices. */
    method TryHeights(startRow: nat, stopRow: nat) returns (bestSliceCount: nat, bestSlices: Option<seq<Slice>>)
      requires Valid() && max >= 2 && stopRow <= rows
      modifies this`slices
      ensures (bestSliceCount, bestSlices) == BandBest(AsBoard(), startRow, stopRow, max / 2)
      ensures slices == CutResult(AsBoard(), max / 2, startRow, stopRow)
    {
      bestSliceCount := 0;
      bestSlices := None;
      var k := 0;
      while k < max / 2
        invariant 0 <= k <= max / 2
        invariant (bestSliceCount, bestSlices) == BandBest(AsBoard(), startRow, stopRow, k)
        invariant k > 0 ==> slices == CutResult(AsBoard(), k, startRow, stopRow)
      {
        Cut(k + 1, startRow, stopRow);
        if SliceCount() > bestSliceCount {
          bestSliceCount := SliceCount();
          bestSlices := Some(slices);
        }
        k := k + 1;
      }
    }
  }
}
