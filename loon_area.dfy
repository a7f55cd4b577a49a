/**
 * The balloon router's area: a grid of `rows` by `cols` cells whose columns wrap around,
 * `alts` altitudes each with a wind vector per cell, and the targets on the ground. A
 * balloon covers the targets within `radius` of it; `compute_mask` lists the covered
 * offsets and `compute_scores` counts, for every cell, the targets a balloon there covers.
 */
module LoonArea {

  /** A (row, column) displacement: a mask entry or a wind vector. */
  datatype Offset = Offset(dr: int, dc: int)

  /** The class-level state of `Area` (and `Ball.radius`), as one immutable record:
      `targets[r][c]` counts the targets on cell (r, c), `winds[a][r][c]` is the wind at
      altitude a over (r, c), and `masks`, `scores` are what compute_mask and
      compute_scores stored. */
  datatype Area = Area(rows: nat, cols: nat, alts: nat, radius: nat,
                       targets: seq<seq<int>>, winds: seq<seq<seq<Offset>>>,
                       masks: seq<Offset>, scores: seq<seq<int>>)
  {
    predicate TargetsShaped() {
      |targets| == rows && forall i :: 0 <= i < rows ==> |targets[i]| == cols
    }

    predicate ScoresShaped() {
      |scores| == rows && forall i :: 0 <= i < rows ==> |scores[i]| == cols
    }

    predicate WindsShaped() {
      && |winds| == alts
      && (forall a :: 0 <= a < alts ==> |winds[a]| == rows)
      && (forall a, r :: 0 <= a < alts && 0 <= r < rows ==> |winds[a][r]| == cols)
    }

    /** What the balloon simulation needs: a non-empty grid, at least one altitude, and
        winds and scores for every cell. */
    predicate Valid() {
      rows >= 1 && cols >= 1 && alts >= 1 && WindsShaped() && ScoresShaped()
    }
  }

  function Abs(n: int): nat { if n < 0 then -n else n }

  // ---------------------------------------------------------------------------
  // compute_mask

  /** The four sign reflections of (x, y), in the order compute_mask appends them. */
  function Quad(x: int, y: int): seq<Offset> {
    [Offset(x, y), Offset(-x, y), Offset(-x, -y), Offset(x, -y)]
  }

  /** `x**2 + y**2 < radius**2`: (x, y) lies strictly inside the circle of the radius. */
  predicate InCircle(radius: nat, x: int, y: int) {
    x * x + y * y < radius * radius
  }

  /** The entries compute_mask appends for column offsets y..radius of row offset x. */
  function MaskRow(radius: nat, x: nat, y: nat): seq<Offset>
    decreases radius + 1 - y
  {
    if y > radius then []
    else (if InCircle(radius, x, y) then Quad(x, y) else []) + MaskRow(radius, x, y + 1)
  }

  /** The entries compute_mask appends for row offsets x..radius. */
  function MaskFrom(radius: nat, x: nat): seq<Offset>
    decreases radius + 1 - x
  {
    if x > radius then [] else MaskRow(radius, x, 1) + MaskFrom(radius, x + 1)
  }

  /** The mask compute_mask builds: the origin, then the reflections row by row. */
  function Mask(radius: nat): seq<Offset> {
    [Offset(0, 0)] + MaskFrom(radius, 1)
  }

  /** compute_mask: the origin, then for x, y in 1..radius with x^2 + y^2 < radius^2 the
      four reflections of (x, y). */
  method ComputeMask(radius: nat) returns (masks: seq<Offset>)
    ensures masks == Mask(radius)
  {
    var r2 := radius * radius;
    masks := [];
    masks := masks + [Offset(0, 0)];
    var x := 1;
    while x <= radius
      invariant 1 <= x <= radius + 1
      invariant masks + MaskFrom(radius, x) == Mask(radius)
    {
      ghost var before := masks;
      masks := AppendReflections(masks, radius, r2, x);
      assert masks + MaskFrom(radius, x + 1) == before + MaskFrom(radius, x);
      x := x + 1;
    }
  }

  /** The inner loop of compute_mask, for row offset x. */
  method AppendReflections(masks: seq<Offset>, radius: nat, r2: nat, x: nat) returns (out: seq<Offset>)
    requires r2 == radius * radius
    ensures out == masks + MaskRow(radius, x, 1)
  {
    out := masks;
    var y := 1;
    while y <= radius
      invariant 1 <= y <= radius + 1
      invariant out + MaskRow(radius, x, y) == masks + MaskRow(radius, x, 1)
    {
      ghost var before := out;
      if x * x + y * y < r2 {
        out := out + Quad(x, y);
      }
      assert out + MaskRow(radius, x, y + 1) == before + MaskRow(radius, x, y);
      y := y + 1;
    }
  }

  /** The offsets a balloon covers: its own cell, and every offset off both axes strictly
      inside the circle of the radius. */
  predicate Covered(radius: nat, p: Offset) {
    || p == Offset(0, 0)
    || (&& 1 <= Abs(p.dr) <= radius && 1 <= Abs(p.dc) <= radius
        && InCircle(radius, Abs(p.dr), Abs(p.dc)))
  }

  predicate Distinct(s: seq<Offset>) {
    forall i, j :: 0 <= i < j < |s| ==> s[i] != s[j]
  }

  lemma DistinctConcat(x: seq<Offset>, y: seq<Offset>)
    requires Distinct(x) && Distinct(y)
    requires forall p :: p in x ==> p !in y
    ensures Distinct(x + y)
  {
    forall i, j | 0 <= i < j < |x + y| ensures (x + y)[i] != (x + y)[j] {
      if j < |x| {
        assert (x + y)[i] == x[i] && (x + y)[j] == x[j];
      } else if i < |x| {
        assert (x + y)[i] in x && (x + y)[j] in y;
      } else {
        assert (x + y)[i] == y[i - |x|] && (x + y)[j] == y[j - |x|];
      }
    }
  }

  lemma {:induction false} MaskRowMembers(radius: nat, x: nat, y: nat)
    requires x >= 1 && y >= 1
    ensures forall p :: p in MaskRow(radius, x, y) <==>
              Abs(p.dr) == x && y <= Abs(p.dc) <= radius && InCircle(radius, x, Abs(p.dc))
    ensures Distinct(MaskRow(radius, x, y))
    decreases radius + 1 - y
  {
    if y <= radius {
      MaskRowMembers(radius, x, y + 1);
      var head := if InCircle(radius, x, y) then Quad(x, y) else [];
      forall p | p in head ensures Abs(p.dr) == x && Abs(p.dc) == y {
      }
      DistinctConcat(head, MaskRow(radius, x, y + 1));
      forall p: Offset | Abs(p.dr) == x && Abs(p.dc) == y && InCircle(radius, x, y)
        ensures p in head
      {
        assert p in Quad(x, y);
      }
    }
  }

  lemma {:induction false} MaskFromMembers(radius: nat, x: nat)
    requires x >= 1
    ensures forall p :: p in MaskFrom(radius, x) <==>
              x <= Abs(p.dr) <= radius && 1 <= Abs(p.dc) <= radius && InCircle(radius, Abs(p.dr), Abs(p.dc))
    ensures Distinct(MaskFrom(radius, x))
    decreases radius + 1 - x
  {
    if x <= radius {
      MaskRowMembers(radius, x, 1);
      MaskFromMembers(radius, x + 1);
      DistinctConcat(MaskRow(radius, x, 1), MaskFrom(radius, x + 1));
    }
  }

  /** The mask starts at the origin, holds exactly the covered offsets, and holds each once;
      since coverage depends only on |x| and |y|, negating either coordinate of an entry
      gives an entry. */
  lemma MaskIsCoverage(radius: nat)
    ensures Mask(radius)[0] == Offset(0, 0)
    ensures forall p :: p in Mask(radius) <==> Covered(radius, p)
    ensures Distinct(Mask(radius))
    ensures forall p :: p in Mask(radius) ==>
              Offset(-p.dr, p.dc) in Mask(radius) && Offset(p.dr, -p.dc) in Mask(radius)
  {
    MaskFromMembers(radius, 1);
    DistinctConcat([Offset(0, 0)], MaskFrom(radius, 1));
    forall p | p in Mask(radius)
      ensures Offset(-p.dr, p.dc) in Mask(radius) && Offset(p.dr, -p.dc) in Mask(radius)
    {
      assert Covered(radius, Offset(-p.dr, p.dc)) && Covered(radius, Offset(p.dr, -p.dc));
    }
  }

  // ---------------------------------------------------------------------------
  // score_at and compute_scores

  /** What one mask entry adds to score_at(x, y): the targets on the cell it reaches, with
      the column wrapped, or nothing when the row is off the grid. */
  function Contribution(area: Area, x: int, y: int, m: Offset): int
    requires area.TargetsShaped() && area.cols >= 1
  {
    var r := x + m.dr;
    var c := (y + m.dc) % area.cols;
    if 0 <= r < area.rows then area.targets[r][c] else 0
  }

  /** The `inject` fold of score_at over the mask entries `ms`. */
  function MaskSum(area: Area, ms: seq<Offset>, x: int, y: int): int
    requires area.TargetsShaped() && area.cols >= 1
  {
    if |ms| == 0 then 0 else MaskSum(area, ms[..|ms| - 1], x, y) + Contribution(area, x, y, ms[|ms| - 1])
  }

  /** score_at(x, y) */
  function ScoreAt(area: Area, x: int, y: int): int
    requires area.TargetsShaped() && area.cols >= 1
  {
    MaskSum(area, area.masks, x, y)
  }

  /** compute_scores: score_at for every cell, row by row. */
  function Scores(area: Area): (s: seq<seq<int>>)
    requires area.TargetsShaped() && area.cols >= 1
    ensures |s| == area.rows && forall i :: 0 <= i < area.rows ==> |s[i]| == area.cols
  {
    seq(area.rows, i requires 0 <= i < area.rows =>
      seq(area.cols, j requires 0 <= j < area.cols => ScoreAt(area, i, j)))
  }

  lemma {:induction false} MaskSumBounds(area: Area, ms: seq<Offset>, x: int, y: int, t: int)
    requires area.TargetsShaped() && area.cols >= 1 && t >= 0
    requires forall i, j :: 0 <= i < area.rows && 0 <= j < area.cols ==> 0 <= area.targets[i][j] <= t
    ensures 0 <= MaskSum(area, ms, x, y) <= |ms| * t
  {
    if |ms| > 0 {
      MaskSumBounds(area, ms[..|ms| - 1], x, y, t);
      assert (|ms| - 1) * t + t == |ms| * t;
    }
  }

  /** With between 0 and t targets per cell, every score is between 0 and t per mask entry;
      in particular all-zero targets give all-zero scores. */
  lemma ScoresBounds(area: Area, t: int)
    requires area.TargetsShaped() && area.cols >= 1 && t >= 0
    requires forall i, j :: 0 <= i < area.rows && 0 <= j < area.cols ==> 0 <= area.targets[i][j] <= t
    ensures forall i, j :: 0 <= i < area.rows && 0 <= j < area.cols ==>
              0 <= Scores(area)[i][j] <= |area.masks| * t
  {
    forall i, j | 0 <= i < area.rows && 0 <= j < area.cols
      ensures 0 <= Scores(area)[i][j] <= |area.masks| * t
    {
      MaskSumBounds(area, area.masks, i, j, t);
    }
  }

  lemma {:induction false} MaskSumWraps(area: Area, ms: seq<Offset>, x: int, y: int)
    requires area.TargetsShaped() && area.cols >= 1
    ensures MaskSum(area, ms, x, y + area.cols) == MaskSum(area, ms, x, y)
  {
    if |ms| > 0 {
      MaskSumWraps(area, ms[..|ms| - 1], x, y);
      var m := ms[|ms| - 1];
      ModPeriod(y + m.dc, area.cols);
      assert y + area.cols + m.dc == (y + m.dc) + area.cols;
    }
  }

  lemma ModPeriod(a: int, n: nat)
    requires n >= 1
    ensures (a + n) % n == a % n
  {
    var q, r := a / n, a % n;
    assert a == n * q + r && 0 <= r < n;
    assert a + n == n * (q + 1) + r;
    ModUnique(a + n, n, q + 1, r);
  }

  lemma ModUnique(a: int, n: nat, q: int, r: int)
    requires n >= 1 && a == n * q + r && 0 <= r < n
    ensures a % n == r
  {
    var q', r' := a / n, a % n;
    assert a == n * q' + r' && 0 <= r' < n;
    assert n * (q - q') == r' - r;
    if q - q' >= 1 {
      MulLeft(n, 1, q - q');
    } else if q' - q >= 1 {
      MulLeft(n, 1, q' - q);
    }
  }

  /** The columns wrap: a cell's score is also the score one full turn of columns away. */
  lemma ScoreAtWraps(area: Area, x: int, y: int)
    requires area.TargetsShaped() && area.cols >= 1
    ensures ScoreAt(area, x, y + area.cols) == ScoreAt(area, x, y)
  {
    MaskSumWraps(area, area.masks, x, y);
  }

  // ---------------------------------------------------------------------------
  // mean_score

  /** `x.max` over the first n entries of a row. */
  function RowMax(row: seq<int>, n: nat): int
    requires 1 <= n <= |row|
  {
    if n == 1 then row[0]
    else if RowMax(row, n - 1) >= row[n - 1] then RowMax(row, n - 1)
    else row[n - 1]
  }

  /** The sum of the maxima of the first n rows. */
  function SumOfMaxima(grid: seq<seq<int>>, n: nat): int
    requires n <= |grid| && forall i :: 0 <= i < |grid| ==> |grid[i]| >= 1
  {
    if n == 0 then 0 else SumOfMaxima(grid, n - 1) + RowMax(grid[n - 1], |grid[n - 1]|)
  }

  /** mean_score: the row maxima of the scores summed, then floor-divided by the number of
      rows (Ruby's `/`, which agrees with Dafny's for a positive divisor). */
  function MeanScore(area: Area): int
    requires area.Valid()
  {
    SumOfMaxima(area.scores, area.rows) / area.rows
  }

  /** `x.max` is an entry of the row, no entry exceeds it, and so it lies within any bounds
      of the entries. */
  lemma {:induction false} RowMaxBounds(row: seq<int>, n: nat, lo: int, hi: int)
    requires 1 <= n <= |row|
    requires forall j :: 0 <= j < n ==> lo <= row[j] <= hi
    ensures lo <= RowMax(row, n) <= hi
    ensures exists j :: 0 <= j < n && RowMax(row, n) == row[j]
    ensures forall j :: 0 <= j < n ==> row[j] <= RowMax(row, n)
  {
    if n > 1 {
      RowMaxBounds(row, n - 1, lo, hi);
    }
  }

  lemma {:induction false} SumOfMaximaBounds(grid: seq<seq<int>>, n: nat, lo: int, hi: int)
    requires n <= |grid| && forall i :: 0 <= i < |grid| ==> |grid[i]| >= 1
    requires forall i, j :: 0 <= i < n && 0 <= j < |grid[i]| ==> lo <= grid[i][j] <= hi
    ensures n * lo <= SumOfMaxima(grid, n) <= n * hi
  {
    if n > 0 {
      SumOfMaximaBounds(grid, n - 1, lo, hi);
      RowMaxBounds(grid[n - 1], |grid[n - 1]|, lo, hi);
      MulSucc(n - 1, lo);
      MulSucc(n - 1, hi);
    }
  }

  lemma MulSucc(n: int, a: int)
    ensures (n + 1) * a == n * a + a
  {
  }

  lemma DivBetween(s: int, n: nat, lo: int, hi: int)
    requires n >= 1 && n * lo <= s <= n * hi
    ensures lo <= s / n <= hi
  {
    var q := s / n;
    assert s == n * q + s % n && 0 <= s % n < n;
    MulSucc(q, n);
    MulCancel(n, lo, q + 1);
    MulCancel(n, q, hi + 1);
  }

  /** n * a < n * b implies a < b for a positive n. */
  lemma MulCancel(n: nat, a: int, b: int)
    requires n >= 1 && n * a < n * b
    ensures a < b
  {
    if b <= a {
      MulLeft(n, b, a);
    }
  }

  lemma MulLeft(n: nat, a: int, b: int)
    requires a <= b
    ensures n * a <= n * b
  {
    assert n * b - n * a == n * (b - a);
  }

  /** The mean of the row maxima lies within the range of the scores. */
  lemma MeanScoreBounds(area: Area, lo: int, hi: int)
    requires area.Valid()
    requires forall i, j :: 0 <= i < area.rows && 0 <= j < area.cols ==> lo <= area.scores[i][j] <= hi
    ensures lo <= MeanScore(area) <= hi
  {
    SumOfMaximaBounds(area.scores, area.rows, lo, hi);
    DivBetween(SumOfMaxima(area.scores, area.rows), area.rows, lo, hi);
  }
}
