/**
  Server placement (data_center.rb): servers of a given size and value are
  placed first-fit into rows of slots, then spread over groups so that the
  guaranteed capacity of the weakest group, should any single row fail, is
  as large as the greedy choice makes it.
 */
module DataCenter {
  import opened Optional
  import opened Sorting

  /** A slot of a row: free (`nil`), unavailable (`:x`) or holding a server's index. */
  datatype Cell = Empty | Unavailable | Taken(server: nat)

  datatype Server = Server(index: nat, size: nat, value: int,
                           row: Option<nat>, col: Option<nat>, group: Option<nat>)
  {
    /** `s.row && s.col`: both coordinates were set by a placement. */
    predicate Placed() { row.Some? && col.Some? }
  }

  datatype Group = Group(index: nat, capacity: int, servers: seq<Server>)

  /** Where a first-fit search succeeded: position `at` in the row order, row `row`, offset `col`. */
  datatype Slot = Slot(at: nat, row: nat, col: nat)

  // ---------------------------------------------------------------------------
  // Counting free slots

  function CountEmpty(s: seq<Cell>): (n: nat)
    ensures n <= |s|
  {
    if s == [] then 0 else CountEmpty(s[..|s| - 1]) + (if s[|s| - 1] == Empty then 1 else 0)
  }

  lemma {:induction false} CountEmptyAllEmpty(n: nat)
    ensures CountEmpty(seq(n, _ => Empty)) == n
  {
    if n > 0 {
      assert seq(n, _ => Empty)[..n - 1] == seq(n - 1, _ => Empty);
      CountEmptyAllEmpty(n - 1);
    }
  }

  /** Turning one free slot into anything else removes exactly one free slot. */
  lemma {:induction false} CountEmptyUpdate(s: seq<Cell>, j: nat, v: Cell)
    requires j < |s| && s[j] == Empty && v != Empty
    ensures CountEmpty(s[j := v]) == CountEmpty(s) - 1
  {
    var n := |s|;
    if j < n - 1 {
      assert s[j := v][..n - 1] == s[..n - 1][j := v];
      CountEmptyUpdate(s[..n - 1], j, v);
    } else {
      assert s[j := v][..n - 1] == s[..n - 1];
    }
  }

  /** The row `s` after slots `c .. c+n-1` were given the value `v`. */
  function Claimed(s: seq<Cell>, c: nat, n: nat, v: Cell): (t: seq<Cell>)
    ensures |t| == |s|
  {
    seq(|s|, x requires 0 <= x < |s| => if c <= x < c + n then v else s[x])
  }

  /** Claiming `n` free slots removes exactly `n` free slots. */
  lemma {:induction false} CountEmptyClaimed(s: seq<Cell>, c: nat, n: nat, v: Cell)
    requires c + n <= |s| && v != Empty
    requires forall x :: c <= x < c + n ==> s[x] == Empty
    ensures CountEmpty(Claimed(s, c, n, v)) == CountEmpty(s) - n
  {
    if n == 0 {
      assert Claimed(s, c, 0, v) == s;
    } else {
      CountEmptyClaimed(s, c, n - 1, v);
      assert Claimed(s, c, n, v) == Claimed(s, c, n - 1, v)[c + n - 1 := v];
      CountEmptyUpdate(Claimed(s, c, n - 1, v), c + n - 1, v);
    }
  }

  /** Each row's counter equals the number of free slots of that row. */
  predicate Counted(grid: seq<seq<Cell>>, free: seq<int>) {
    |grid| == |free| && forall r :: 0 <= r < |grid| ==> free[r] == CountEmpty(grid[r])
  }

  /** Claiming `n` free slots of row `r` and lowering its counter by `n` keeps the counters exact. */
  lemma CountedAfterClaim(grid: seq<seq<Cell>>, free: seq<int>, r: nat, c: nat, n: nat, v: Cell)
    requires Counted(grid, free) && r < |grid| && c + n <= |grid[r]| && v != Empty
    requires forall x :: c <= x < c + n ==> grid[r][x] == Empty
    ensures Counted(grid[r := Claimed(grid[r], c, n, v)], free[r := free[r] - n])
  {
    CountEmptyClaimed(grid[r], c, n, v);
  }

  // ---------------------------------------------------------------------------
  // First-fit search (place_server), on a snapshot of the grid

  /** Slots `c .. c+size-1` of the row are all free. */
  predicate FitsAt(row: seq<Cell>, c: nat, size: nat)
    requires c + size <= |row|
  {
    forall x :: c <= x < c + size ==> row[x] == Empty
  }

  /** The smallest offset `>= i` at which `size` consecutive free slots start. */
  function FirstOffset(row: seq<Cell>, size: nat, i: nat): (r: Option<nat>)
    ensures r.Some? ==> i <= r.value && r.value + size <= |row| && FitsAt(row, r.value, size)
    ensures r.Some? ==> forall c: nat :: i <= c < r.value ==> !FitsAt(row, c, size)
    ensures r.None? ==> forall c: nat :: i <= c && c + size <= |row| ==> !FitsAt(row, c, size)
    decreases |row| - i
  {
    if i + size > |row| then None
    else if FitsAt(row, i, size) then Some(i)
    else FirstOffset(row, size, i + 1)
  }

  /** The first slot, trying the rows `order[p..]` in turn and in each row the smallest offset. */
  function FirstFit(grid: seq<seq<Cell>>, order: seq<nat>, size: nat, p: nat): (r: Option<Slot>)
    requires forall q :: 0 <= q < |order| ==> order[q] < |grid|
    ensures r.Some? ==> p <= r.value.at < |order| && r.value.row == order[r.value.at]
    ensures r.Some? ==> r.value.col + size <= |grid[r.value.row]|
                        && FitsAt(grid[r.value.row], r.value.col, size)
    ensures r.Some? ==> forall c: nat :: c < r.value.col ==> !FitsAt(grid[r.value.row], c, size)
    ensures r.Some? ==> forall q: nat, c: nat :: p <= q < r.value.at && c + size <= |grid[order[q]]|
                          ==> !FitsAt(grid[order[q]], c, size)
    ensures r.None? ==> forall q: nat, c: nat :: p <= q < |order| && c + size <= |grid[order[q]]|
                          ==> !FitsAt(grid[order[q]], c, size)
    decreases |order| - p
  {
    if p >= |order| then None
    else match FirstOffset(grid[order[p]], size, 0)
      case Some(c) => Some(Slot(p, order[p], c))
      case None => FirstFit(grid, order, size, p + 1)
  }

  // ---------------------------------------------------------------------------
  // Sort orders

  function Indices(n: nat): (s: seq<nat>)
    ensures |s| == n && forall i :: 0 <= i < n ==> s[i] == i
  {
    seq(n, i requires 0 <= i < n => i)
  }

  function FreeAt(free: seq<int>, r: nat): int {
    if r < |free| then free[r] else 0
  }

  /** `grid.sort_by(&:free)`: the row indices, fewest free slots first. */
  function RowOrder(free: seq<int>): (order: seq<nat>)
    ensures multiset(order) == multiset(Indices(|free|))
    ensures |order| == |free|
    ensures forall q :: 0 <= q < |order| ==> order[q] < |free|
    ensures forall q, q' :: 0 <= q < q' < |order| && q' == q + 1 ==> free[order[q]] <= free[order[q']]
  {
    var le := (x: nat, y: nat) => FreeAt(free, x) <= FreeAt(free, y);
    var order := SortBy<nat>(Indices(|free|), le);
    assert |order| == |multiset(order)| == |multiset(Indices(|free|))| == |free|;
    forall q | 0 <= q < |order| ensures order[q] < |free| {
      assert order[q] in multiset(order);
      assert order[q] in Indices(|free|);
    }
    assert Sorted(order, le);
    order
  }

  /** Key of `servers.sort_by!`: larger value per slot first, then smaller size.
      The float ratio `value / size` is compared by cross-multiplication. */
  predicate ByDensity(a: Server, b: Server) {
    a.value * b.size > b.value * a.size
    || (a.value * b.size == b.value * a.size && a.size <= b.size)
  }

  /** Key of the `sort_by` in distribute_servers: larger value first, then smaller size. */
  predicate ByValue(a: Server, b: Server) {
    a.value > b.value || (a.value == b.value && a.size <= b.size)
  }

  /** With positive sizes, the density order is transitive. */
  lemma DensityTransitive(a: Server, b: Server, c: Server)
    requires a.size > 0 && b.size > 0 && c.size > 0
    requires ByDensity(a, b) && ByDensity(b, c)
    ensures ByDensity(a, c)
  {
    var av, bv, cv := a.value, b.value, c.value;
    var sa, sb, sc := a.size, b.size, c.size;
    // scale av*sb >= bv*sa by sc and bv*sc >= cv*sb by sa, then cancel sb
    MulMono(av * sb, bv * sa, sc);
    MulMono(bv * sc, cv * sb, sa);
    assert (av * sc) * sb == (av * sb) * sc && (cv * sa) * sb == (cv * sb) * sa;
    assert (bv * sa) * sc == (bv * sc) * sa;
    MulCancel(av * sc, cv * sa, sb);
    if av * sc == cv * sa {
      // equal ratios at the ends force equal ratios throughout; the sizes decide
      if av * sb > bv * sa {
        MulStrict(av * sb, bv * sa, sc);
      } else if bv * sc > cv * sb {
        MulStrict(bv * sc, cv * sb, sa);
      }
    }
  }

  lemma {:induction false} MulMono(x: int, y: int, k: nat)
    requires x >= y
    ensures x * k >= y * k
  {
    if k > 0 {
      MulMono(x, y, k - 1);
      assert x * k == x * (k - 1) + x && y * k == y * (k - 1) + y;
    }
  }

  lemma {:induction false} MulStrict(x: int, y: int, k: nat)
    requires x > y && k > 0
    ensures x * k > y * k
  {
    MulMono(x, y, k - 1);
    assert x * k == x * (k - 1) + x && y * k == y * (k - 1) + y;
  }

  lemma MulCancel(x: int, y: int, k: nat)
    requires k > 0 && x * k >= y * k
    ensures x >= y
  {
    if x < y { MulStrict(y, x, k); }
  }

  /** `servers.sort_by! { |s| [-1.0 * s.value / s.size, s.size] }`. */
  function SortServers(servers: seq<Server>): (r: seq<Server>)
    ensures multiset(r) == multiset(servers) && |r| == |servers|
    ensures forall q, q' :: 0 <= q < q' < |r| && q' == q + 1 ==> ByDensity(r[q], r[q'])
  {
    SortBy(servers, ByDensity)
  }

  /** The density order looks only at sizes and values. */
  lemma StrippedKeepsDensity(a: Server, b: Server, a': Server, b': Server)
    requires ByDensity(a, b) && Stripped(a') == Stripped(a) && Stripped(b') == Stripped(b)
    ensures ByDensity(a', b')
  {
  }

  /** With positive sizes, `sort_by!` orders every pair of servers, not only neighbours. */
  lemma SortServersPairwise(servers: seq<Server>)
    requires forall q :: 0 <= q < |servers| ==> servers[q].size > 0
    ensures forall q, q' :: 0 <= q < q' < |servers| ==> ByDensity(SortServers(servers)[q], SortServers(servers)[q'])
  {
    var r := SortServers(servers);
    forall a, b, c | a in r && b in r && c in r && ByDensity(a, b) && ByDensity(b, c) ensures ByDensity(a, c) {
      assert a in multiset(servers) && b in multiset(servers) && c in multiset(servers);
      DensityTransitive(a, b, c);
    }
    forall q, q' | 0 <= q < q' < |r| ensures ByDensity(r[q], r[q']) {
      SortedPairwise(r, ByDensity, q, q');
    }
  }

  /** The positions, in list order, of exactly the servers `placed_servers` selects. */
  function PlacedPositions(servers: seq<Server>): (ps: seq<nat>)
    ensures forall p: nat :: p in ps <==> p < |servers| && servers[p].Placed()
    ensures forall a, b :: 0 <= a < b < |ps| ==> ps[a] < ps[b]
    ensures forall q :: 0 <= q < |ps| ==> ps[q] < |servers|
  {
    if servers == [] then []
    else
      var n := |servers| - 1;
      var pre := PlacedPositions(servers[..n]);
      assert forall p: nat :: p < n ==> servers[..n][p] == servers[p];
      pre + (if servers[n].Placed() then [n] else [])
  }

  /** The order in which distribute_servers visits the placed servers. */
  function DistributionOrder(servers: seq<Server>): (order: seq<nat>)
    ensures forall q :: 0 <= q < |order| ==> order[q] < |servers| && servers[order[q]].Placed()
    ensures forall q, q' :: 0 <= q < q' < |order| && q' == q + 1 ==> ByValue(servers[order[q]], servers[order[q']])
  {
    var le := (p: nat, q: nat) => p >= |servers| || q >= |servers| || ByValue(servers[p], servers[q]);
    var order := SortBy<nat>(PlacedPositions(servers), le);
    assert Sorted(order, le);
    forall q | 0 <= q < |order| ensures order[q] < |servers| && servers[order[q]].Placed() {
      assert order[q] in multiset(order);
    }
    order
  }

  /** distribute_servers visits the placed servers in non-increasing value, every pair of them
      and not only neighbours, with ties by size ascending. */
  lemma {:induction false} DistributionOrderPairwise(servers: seq<Server>, q: nat, q': nat)
    requires q < q' < |DistributionOrder(servers)|
    ensures ByValue(servers[DistributionOrder(servers)[q]], servers[DistributionOrder(servers)[q']])
    decreases q' - q
  {
    if q + 1 < q' {
      DistributionOrderPairwise(servers, q, q' - 1);
    }
  }

  /** distribute_servers visits every placed server, and each exactly once. */
  lemma DistributionOrderPermutes(servers: seq<Server>)
    ensures multiset(DistributionOrder(servers)) == multiset(PlacedPositions(servers))
    ensures |DistributionOrder(servers)| == |PlacedPositions(servers)|
    ensures forall p: nat :: p in DistributionOrder(servers) <==> p < |servers| && servers[p].Placed()
  {
    var order := DistributionOrder(servers);
    var placed := PlacedPositions(servers);
    assert |order| == |multiset(order)| == |multiset(placed)| == |placed|;
    forall p: nat ensures p in order <==> p in placed {
      assert p in order <==> p in multiset(order);
      assert p in placed <==> p in multiset(placed);
    }
  }

  // ---------------------------------------------------------------------------
  // Placement, as a fold over the server list

  /** What place_server reads and changes: the grid, the rows' free counters and the servers. */
  datatype Layout = Layout(grid: seq<seq<Cell>>, free: seq<int>, servers: seq<Server>)

  /** A rule that orders the rows by their free counters lists row indices only. The placement
      lemmas hold for every such rule, whatever order it gives rows with equal counters;
      magic uses `RowOrder`. */
  ghost predicate ListsRows(ord: seq<int> -> seq<nat>) {
    forall free: seq<int>, q :: 0 <= q < |ord(free)| ==> ord(free)[q] < |free|
  }

  /** The rule lists every row. */
  ghost predicate ListsEveryRow(ord: seq<int> -> seq<nat>) {
    forall free: seq<int>, r: nat :: r < |free| ==> r in ord(free)
  }

  /** `grid.sort_by(&:free)` lists every row and nothing else. */
  lemma RowOrderListsRows()
    ensures ListsRows(RowOrder) && ListsEveryRow(RowOrder)
  {
    forall free: seq<int>, r: nat | r < |free| ensures r in RowOrder(free) {
      assert Indices(|free|)[r] == r;
      assert r in multiset(Indices(|free|));
    }
  }

  /** place_server for the server at position `k`: the first fit, trying the rows in the order
      `ord` gives them, receives the server and its row's counter drops by the server's size;
      when no row fits, nothing changes. */
  function PlaceOne(l: Layout, k: nat, ord: seq<int> -> seq<nat>): (r: Layout)
    requires |l.free| == |l.grid| && k < |l.servers| && ListsRows(ord)
    ensures |r.grid| == |l.grid| && |r.free| == |l.free| && |r.servers| == |l.servers|
  {
    var s := l.servers[k];
    match FirstFit(l.grid, ord(l.free), s.size, 0)
    case None => l
    case Some(Slot(_, row, c)) =>
      Layout(l.grid[row := Claimed(l.grid[row], c, s.size, Taken(s.index))],
             l.free[row := l.free[row] - s.size],
             l.servers[k := s.(row := Some(row), col := Some(c))])
  }

  /** The placement loop of magic after it visited the servers at positions 0..n-1. */
  function PlaceFold(l: Layout, n: nat, ord: seq<int> -> seq<nat>): (r: Layout)
    requires |l.free| == |l.grid| && n <= |l.servers| && ListsRows(ord)
    ensures |r.grid| == |l.grid| && |r.free| == |l.free| && |r.servers| == |l.servers|
  {
    if n == 0 then l else PlaceOne(PlaceFold(l, n - 1, ord), n - 1, ord)
  }

  /** No row of the grid has `size` consecutive free slots. */
  predicate NoRoom(grid: seq<seq<Cell>>, size: nat) {
    forall r: nat, c: nat :: r < |grid| && c + size <= |grid[r]| ==> !FitsAt(grid[r], c, size)
  }

  /** `g'` is `g` with some free slots filled: every slot of `g` that is not free is unchanged. */
  predicate Fills(g: seq<seq<Cell>>, g': seq<seq<Cell>>) {
    && |g'| == |g|
    && (forall r :: 0 <= r < |g| ==> |g'[r]| == |g[r]|)
    && (forall r, x :: 0 <= r < |g| && 0 <= x < |g[r]| && g[r][x] != Empty ==> g'[r][x] == g[r][x])
  }

  lemma FillsTransitive(g: seq<seq<Cell>>, g': seq<seq<Cell>>, g'': seq<seq<Cell>>)
    requires Fills(g, g') && Fills(g', g'')
    ensures Fills(g, g'')
  {
  }

  /** Filling slots never makes room: a grid without room for `size` keeps none. */
  lemma FillsKeepsNoRoom(g: seq<seq<Cell>>, g': seq<seq<Cell>>, size: nat)
    requires Fills(g, g') && NoRoom(g, size)
    ensures NoRoom(g', size)
  {
    forall r: nat, c: nat | r < |g'| && c + size <= |g'[r]| ensures !FitsAt(g'[r], c, size) {
      if FitsAt(g'[r], c, size) {
        assert FitsAt(g[r], c, size);
      }
    }
  }

  /** The placed server `s` lies inside its row and its slots carry its index. */
  predicate HoldsSlots(grid: seq<seq<Cell>>, s: Server)
    requires s.Placed()
  {
    && s.row.value < |grid| && s.col.value + s.size <= |grid[s.row.value]|
    && forall x :: s.col.value <= x < s.col.value + s.size ==> grid[s.row.value][x] == Taken(s.index)
  }

  /** Every placed server holds its slots. */
  predicate Holds(l: Layout) {
    forall s :: s in l.servers && s.Placed() ==> HoldsSlots(l.grid, s)
  }

  /** place_server finds a slot exactly when some row has room: without room nothing changes,
      and with room the server ends up placed. */
  lemma PlaceOneRoom(l: Layout, k: nat, ord: seq<int> -> seq<nat>)
    requires |l.free| == |l.grid| && k < |l.servers| && ListsRows(ord) && ListsEveryRow(ord)
    ensures NoRoom(l.grid, l.servers[k].size) ==> PlaceOne(l, k, ord) == l
    ensures !NoRoom(l.grid, l.servers[k].size) ==> PlaceOne(l, k, ord).servers[k].Placed()
  {
    var size := l.servers[k].size;
    var order := ord(l.free);
    match FirstFit(l.grid, order, size, 0)
    case None =>
      forall r: nat, c: nat | r < |l.grid| && c + size <= |l.grid[r]| ensures !FitsAt(l.grid[r], c, size) {
        assert r in order;
        var q :| 0 <= q < |order| && order[q] == r;
      }
    case Some(Slot(_, row, c)) =>
  }

  /** place_server fills free slots only, changes no server but the one at `k`, and changes
      only that server's row and column. */
  lemma PlaceOneFrame(l: Layout, k: nat, ord: seq<int> -> seq<nat>)
    requires |l.free| == |l.grid| && k < |l.servers| && ListsRows(ord)
    ensures Fills(l.grid, PlaceOne(l, k, ord).grid)
    ensures forall q :: 0 <= q < |l.servers| && q != k ==> PlaceOne(l, k, ord).servers[q] == l.servers[q]
    ensures PlaceOne(l, k, ord).servers[k]
            == l.servers[k].(row := PlaceOne(l, k, ord).servers[k].row, col := PlaceOne(l, k, ord).servers[k].col)
  {
  }

  /** place_server keeps every row's counter equal to its number of free slots. */
  lemma PlaceOneCounted(l: Layout, k: nat, ord: seq<int> -> seq<nat>)
    requires |l.free| == |l.grid| && k < |l.servers| && ListsRows(ord) && Counted(l.grid, l.free)
    ensures Counted(PlaceOne(l, k, ord).grid, PlaceOne(l, k, ord).free)
  {
    var s := l.servers[k];
    match FirstFit(l.grid, ord(l.free), s.size, 0)
    case None =>
    case Some(Slot(_, row, c)) =>
      CountedAfterClaim(l.grid, l.free, row, c, s.size, Taken(s.index));
  }

  /** place_server keeps every placed server on its slots, and the newly placed one on its own. */
  lemma PlaceOneHolds(l: Layout, k: nat, ord: seq<int> -> seq<nat>)
    requires |l.free| == |l.grid| && k < |l.servers| && ListsRows(ord) && Holds(l)
    ensures Holds(PlaceOne(l, k, ord))
  {
    var s := l.servers[k];
    match FirstFit(l.grid, ord(l.free), s.size, 0)
    case None =>
    case Some(Slot(_, row, c)) =>
      var r := PlaceOne(l, k, ord);
      PlaceOneFrame(l, k, ord);
      forall t | t in r.servers && t.Placed() ensures HoldsSlots(r.grid, t) {
        var q :| 0 <= q < |r.servers| && r.servers[q] == t;
        if q != k {
          assert l.servers[q] == t;
          assert HoldsSlots(l.grid, t);
        }
      }
  }

  /** The placement loop fills free slots only. */
  lemma {:induction false} PlaceFoldFills(l: Layout, n: nat, ord: seq<int> -> seq<nat>)
    requires |l.free| == |l.grid| && n <= |l.servers| && ListsRows(ord)
    ensures Fills(l.grid, PlaceFold(l, n, ord).grid)
  {
    if n > 0 {
      PlaceFoldFills(l, n - 1, ord);
      PlaceOneFrame(PlaceFold(l, n - 1, ord), n - 1, ord);
      FillsTransitive(l.grid, PlaceFold(l, n - 1, ord).grid, PlaceFold(l, n, ord).grid);
    }
  }

  /** The placement loop leaves the servers it has not reached alone, and changes only the
      row and column of those it has. */
  lemma {:induction false} PlaceFoldServers(l: Layout, n: nat, ord: seq<int> -> seq<nat>)
    requires |l.free| == |l.grid| && n <= |l.servers| && ListsRows(ord)
    ensures forall q :: n <= q < |l.servers| ==> PlaceFold(l, n, ord).servers[q] == l.servers[q]
    ensures forall q :: 0 <= q < |l.servers| ==>
              PlaceFold(l, n, ord).servers[q]
              == l.servers[q].(row := PlaceFold(l, n, ord).servers[q].row, col := PlaceFold(l, n, ord).servers[q].col)
  {
    if n > 0 {
      PlaceFoldServers(l, n - 1, ord);
      PlaceOneFrame(PlaceFold(l, n - 1, ord), n - 1, ord);
    }
  }

  /** The placement loop keeps the free counters exact. */
  lemma {:induction false} PlaceFoldCounted(l: Layout, n: nat, ord: seq<int> -> seq<nat>)
    requires |l.free| == |l.grid| && n <= |l.servers| && ListsRows(ord) && Counted(l.grid, l.free)
    ensures Counted(PlaceFold(l, n, ord).grid, PlaceFold(l, n, ord).free)
  {
    if n > 0 {
      PlaceFoldCounted(l, n - 1, ord);
      PlaceOneCounted(PlaceFold(l, n - 1, ord), n - 1, ord);
    }
  }

  /** The placement loop keeps every placed server on its slots. */
  lemma {:induction false} PlaceFoldHolds(l: Layout, n: nat, ord: seq<int> -> seq<nat>)
    requires |l.free| == |l.grid| && n <= |l.servers| && ListsRows(ord) && Holds(l)
    ensures Holds(PlaceFold(l, n, ord))
  {
    if n > 0 {
      PlaceFoldHolds(l, n - 1, ord);
      PlaceOneHolds(PlaceFold(l, n - 1, ord), n - 1, ord);
    }
  }

  /** distribute_servers changes only the servers' groups: placed servers keep their slots,
      unplaced ones still find no room, and the density order between servers stands. */
  lemma RegroupKeeps(l: Layout, servers: seq<Server>)
    requires |servers| == |l.servers|
    requires forall q :: 0 <= q < |servers| ==> servers[q] == l.servers[q].(group := servers[q].group)
    ensures Holds(l) ==> Holds(Layout(l.grid, l.free, servers))
    ensures forall q :: 0 <= q < |servers| && !l.servers[q].Placed() && NoRoom(l.grid, l.servers[q].size) ==>
              NoRoom(l.grid, servers[q].size)
    ensures forall q, q' :: 0 <= q < |servers| && 0 <= q' < |servers| && ByDensity(l.servers[q], l.servers[q']) ==>
              ByDensity(servers[q], servers[q'])
  {
    if Holds(l) {
      forall s | s in servers && s.Placed() ensures HoldsSlots(l.grid, s) {
        var q :| 0 <= q < |servers| && servers[q] == s;
        assert HoldsSlots(l.grid, l.servers[q]);
      }
    }
    forall q, q' | 0 <= q < |servers| && 0 <= q' < |servers| && ByDensity(l.servers[q], l.servers[q'])
      ensures ByDensity(servers[q], servers[q'])
    {
      StrippedKeepsDensity(l.servers[q], l.servers[q'], servers[q], servers[q']);
    }
  }

  /** After place_server for the server at `k`, that server, if unplaced, has no room; so has
      every unplaced server that had none before. */
  lemma PlaceOneKeepsNoRoom(l: Layout, k: nat, ord: seq<int> -> seq<nat>)
    requires |l.free| == |l.grid| && k < |l.servers| && ListsRows(ord) && ListsEveryRow(ord)
    ensures forall q :: 0 <= q < |l.servers| && !PlaceOne(l, k, ord).servers[q].Placed()
                        && (q == k || NoRoom(l.grid, l.servers[q].size))
                        ==> NoRoom(PlaceOne(l, k, ord).grid, PlaceOne(l, k, ord).servers[q].size)
  {
    var next := PlaceOne(l, k, ord);
    PlaceOneFrame(l, k, ord);
    PlaceOneRoom(l, k, ord);
    forall q | 0 <= q < |l.servers| && !next.servers[q].Placed() && (q == k || NoRoom(l.grid, l.servers[q].size))
      ensures NoRoom(next.grid, next.servers[q].size)
    {
      if q != k {
        FillsKeepsNoRoom(l.grid, next.grid, l.servers[q].size);
      }
    }
  }

  /** A server the placement loop has reached and left unplaced has no room anywhere in the
      grid the loop leaves: rows only fill up after its turn. */
  lemma {:induction false} PlaceFoldUnplaced(l: Layout, n: nat, ord: seq<int> -> seq<nat>)
    requires |l.free| == |l.grid| && n <= |l.servers| && ListsRows(ord) && ListsEveryRow(ord)
    ensures forall q :: 0 <= q < n && !PlaceFold(l, n, ord).servers[q].Placed() ==>
              NoRoom(PlaceFold(l, n, ord).grid, PlaceFold(l, n, ord).servers[q].size)
  {
    if n > 0 {
      PlaceFoldUnplaced(l, n - 1, ord);
      PlaceOneFrame(PlaceFold(l, n - 1, ord), n - 1, ord);
      PlaceOneKeepsNoRoom(PlaceFold(l, n - 1, ord), n - 1, ord);
    }
  }

  // ---------------------------------------------------------------------------
  // Group capacities and the score

  /** Total value of the servers of a list that are not in row `i`. */
  function OutsideValue(list: seq<Server>, i: nat): int {
    if list == [] then 0
    else
      var n := |list| - 1;
      OutsideValue(list[..n], i) + (if list[n].row != Some(i) then list[n].value else 0)
  }

  /** Total value of the servers of a list that sit in `row`. */
  function SameRowValue(list: seq<Server>, row: Option<nat>): int {
    if list == [] then 0
    else
      var n := |list| - 1;
      SameRowValue(list[..n], row) + (if list[n].row == row then list[n].value else 0)
  }

  function TotalValue(list: seq<Server>): int {
    if list == [] then 0 else TotalValue(list[..|list| - 1]) + list[|list| - 1].value
  }

  predicate NonNegativeValues(list: seq<Server>) {
    forall q :: 0 <= q < |list| ==> list[q].value >= 0
  }

  /** With non-negative values, what survives the loss of a row lies between 0 and the total. */
  lemma {:induction false} OutsideValueBounds(list: seq<Server>, i: nat)
    requires NonNegativeValues(list)
    ensures 0 <= OutsideValue(list, i) <= TotalValue(list)
  {
    if list != [] {
      OutsideValueBounds(list[..|list| - 1], i);
    }
  }

  /** Losing row `i` keeps everything except what sits in row `i`. */
  lemma {:induction false} OutsidePlusSameRow(list: seq<Server>, i: nat)
    ensures OutsideValue(list, i) + SameRowValue(list, Some(i)) == TotalValue(list)
  {
    if list != [] {
      OutsidePlusSameRow(list[..|list| - 1], i);
    }
  }

  /** `rows.times.map { |i| ... }.max` restricted to the first `n` rows. */
  function MaxOutside(list: seq<Server>, n: nat): int
    requires n > 0
  {
    if n == 1 then OutsideValue(list, 0)
    else
      var m := MaxOutside(list, n - 1);
      var v := OutsideValue(list, n - 1);
      if v > m then v else m
  }

  /** The maximum over the first `n` rows is the largest per-row value, and one of them. */
  lemma {:induction false} MaxOutsideIsMax(list: seq<Server>, n: nat)
    requires n > 0
    ensures forall i :: 0 <= i < n ==> OutsideValue(list, i) <= MaxOutside(list, n)
    ensures exists i :: 0 <= i < n && MaxOutside(list, n) == OutsideValue(list, i)
  {
    if n == 1 {
      assert MaxOutside(list, n) == OutsideValue(list, 0);
    } else {
      MaxOutsideIsMax(list, n - 1);
      if MaxOutside(list, n) == OutsideValue(list, n - 1) {
        assert 0 <= n - 1 < n;
      }
    }
  }

  /** compute_capacity: the largest value a group keeps when one row fails. */
  function Capacity(list: seq<Server>, rows: nat): int
    requires rows > 0
  {
    MaxOutside(list, rows)
  }

  lemma CapacityBounds(list: seq<Server>, rows: nat)
    requires rows > 0 && NonNegativeValues(list)
    ensures 0 <= Capacity(list, rows) <= TotalValue(list)
  {
    MaxOutsideIsMax(list, rows);
    var i :| 0 <= i < rows && Capacity(list, rows) == OutsideValue(list, i);
    OutsideValueBounds(list, i);
  }

  /** `rows.times.map { |i| ... }.min` for one group, restricted to the first `n` rows. */
  function MinOutside(list: seq<Server>, n: nat): (m: int)
    requires n > 0
    ensures forall i :: 0 <= i < n ==> m <= OutsideValue(list, i)
    ensures exists i :: 0 <= i < n && m == OutsideValue(list, i)
  {
    if n == 1 then OutsideValue(list, 0)
    else
      var m := MinOutside(list, n - 1);
      var v := OutsideValue(list, n - 1);
      if v < m then v else m
  }

  /** The score fold of `output`: the least value any group keeps when any one row fails. */
  function Score(groups: seq<Group>, rows: nat): (s: int)
    requires rows > 0 && |groups| > 0
    ensures forall g, i :: 0 <= g < |groups| && 0 <= i < rows ==> s <= OutsideValue(groups[g].servers, i)
    ensures exists g, i :: 0 <= g < |groups| && 0 <= i < rows && s == OutsideValue(groups[g].servers, i)
  {
    var n := |groups| - 1;
    var m := MinOutside(groups[n].servers, rows);
    if n == 0 then m
    else
      var rest := Score(groups[..n], rows);
      assert forall g :: 0 <= g < n ==> groups[..n][g] == groups[g];
      if m < rest then m else rest
  }

  /** With every capacity up to date, the score is at most every group's capacity. */
  lemma {:induction false} ScoreBelowCapacity(groups: seq<Group>, rows: nat, g: nat)
    requires rows > 0 && g < |groups|
    requires groups[g].capacity == Capacity(groups[g].servers, rows)
    ensures Score(groups, rows) <= groups[g].capacity
  {
    MaxOutsideIsMax(groups[g].servers, rows);
    var i :| 0 <= i < rows && groups[g].capacity == OutsideValue(groups[g].servers, i);
  }

  // ---------------------------------------------------------------------------
  // Distribution over groups, as a fold over the visiting order

  /** What `min_by` minimises for a group when `s` is to be added to it. */
  function Load(g: Group, s: Server): int {
    g.capacity + SameRowValue(g.servers, s.row)
  }

  /** `groups.min_by { ... }`: the first group of least load. */
  function ChooseGroup(groups: seq<Group>, s: Server): (g: nat)
    requires |groups| > 0
    ensures g < |groups|
  {
    var n := |groups| - 1;
    if n == 0 then 0
    else
      var g := ChooseGroup(groups[..n], s);
      if Load(groups[n], s) < Load(groups[g], s) then n else g
  }

  /** The chosen group has the least load, and no group before it has that load. */
  lemma {:induction false} ChooseGroupLeast(groups: seq<Group>, s: Server)
    requires |groups| > 0
    ensures var g := ChooseGroup(groups, s);
            && (forall h :: 0 <= h < |groups| ==> Load(groups[g], s) <= Load(groups[h], s))
            && (forall h :: 0 <= h < g ==> Load(groups[h], s) > Load(groups[g], s))
  {
    var n := |groups| - 1;
    if n > 0 {
      ChooseGroupLeast(groups[..n], s);
      assert forall h :: 0 <= h < n ==> groups[..n][h] == groups[h];
    }
  }

  /** A server without the fields that placement and distribution fill in. */
  function Stripped(s: Server): (nat, nat, int) {
    (s.index, s.size, s.value)
  }

  datatype Assignment = Assignment(servers: seq<Server>, groups: seq<Group>)

  /** The server at position `p` joins group `g`, whose capacity becomes `cap`. */
  function Join(st: Assignment, p: nat, g: nat, cap: int): (r: Assignment)
    requires g < |st.groups| && p < |st.servers|
    ensures |r.servers| == |st.servers| && |r.groups| == |st.groups|
  {
    var s' := st.servers[p].(group := Some(st.groups[g].index));
    Assignment(st.servers[p := s'],
               st.groups[g := st.groups[g].(servers := st.groups[g].servers + [s'], capacity := cap)])
  }

  /** One iteration of distribute_servers for the server at position `p`: the server's
      `group` is set to the least-loaded group, which appends it and recomputes its capacity. */
  function AssignOne(st: Assignment, p: nat, rows: nat): (r: Assignment)
    requires rows > 0 && |st.groups| > 0 && p < |st.servers|
    ensures |r.servers| == |st.servers| && |r.groups| == |st.groups|
  {
    var s := st.servers[p];
    var g := ChooseGroup(st.groups, s);
    var s' := s.(group := Some(st.groups[g].index));
    Join(st, p, g, Capacity(st.groups[g].servers + [s'], rows))
  }

  /** distribute_servers after it visited `order[..n]`. */
  function AssignAll(st: Assignment, order: seq<nat>, n: nat, rows: nat): (r: Assignment)
    requires rows > 0 && |st.groups| > 0 && n <= |order|
    requires forall q :: 0 <= q < |order| ==> order[q] < |st.servers|
    ensures |r.servers| == |st.servers| && |r.groups| == |st.groups|
  {
    if n == 0 then st
    else AssignOne(AssignAll(st, order, n - 1, rows), order[n - 1], rows)
  }

  lemma AssignAllStep(st: Assignment, order: seq<nat>, n: nat, rows: nat)
    requires rows > 0 && |st.groups| > 0 && n < |order|
    requires forall q :: 0 <= q < |order| ==> order[q] < |st.servers|
    ensures AssignAll(st, order, n + 1, rows) == AssignOne(AssignAll(st, order, n, rows), order[n], rows)
  {
  }

  ghost function GroupSizes(groups: seq<Group>): nat {
    if groups == [] then 0 else GroupSizes(groups[..|groups| - 1]) + |groups[|groups| - 1].servers|
  }

  lemma {:induction false} GroupSizesAppend(groups: seq<Group>, g: nat, s: Server, c: int)
    requires g < |groups|
    ensures GroupSizes(groups[g := groups[g].(servers := groups[g].servers + [s], capacity := c)])
            == GroupSizes(groups) + 1
  {
    var n := |groups| - 1;
    var gs := groups[g := groups[g].(servers := groups[g].servers + [s], capacity := c)];
    if g < n {
      assert gs[..n] == groups[..n][g := groups[g].(servers := groups[g].servers + [s], capacity := c)];
      GroupSizesAppend(groups[..n], g, s, c);
    } else {
      assert gs[..n] == groups[..n];
    }
  }

  /** Every visited server joined exactly one group's list: the lists grow by one entry per visit. */
  lemma {:induction false} AssignAllGrowsGroups(st: Assignment, order: seq<nat>, n: nat, rows: nat)
    requires rows > 0 && |st.groups| > 0 && n <= |order|
    requires forall q :: 0 <= q < |order| ==> order[q] < |st.servers|
    ensures GroupSizes(AssignAll(st, order, n, rows).groups) == GroupSizes(st.groups) + n
  {
    if n > 0 {
      AssignAllGrowsGroups(st, order, n - 1, rows);
      var prev := AssignAll(st, order, n - 1, rows);
      var p := order[n - 1];
      var g := ChooseGroup(prev.groups, prev.servers[p]);
      var s' := prev.servers[p].(group := Some(prev.groups[g].index));
      GroupSizesAppend(prev.groups, g, s', Capacity(prev.groups[g].servers + [s'], rows));
    }
  }

  /** Every visited server has a group. */
  lemma {:induction false} AssignAllVisited(st: Assignment, order: seq<nat>, n: nat, rows: nat)
    requires rows > 0 && |st.groups| > 0 && n <= |order|
    requires forall q :: 0 <= q < |order| ==> order[q] < |st.servers|
    ensures var r := AssignAll(st, order, n, rows);
            forall p :: 0 <= p < |st.servers| && p in order[..n] ==> r.servers[p].group.Some?
  {
    if n > 0 {
      AssignAllVisited(st, order, n - 1, rows);
      assert order[..n] == order[..n - 1] + [order[n - 1]];
    }
  }

  /** Every server not visited is left as it was. */
  lemma {:induction false} AssignAllUnvisited(st: Assignment, order: seq<nat>, n: nat, rows: nat)
    requires rows > 0 && |st.groups| > 0 && n <= |order|
    requires forall q :: 0 <= q < |order| ==> order[q] < |st.servers|
    ensures var r := AssignAll(st, order, n, rows);
            forall p :: 0 <= p < |st.servers| && p !in order[..n] ==> r.servers[p] == st.servers[p]
  {
    if n > 0 {
      AssignAllUnvisited(st, order, n - 1, rows);
      assert order[..n] == order[..n - 1] + [order[n - 1]];
    }
  }

  /** Distribution changes no field of a server other than `group`. */
  lemma {:induction false} AssignAllOnlyGroups(st: Assignment, order: seq<nat>, n: nat, rows: nat)
    requires rows > 0 && |st.groups| > 0 && n <= |order|
    requires forall q :: 0 <= q < |order| ==> order[q] < |st.servers|
    ensures var r := AssignAll(st, order, n, rows);
            forall p :: 0 <= p < |st.servers| ==> r.servers[p] == st.servers[p].(group := r.servers[p].group)
  {
    if n > 0 {
      AssignAllOnlyGroups(st, order, n - 1, rows);
      var prev := AssignAll(st, order, n - 1, rows);
      var next := AssignAll(st, order, n, rows);
      forall p | 0 <= p < |st.servers| ensures next.servers[p] == st.servers[p].(group := next.servers[p].group) {
        if p != order[n - 1] {
          assert next.servers[p] == prev.servers[p];
        }
      }
    }
  }

  /** Group indices never change. */
  lemma {:induction false} AssignAllIndices(st: Assignment, order: seq<nat>, n: nat, rows: nat)
    requires rows > 0 && |st.groups| > 0 && n <= |order|
    requires forall q :: 0 <= q < |order| ==> order[q] < |st.servers|
    ensures var r := AssignAll(st, order, n, rows);
            forall g :: 0 <= g < |st.groups| ==> r.groups[g].index == st.groups[g].index
  {
    if n > 0 {
      AssignAllIndices(st, order, n - 1, rows);
      var prev := AssignAll(st, order, n - 1, rows);
      var next := AssignAll(st, order, n, rows);
      var g0 := ChooseGroup(prev.groups, prev.servers[order[n - 1]]);
      var p := order[n - 1];
      var s' := prev.servers[p].(group := Some(prev.groups[g0].index));
      assert next == Join(prev, p, g0, Capacity(prev.groups[g0].servers + [s'], rows));
      forall g | 0 <= g < |st.groups| ensures next.groups[g].index == st.groups[g].index {
        if g != g0 {
          assert next.groups[g] == prev.groups[g];
        }
      }
    }
  }

  /** Every group's stored capacity is what compute_capacity gives for its list. */
  predicate CapacitiesUpToDate(groups: seq<Group>, rows: nat)
    requires rows > 0
  {
    forall g :: 0 <= g < |groups| ==> groups[g].capacity == Capacity(groups[g].servers, rows)
  }

  /** Capacities that are up to date before distribution stay up to date. */
  lemma {:induction false} AssignAllCapacities(st: Assignment, order: seq<nat>, n: nat, rows: nat)
    requires rows > 0 && |st.groups| > 0 && n <= |order|
    requires forall q :: 0 <= q < |order| ==> order[q] < |st.servers|
    requires CapacitiesUpToDate(st.groups, rows)
    ensures CapacitiesUpToDate(AssignAll(st, order, n, rows).groups, rows)
  {
    if n > 0 {
      AssignAllCapacities(st, order, n - 1, rows);
      var prev := AssignAll(st, order, n - 1, rows);
      var next := AssignAll(st, order, n, rows);
      var g0 := ChooseGroup(prev.groups, prev.servers[order[n - 1]]);
      var p := order[n - 1];
      var s' := prev.servers[p].(group := Some(prev.groups[g0].index));
      var list := prev.groups[g0].servers + [s'];
      assert next == Join(prev, p, g0, Capacity(list, rows));
      forall g | 0 <= g < |next.groups| ensures next.groups[g].capacity == Capacity(next.groups[g].servers, rows) {
        if g != g0 {
          assert next.groups[g] == prev.groups[g];
        }
      }
    }
  }

  // ---------------------------------------------------------------------------
  // The data center itself

  function Occurrences(occupied: seq<(nat, nat)>, r: nat): nat {
    if occupied == [] then 0
    else Occurrences(occupied[..|occupied| - 1], r) + (if occupied[|occupied| - 1].0 == r then 1 else 0)
  }

  predicate NoDuplicates<T(==)>(s: seq<T>) {
    forall a, b :: 0 <= a < b < |s| ==> s[a] != s[b]
  }

  /** Growing a prefix of the occupied list by one slot: membership, per-row counts and
      distinctness of the longer prefix in terms of the shorter one. */
  lemma PrefixStep(occupied: seq<(nat, nat)>, q: nat)
    requires q < |occupied|
    ensures forall x :: x in occupied[..q + 1] <==> x in occupied[..q] || x == occupied[q]
    ensures forall r :: Occurrences(occupied[..q + 1], r)
                        == Occurrences(occupied[..q], r) + (if occupied[q].0 == r then 1 else 0)
    ensures NoDuplicates(occupied[..q + 1]) ==> NoDuplicates(occupied[..q]) && occupied[q] !in occupied[..q]
  {
    assert occupied[..q + 1] == occupied[..q] + [occupied[q]];
    assert occupied[..q + 1][..q] == occupied[..q];
    if NoDuplicates(occupied[..q + 1]) {
      assert forall a :: 0 <= a < q ==> occupied[..q][a] == occupied[..q + 1][a];
      assert occupied[..q + 1][q] == occupied[q];
    }
  }

  class DataCenter {
    const rows: nat
    const cols: nat
    /** `grid[r].cols[c]`; every row's `size` is `cols` and its `index` is `r`. */
    const cells: array2<Cell>
    /** `grid[r].free` */
    const free: array<int>
    /** How place_server orders the rows by their free counters: `RowOrder`. */
    const rowOrder: seq<int> -> seq<nat>
    var servers: seq<Server>
    var groups: seq<Group>

    ghost predicate Valid() {
      && cells.Length0 == rows && cells.Length1 == cols && free.Length == rows
      && ListsRows(rowOrder) && ListsEveryRow(rowOrder)
    }

    ghost function RowCells(r: nat): (s: seq<Cell>)
      requires Valid() && r < rows
      reads cells
      ensures |s| == cols
    {
      seq(cols, x requires 0 <= x < cols reads cells => cells[r, x])
    }

    ghost function Grid(): (g: seq<seq<Cell>>)
      requires Valid()
      reads cells
      ensures |g| == rows && forall r :: 0 <= r < rows ==> g[r] == RowCells(r)
    {
      seq(rows, r requires 0 <= r < rows reads cells => RowCells(r))
    }

    /** Every row's `free` counter is the number of its free slots. */
    ghost predicate FreeCounted()
      requires Valid()
      reads cells, free
    {
      Counted(Grid(), free[..])
    }

    /** The grid, the free counters and the servers, as one value. */
    ghost function State(): (l: Layout)
      requires Valid()
      reads this, cells, free
      ensures |l.free| == |l.grid| == rows
    {
      Layout(Grid(), free[..], servers)
    }

    /** parse_header and parse_servers, then parse_occupied, from already split integers:
        `occupied` lists the unavailable slots, `specs` the (size, value) of each server. */
    constructor (rows: nat, cols: nat, occupied: seq<(nat, nat)>, groupCount: nat, specs: seq<(nat, int)>)
      requires forall q :: 0 <= q < |occupied| ==> occupied[q].0 < rows && occupied[q].1 < cols
      ensures Valid() && this.rows == rows && this.cols == cols && rowOrder == RowOrder
      ensures fresh(cells) && fresh(free)
      ensures forall r, c :: 0 <= r < rows && 0 <= c < cols ==>
                cells[r, c] == if (r, c) in occupied then Unavailable else Empty
      ensures forall r :: 0 <= r < rows ==> free[r] == cols - Occurrences(occupied, r)
      ensures NoDuplicates(occupied) ==> FreeCounted()
      ensures groups == seq(groupCount, i requires 0 <= i < groupCount => Group(i, 0, []))
      ensures servers == seq(|specs|, i requires 0 <= i < |specs| =>
                               Server(i, specs[i].0, specs[i].1, None, None, None))
    {
      this.rows := rows;
      this.cols := cols;
      rowOrder := RowOrder;
      RowOrderListsRows();
      cells := new Cell[rows, cols]((_, _) => Empty);
      free := new int[rows](_ => cols);
      groups := seq(groupCount, i requires 0 <= i < groupCount => Group(i, 0, []));
      servers := seq(|specs|, i requires 0 <= i < |specs| => Server(i, specs[i].0, specs[i].1, None, None, None));
      new;
      forall r | 0 <= r < rows ensures free[..][r] == CountEmpty(Grid()[r]) {
        assert RowCells(r) == seq(cols, _ => Empty);
        CountEmptyAllEmpty(cols);
      }
      ParseOccupied(occupied);
    }

    /** The state parse_occupied has reached after the first `q` listed slots. */
    ghost predicate ParsedUpTo(occupied: seq<(nat, nat)>, q: nat)
      requires Valid() && q <= |occupied|
      reads cells, free
    {
      && (forall r, c :: 0 <= r < rows && 0 <= c < cols ==>
            cells[r, c] == if (r, c) in occupied[..q] then Unavailable else Empty)
      && (forall r :: 0 <= r < rows ==> free[r] == cols - Occurrences(occupied[..q], r))
      && (NoDuplicates(occupied[..q]) ==> FreeCounted())
    }

    /** parse_occupied: mark every listed slot unavailable and decrement its row's counter. */
    method ParseOccupied(occupied: seq<(nat, nat)>)
      requires Valid()
      requires forall q :: 0 <= q < |occupied| ==> occupied[q].0 < rows && occupied[q].1 < cols
      requires forall r, c :: 0 <= r < rows && 0 <= c < cols ==> cells[r, c] == Empty
      requires forall r :: 0 <= r < rows ==> free[r] == cols
      requires FreeCounted()
      modifies cells, free
      ensures forall r, c :: 0 <= r < rows && 0 <= c < cols ==>
                cells[r, c] == if (r, c) in occupied then Unavailable else Empty
      ensures forall r :: 0 <= r < rows ==> free[r] == cols - Occurrences(occupied, r)
      ensures NoDuplicates(occupied) ==> FreeCounted()
    {
      assert occupied[..0] == [];
      var q := 0;
      while q < |occupied|
        invariant 0 <= q <= |occupied|
        invariant ParsedUpTo(occupied, q)
      {
        ParseOne(occupied, q);
        q := q + 1;
      }
      assert occupied[..q] == occupied;
    }

    /** The body of parse_occupied's loop for the `q`-th listed slot. */
    method ParseOne(occupied: seq<(nat, nat)>, q: nat)
      requires Valid() && q < |occupied| && occupied[q].0 < rows && occupied[q].1 < cols
      requires ParsedUpTo(occupied, q)
      modifies cells, free
      ensures ParsedUpTo(occupied, q + 1)
    {
      var (r, c) := occupied[q];
      PrefixStep(occupied, q);
      MarkUnavailable(r, c);
    }

    /** One step of parse_occupied: `grid[r].cols[c] = :x` and `grid[r].free -= 1`. */
    method MarkUnavailable(r: nat, c: nat)
      requires Valid() && r < rows && c < cols
      modifies cells, free
      ensures forall r', c' :: 0 <= r' < rows && 0 <= c' < cols ==>
                cells[r', c'] == if r' == r && c' == c then Unavailable else old(cells[r', c'])
      ensures free[..] == old(free[..])[r := old(free[r]) - 1]
      ensures old(FreeCounted()) && old(cells[r, c]) == Empty ==> FreeCounted()
    {
      ghost var g := Grid();
      ghost var f := free[..];
      cells[r, c] := Unavailable;
      free[r] := free[r] - 1;
      if Counted(g, f) && g[r][c] == Empty {
        CountedAfterClaim(g, f, r, c, 1, Unavailable);
        assert Grid() == g[r := Claimed(g[r], c, 1, Unavailable)] by {
          forall r' | 0 <= r' < rows ensures Grid()[r'] == g[r := Claimed(g[r], c, 1, Unavailable)][r'] {
            if r' == r {
              assert RowCells(r) == Claimed(g[r], c, 1, Unavailable);
            } else {
              assert RowCells(r') == g[r'];
            }
          }
        }
      }
    }

    /** The inner claiming loop of place_server: slots `c .. c+n-1` of row `r` receive `v`. */
    method ClaimSlots(r: nat, c: nat, n: nat, v: Cell)
      requires Valid() && r < rows && c + n <= cols
      modifies cells
      ensures Grid() == old(Grid())[r := Claimed(old(Grid())[r], c, n, v)]
    {
      var j := 0;
      while j < n
        invariant 0 <= j <= n
        invariant forall r', x :: 0 <= r' < rows && 0 <= x < cols ==>
                    cells[r', x] == if r' == r && c <= x < c + j then v else old(cells[r', x])
      {
        cells[r, c + j] := v;
        j := j + 1;
      }
      forall r' | 0 <= r' < rows
        ensures Grid()[r'] == old(Grid())[r := Claimed(old(Grid())[r], c, n, v)][r']
      {
        if r' == r {
          assert RowCells(r) == Claimed(old(RowCells(r)), c, n, v);
        } else {
          assert RowCells(r') == old(RowCells(r'));
        }
      }
    }

    /** place_server for `servers[k]`: rows are tried fewest free slots first and, in each
        row, offsets from the left; the first run of `size` free slots receives the server. */
    method PlaceServer(k: nat) returns (placedRow: Option<nat>)
      requires Valid() && k < |servers|
      modifies cells, free, this`servers
      ensures var fit := FirstFit(old(Grid()), rowOrder(old(free[..])), old(servers[k].size), 0);
              placedRow == (if fit.Some? then Some(fit.value.row) else None)
      ensures State() == PlaceOne(old(State()), k, rowOrder)
      ensures old(FreeCounted()) ==> FreeCounted()
    {
      var order := rowOrder(free[..]);
      placedRow := TryRows(k, order);
    }

    /** The row loop of place_server, over a given order of the rows. */
    method TryRows(k: nat, order: seq<nat>) returns (placedRow: Option<nat>)
      requires Valid() && k < |servers|
      requires forall q :: 0 <= q < |order| ==> order[q] < rows
      modifies cells, free, this`servers
      ensures var size := old(servers[k].size);
              var fit := FirstFit(old(Grid()), order, size, 0);
              && placedRow == (if fit.Some? then Some(fit.value.row) else None)
              && (fit.None? ==> Grid() == old(Grid()) && free[..] == old(free[..]) && servers == old(servers))
              && (fit.Some? ==>
                    var Slot(_, r, c) := fit.value;
                    && Grid() == old(Grid())[r := Claimed(old(Grid())[r], c, size, Taken(old(servers[k].index)))]
                    && free[..] == old(free[..])[r := old(free[r]) - size]
                    && servers == old(servers)[k := old(servers[k]).(row := Some(r), col := Some(c))])
      ensures old(FreeCounted()) ==> FreeCounted()
    {
      var size := servers[k].size;
      ghost var g := Grid();
      ghost var f := free[..];
      var p := 0;
      while p < |order|
        invariant 0 <= p <= |order|
        invariant FirstFit(g, order, size, 0) == FirstFit(g, order, size, p)
        invariant Grid() == g && free[..] == f && servers == old(servers)
      {
        var r := order[p];
        var at := FirstFreeRun(r, size);
        if at.Some? {
          Install(k, r, at.value);
          return Some(r);
        }
        p := p + 1;
      }
      return None;
    }

    /** The success branch of place_server: the server at position `k` takes the
        slots `c ..` of row `r`, which records where it sits and how many slots stay free. */
    method Install(k: nat, r: nat, c: nat)
      requires Valid() && k < |servers| && r < rows && c + servers[k].size <= cols
      modifies cells, free, this`servers
      ensures var size := old(servers[k].size);
              && Grid() == old(Grid())[r := Claimed(old(Grid())[r], c, size, Taken(old(servers[k].index)))]
              && free[..] == old(free[..])[r := old(free[r]) - size]
              && servers == old(servers)[k := old(servers[k]).(row := Some(r), col := Some(c))]
      ensures old(FreeCounted()) && (forall x :: c <= x < c + old(servers[k].size) ==> old(Grid())[r][x] == Empty)
              ==> FreeCounted()
    {
      ghost var g := Grid();
      ghost var f := free[..];
      var size := servers[k].size;
      ClaimSlots(r, c, size, Taken(servers[k].index));
      servers := servers[k := servers[k].(row := Some(r), col := Some(c))];
      free[r] := free[r] - size;
      if Counted(g, f) && (forall x :: c <= x < c + size ==> g[r][x] == Empty) {
        CountedAfterClaim(g, f, r, c, size, Taken(old(servers[k].index)));
      }
    }

    /** The offset loop of place_server over one row: the smallest offset at which
        `size` consecutive slots are all free, if any. */
    method FirstFreeRun(r: nat, size: nat) returns (at: Option<nat>)
      requires Valid() && r < rows
      ensures at == FirstOffset(Grid()[r], size, 0)
    {
      var i := 0;
      while i + size <= cols
        invariant FirstOffset(Grid()[r], size, 0) == FirstOffset(Grid()[r], size, i)
      {
        var can := true;
        var j := 0;
        while j < size
          invariant 0 <= j <= size
          invariant can == (forall x :: i <= x < i + j ==> Grid()[r][x] == Empty)
        {
          assert Grid()[r][i + j] == cells[r, i + j];
          can := can && cells[r, i + j] == Empty;
          j := j + 1;
        }
        if can {
          return Some(i);
        }
        i := i + 1;
      }
      return None;
    }

    /** compute_capacity for the group at position `g`. */
    method ComputeCapacity(g: nat)
      requires rows > 0 && g < |groups|
      modifies this`groups
      ensures groups == old(groups)[g := old(groups[g]).(capacity := Capacity(old(groups[g].servers), rows))]
    {
      groups := groups[g := groups[g].(capacity := Capacity(groups[g].servers, rows))];
    }

    /** distribute_servers: the placed servers, by value descending then size ascending,
        each join the group of least load for their row. */
    method DistributeServers()
      requires rows > 0 && |groups| > 0
      modifies this`servers, this`groups
      ensures var order := DistributionOrder(old(servers));
              var r := AssignAll(Assignment(old(servers), old(groups)), order, |order|, rows);
              servers == r.servers && groups == r.groups
      ensures |servers| == |old(servers)| && |groups| == |old(groups)|
      ensures forall q :: 0 <= q < |servers| ==> servers[q] == old(servers[q]).(group := servers[q].group)
      ensures forall q :: 0 <= q < |servers| && servers[q].Placed() ==> servers[q].group.Some?
      ensures forall q :: 0 <= q < |servers| && !servers[q].Placed() ==> servers[q] == old(servers[q])
      ensures CapacitiesUpToDate(old(groups), rows) ==> CapacitiesUpToDate(groups, rows)
    {
      ghost var st := Assignment(servers, groups);
      var order := DistributionOrder(servers);
      AssignInOrder(order);
      AssignAllOnlyGroups(st, order, |order|, rows);
      DistributionOrderPermutes(st.servers);
      AssignAllVisited(st, order, |order|, rows);
      AssignAllUnvisited(st, order, |order|, rows);
      assert order[..|order|] == order;
      if CapacitiesUpToDate(st.groups, rows) {
        AssignAllCapacities(st, order, |order|, rows);
      }
    }

    /** The loop of distribute_servers over a given visiting order. */
    method AssignInOrder(order: seq<nat>)
      requires rows > 0 && |groups| > 0
      requires forall q :: 0 <= q < |order| ==> order[q] < |servers|
      modifies this`servers, this`groups
      ensures Assignment(servers, groups) == AssignAll(Assignment(old(servers), old(groups)), order, |order|, rows)
    {
      ghost var st0 := Assignment(servers, groups);
      var t := 0;
      while t < |order|
        invariant 0 <= t <= |order|
        invariant |servers| == |st0.servers| && |groups| == |st0.groups|
        invariant Assignment(servers, groups) == AssignAll(st0, order, t, rows)
      {
        Visit(st0, order, t);
        t := t + 1;
      }
    }

    /** One turn of the distribution loop: the server at `order[t]` joins its group. */
    method Visit(ghost st0: Assignment, order: seq<nat>, t: nat)
      requires rows > 0 && |st0.groups| > 0 && t < |order|
      requires forall q :: 0 <= q < |order| ==> order[q] < |st0.servers|
      requires Assignment(servers, groups) == AssignAll(st0, order, t, rows)
      modifies this`servers, this`groups
      ensures Assignment(servers, groups) == AssignAll(st0, order, t + 1, rows)
    {
      AssignServer(order[t]);
      AssignAllStep(st0, order, t, rows);
    }

    /** The body of distribute_servers' loop for the server at position `p`. */
    method AssignServer(p: nat)
      requires rows > 0 && |groups| > 0 && p < |servers|
      modifies this`servers, this`groups
      ensures Assignment(servers, groups) == AssignOne(old(Assignment(servers, groups)), p, rows)
    {
      var g := ChooseGroup(groups, servers[p]);
      servers := servers[p := servers[p].(group := Some(groups[g].index))];
      groups := groups[g := groups[g].(servers := groups[g].servers + [servers[p]])];
      ComputeCapacity(g);
    }

    /** The placement loop of magic: place_server for each server in list order. */
    method PlaceAll()
      requires Valid()
      modifies cells, free, this`servers
      ensures State() == PlaceFold(old(State()), |old(servers)|, rowOrder)
      ensures |servers| == |old(servers)|
      ensures forall q :: 0 <= q < |servers| ==>
                Stripped(servers[q]) == Stripped(old(servers[q])) && servers[q].group == old(servers[q].group)
      ensures old(FreeCounted()) ==> FreeCounted()
    {
      ghost var l0 := State();
      var k := 0;
      while k < |servers|
        invariant 0 <= k <= |servers| == |l0.servers|
        invariant State() == PlaceFold(l0, k, rowOrder)
        invariant old(FreeCounted()) ==> FreeCounted()
      {
        PlaceNext(l0, k);
        k := k + 1;
      }
      PlaceFoldServers(l0, k, rowOrder);
    }

    /** One turn of the placement loop: place_server for the server at position `k`. */
    method PlaceNext(ghost l0: Layout, k: nat)
      requires Valid() && |l0.free| == |l0.grid| && k < |l0.servers|
      requires State() == PlaceFold(l0, k, rowOrder)
      modifies cells, free, this`servers
      ensures State() == PlaceFold(l0, k + 1, rowOrder)
      ensures old(FreeCounted()) ==> FreeCounted()
    {
      var _ := PlaceServer(k);
    }

    /** The first half of magic: `sort_by!` on the servers, then place_server for each in the
        sorted order. */
    method SortAndPlace()
      requires Valid()
      modifies cells, free, this`servers
      ensures State() == PlaceFold(Layout(old(Grid()), old(free[..]), SortServers(old(servers))), |old(servers)|, rowOrder)
      ensures |servers| == |old(servers)|
      ensures forall q :: 0 <= q < |servers| ==>
                servers[q] == SortServers(old(servers))[q].(row := servers[q].row, col := servers[q].col)
      ensures forall q, q' :: 0 <= q < q' < |servers| && q' == q + 1 ==> ByDensity(servers[q], servers[q'])
      ensures old(FreeCounted()) ==> FreeCounted()
    {
      ghost var l0 := Layout(Grid(), free[..], SortServers(servers));
      servers := SortServers(servers);
      PlaceAll();
      PlaceFoldServers(l0, |l0.servers|, rowOrder);
      forall q, q' | 0 <= q < q' < |servers| && q' == q + 1 ensures ByDensity(servers[q], servers[q']) {
        StrippedKeepsDensity(l0.servers[q], l0.servers[q'], servers[q], servers[q']);
      }
    }

    /** magic: sort the servers, place each in turn, distribute them and compute the score. */
    method Magic() returns (score: int)
      requires Valid() && rows > 0 && |groups| > 0
      requires CapacitiesUpToDate(groups, rows)
      modifies cells, free, this`servers, this`groups
      ensures |servers| == |old(servers)| && |groups| == |old(groups)|
      ensures forall q :: 0 <= q < |servers| ==> Stripped(servers[q]) == Stripped(SortServers(old(servers))[q])
      ensures forall q, q' :: 0 <= q < q' < |servers| && q' == q + 1 ==> ByDensity(servers[q], servers[q'])
      ensures CapacitiesUpToDate(groups, rows)
      ensures score == Score(groups, rows)
      ensures forall g :: 0 <= g < |groups| ==> score <= groups[g].capacity
      ensures old(FreeCounted()) ==> FreeCounted()
      ensures forall q :: 0 <= q < |servers| && servers[q].Placed() ==> servers[q].group.Some?
      ensures forall q :: 0 <= q < |servers| && !servers[q].Placed() ==>
                servers[q].group == SortServers(old(servers))[q].group
      ensures var placed := PlaceFold(Layout(old(Grid()), old(free[..]), SortServers(old(servers))), |old(servers)|, rowOrder);
              var order := DistributionOrder(placed.servers);
              var dist := AssignAll(Assignment(placed.servers, old(groups)), order, |order|, rows);
              && Grid() == placed.grid && free[..] == placed.free
              && servers == dist.servers && groups == dist.groups
    {
      SortAndPlace();
      ghost var placed := servers;
      DistributeServers();
      score := Score(groups, rows);
      forall g | 0 <= g < |groups| ensures score <= groups[g].capacity {
        ScoreBelowCapacity(groups, rows, g);
      }
      forall q, q' | 0 <= q < q' < |servers| && q' == q + 1 ensures ByDensity(servers[q], servers[q']) {
        StrippedKeepsDensity(placed[q], placed[q'], servers[q], servers[q']);
      }
    }
  }
}
