/** NCER cells: the three OAM attribute words of a cell, the shape-by-size table, the
    rectangle test, the bounding box, the drawing order and the greedy layering. */
module Cells {
  import opened Bytes

  datatype Cell = Cell(
    x: int, y: int,              // sign-extended position, re-origined by the bank pass
    width: int, height: int,     // from the shape-by-size table
    numcell: int,                // index of the cell in its bank as stored
    shape: int, size: int, tileoffset: int,
    rsflag: bool, objdisable: bool, doublesize: bool,
    objmode: int, mosaic: bool, depth: bool,
    xflip: bool, yflip: bool, selectparam: int,
    priority: int, pal: int,
    layer: int)                  // -1 until layering assigns one

  /** Width and height in pixels for shapes 0 (square), 1 (wide) and 2 (tall). */
  function ShapeSize(shape: int, size: int): (r: (int, int))
    requires 0 <= shape <= 2 && 0 <= size <= 3
    ensures r.0 in {8, 16, 32, 64} && r.1 in {8, 16, 32, 64}
    ensures shape == 0 ==> r.0 == r.1
    ensures shape == 1 ==> r.0 > r.1
    ensures shape == 2 ==> r.0 < r.1
  {
    if shape == 0 then [(8, 8), (16, 16), (32, 32), (64, 64)][size]
    else if shape == 1 then [(16, 8), (32, 8), (32, 16), (64, 32)][size]
    else [(8, 16), (8, 32), (16, 32), (32, 64)][size]
  }

  /** The low `m` bits of `v` read as a two's-complement number, `half` being `m / 2`. */
  function LowSigned(v: int, m: nat, half: nat): (r: int)
    requires half > 0 && m == 2 * half
    ensures -(half as int) <= r < half && (r - v) % m == 0
  {
    var low := v % m;
    var q := v / m;
    if low >= half then
      DivModUnique(low - m - v, m, -q - 1, 0);
      low - m
    else
      DivModUnique(low - v, m, -q, 0);
      low
  }

  /** The cell the words `obj0`, `obj1`, `obj2` describe, as cell `numcell` of its bank.
      Shape 3 has no table entry: the cell keeps the size of the cell decoded before it
      (`prev`), and fails when there is none. */
  function DecodeCell(obj0: u16, obj1: u16, obj2: u16, numcell: nat, prev: Option<(int, int)>): (r: Result<Cell>)
    ensures r.Err? <==> Bits(obj0, 0x4000, 4) == 3 && prev.None?
    ensures r.Err? ==> r.error == UnboundCellSize
    ensures r.Ok? ==> -0x80 <= r.value.y < 0x80 && (r.value.y - obj0) % 0x100 == 0
    ensures r.Ok? ==> -0x100 <= r.value.x < 0x100 && (r.value.x - obj1) % 0x200 == 0
    ensures r.Ok? ==> 0 <= r.value.shape <= 3 && 0 <= r.value.size <= 3
    ensures r.Ok? && r.value.shape <= 2 ==>
              (r.value.width, r.value.height) == ShapeSize(r.value.shape, r.value.size) &&
              r.value.width in {8, 16, 32, 64} && r.value.height in {8, 16, 32, 64}
    ensures r.Ok? && r.value.shape == 3 ==> prev.Some? && (r.value.width, r.value.height) == prev.value
    ensures r.Ok? ==> r.value.numcell == numcell && r.value.layer == -1
    ensures r.Ok? ==> 0 <= r.value.tileoffset < 0x400 && 0 <= r.value.priority < 4 && 0 <= r.value.pal < 0x10
  {
    var shape := Bits(obj0, 0x4000, 4);
    var size := Bits(obj1, 0x4000, 4);
    var rsflag := Bits(obj0, 0x100, 2) == 1;
    var bit9 := Bits(obj0, 0x200, 2) == 1;
    if shape == 3 && prev.None? then Err(UnboundCellSize)
    else
      var wh := if shape == 3 then prev.value else ShapeSize(shape, size);
      Ok(Cell(
        x := LowSigned(obj1, 0x200, 0x100),
        y := LowSigned(obj0, 0x100, 0x80),
        width := wh.0, height := wh.1, numcell := numcell,
        shape := shape, size := size, tileoffset := obj2 % 0x400,
        rsflag := rsflag,
        objdisable := !rsflag && bit9,
        doublesize := rsflag && bit9,
        objmode := Bits(obj0, 0x400, 4),
        mosaic := Bits(obj0, 0x1000, 2) == 1,
        depth := Bits(obj0, 0x2000, 2) == 1,
        xflip := !rsflag && Bits(obj1, 0x1000, 2) == 1,
        yflip := !rsflag && Bits(obj1, 0x2000, 2) == 1,
        selectparam := if rsflag then Bits(obj1, 0x200, 0x20) else 0,
        priority := Bits(obj2, 0x400, 4),
        pal := Bits(obj2, 0x1000, 0x10),
        layer := -1))
  }

  /** cellIntersect: the two rectangles overlap. */
  predicate Intersect(a: Cell, b: Cell)
  {
    a.x < b.x + b.width && a.x + a.width > b.x && a.y < b.y + b.height && a.y + a.height > b.y
  }

  lemma IntersectSymmetric(a: Cell, b: Cell)
    ensures Intersect(a, b) <==> Intersect(b, a)
  {
  }

  /** Two cells covering the same non-empty rectangle overlap. */
  lemma IntersectSameRect(a: Cell, b: Cell)
    requires a.x == b.x && a.y == b.y && a.width == b.width && a.height == b.height
    requires a.width > 0 && a.height > 0
    ensures Intersect(a, b)
  {
  }

  /** The box the bank size pass starts from: nothing yet, as `(minx, miny, maxx, maxy)`. */
  const EmptyBox := (512, 512, -512, -512)

  /** The box grown to take in `c`. */
  function Grow(box: (int, int, int, int), c: Cell): (int, int, int, int)
  {
    (if c.x < box.0 then c.x else box.0, if c.y < box.1 then c.y else box.1,
     if c.x + c.width > box.2 then c.x + c.width else box.2,
     if c.y + c.height > box.3 then c.y + c.height else box.3)
  }

  /** The box of the bank size pass over `cells`, taken in order. */
  function Box(cells: seq<Cell>): (int, int, int, int)
  {
    if cells == [] then EmptyBox else Grow(Box(cells[..|cells| - 1]), cells[|cells| - 1])
  }

  /** `box` holds every cell, each of its sides is the start value or a cell's side,
      and no side is further out than the start value. */
  predicate IsBox(cells: seq<Cell>, box: (int, int, int, int))
  {
    box.0 <= 512 && box.1 <= 512 && box.2 >= -512 && box.3 >= -512 &&
    (forall k :: 0 <= k < |cells| ==>
       box.0 <= cells[k].x && box.1 <= cells[k].y && cells[k].x + cells[k].width <= box.2 && cells[k].y + cells[k].height <= box.3) &&
    (box.0 == 512 || exists k :: 0 <= k < |cells| && cells[k].x == box.0) &&
    (box.1 == 512 || exists k :: 0 <= k < |cells| && cells[k].y == box.1) &&
    (box.2 == -512 || exists k :: 0 <= k < |cells| && cells[k].x + cells[k].width == box.2) &&
    (box.3 == -512 || exists k :: 0 <= k < |cells| && cells[k].y + cells[k].height == box.3)
  }

  lemma {:induction false} BoxBounds(cells: seq<Cell>)
    ensures IsBox(cells, Box(cells))
    decreases |cells|
  {
    if cells != [] {
      var n := |cells| - 1;
      var init := cells[..n];
      BoxBounds(init);
      assert forall k :: 0 <= k < n ==> init[k] == cells[k];
    }
  }

  /** The bank size pass: the least `x` and `y` and the greatest right and bottom edges. */
  method BoundingBox(cells: seq<Cell>) returns (minx: int, miny: int, maxx: int, maxy: int)
    ensures (minx, miny, maxx, maxy) == Box(cells)
  {
    minx, miny, maxx, maxy := 512, 512, -512, -512;
    for k := 0 to |cells|
      invariant (minx, miny, maxx, maxy) == Box(cells[..k])
    {
      var c := cells[k];
      assert cells[..k + 1][..k] == cells[..k];
      minx := if c.x < minx then c.x else minx;
      miny := if c.y < miny then c.y else miny;
      maxx := if c.x + c.width > maxx then c.x + c.width else maxx;
      maxy := if c.y + c.height > maxy then c.y + c.height else maxy;
    }
    assert cells[..|cells|] == cells;
  }

  /** The cell moved by `(-dx, -dy)`. */
  function Shifted(c: Cell, dx: int, dy: int): (r: Cell)
    ensures r.x == c.x - dx && r.y == c.y - dy
  {
    c.(x := c.x - dx, y := c.y - dy)
  }

  /** The drawing order: `(priority, numcell)` compared lexicographically. */
  predicate KeyBelow(a: Cell, b: Cell)
  {
    a.priority < b.priority || (a.priority == b.priority && a.numcell < b.numcell)
  }

  predicate KeyAtMost(a: Cell, b: Cell)
  {
    !KeyBelow(b, a)
  }

  /** Non-increasing in the drawing order. */
  predicate Descending(s: seq<Cell>)
  {
    forall i, j :: 0 <= i < j < |s| ==> KeyAtMost(s[j], s[i])
  }

  /** Strictly increasing in the drawing order. */
  predicate Ascending(s: seq<Cell>)
  {
    forall i, j :: 0 <= i < j < |s| ==> KeyBelow(s[i], s[j])
  }

  /** `c` placed into the descending `s` after every cell whose key is not below its own. */
  function Insert(c: Cell, s: seq<Cell>): (r: seq<Cell>)
    ensures multiset(r) == multiset(s) + multiset{c}
    ensures |r| == |s| + 1
  {
    if s == [] || KeyAtMost(s[0], c) then [c] + s
    else
      assert s == [s[0]] + s[1..];
      [s[0]] + Insert(c, s[1..])
  }

  /** Inserting a cell no later than `b` into cells no later than `b` keeps them all
      no later than `b`. */
  lemma {:induction false} InsertBounded(c: Cell, s: seq<Cell>, b: Cell)
    requires forall k :: 0 <= k < |s| ==> KeyAtMost(s[k], b)
    requires KeyAtMost(c, b)
    ensures forall k :: 0 <= k < |Insert(c, s)| ==> KeyAtMost(Insert(c, s)[k], b)
    decreases |s|
  {
    if s != [] && !KeyAtMost(s[0], c) {
      InsertBounded(c, s[1..], b);
      assert Insert(c, s) == [s[0]] + Insert(c, s[1..]);
    }
  }

  lemma {:induction false} InsertDescending(c: Cell, s: seq<Cell>)
    requires Descending(s)
    ensures Descending(Insert(c, s))
    decreases |s|
  {
    var r := Insert(c, s);
    if s == [] || KeyAtMost(s[0], c) {
      assert r == [c] + s;
      forall i, j | 0 <= i < j < |r| ensures KeyAtMost(r[j], r[i]) {
        if i == 0 {
          assert r[j] == s[j - 1];
          assert KeyAtMost(s[j - 1], s[0]) || j == 1;
        } else {
          assert r[i] == s[i - 1] && r[j] == s[j - 1];
        }
      }
    } else {
      var t := Insert(c, s[1..]);
      assert r == [s[0]] + t;
      InsertDescending(c, s[1..]);
      InsertBounded(c, s[1..], s[0]);
      forall i, j | 0 <= i < j < |r| ensures KeyAtMost(r[j], r[i]) {
        if i > 0 {
          assert r[i] == t[i - 1] && r[j] == t[j - 1];
        } else {
          assert r[j] == t[j - 1];
        }
      }
    }
  }


  /** `bank.cells.sort(key=(priority, numcell), reverse=True)` as an insertion sort. */
  function SortDescending(s: seq<Cell>): (r: seq<Cell>)
    ensures multiset(r) == multiset(s)
    ensures |r| == |s|
  {
    if s == [] then []
    else
      assert s == [s[0]] + s[1..];
      Insert(s[0], SortDescending(s[1..]))
  }

  lemma {:induction false} SortDescendingSorted(s: seq<Cell>)
    ensures Descending(SortDescending(s))
    decreases |s|
  {
    if s != [] {
      SortDescendingSorted(s[1..]);
      InsertDescending(s[0], SortDescending(s[1..]));
    }
  }

  /** The cells of a bank as read: cell `k` is cell number `k`. */
  predicate Numbered(s: seq<Cell>)
  {
    forall k :: 0 <= k < |s| ==> s[k].numcell == k
  }

  predicate DistinctNumbers(s: seq<Cell>)
  {
    forall i, j :: 0 <= i < j < |s| ==> s[i].numcell != s[j].numcell
  }

  function Reverse<T>(s: seq<T>): (r: seq<T>)
    ensures |r| == |s| && forall k {:trigger r[k]} :: 0 <= k < |s| ==> r[k] == s[|s| - 1 - k]
  {
    seq(|s|, k requires 0 <= k < |s| => s[|s| - 1 - k])
  }

  lemma ReverseCons<T>(s: seq<T>)
    requires s != []
    ensures Reverse(s) == Reverse(s[1..]) + [s[0]]
  {
    assert forall k :: 0 <= k < |s| - 1 ==> Reverse(s)[k] == Reverse(s[1..])[k];
  }

  /** With distinct cell numbers the descending order has no ties, so its reverse is
      the ascending view `sorted(bank.cells, key=(priority, numcell))`. */
  lemma AscendingView(s: seq<Cell>)
    requires DistinctNumbers(s)
    ensures Ascending(Reverse(SortDescending(s)))
    ensures multiset(Reverse(SortDescending(s))) == multiset(s)
  {
    var d := SortDescending(s);
    SortDescendingSorted(s);
    DistinctPermutation(s, d);
    ReverseAscending(d);
    ReverseMultiset(d);
  }

  lemma ReverseAscending(d: seq<Cell>)
    requires Descending(d) && DistinctNumbers(d)
    ensures Ascending(Reverse(d))
  {
    var r := Reverse(d);
    forall i, j | 0 <= i < j < |r| ensures KeyBelow(r[i], r[j]) {
      var i', j' := |d| - 1 - j, |d| - 1 - i;
      assert r[i] == d[j'] && r[j] == d[i'];
      assert KeyAtMost(d[j'], d[i']);
      assert d[i'].numcell != d[j'].numcell;
    }
  }

  lemma {:induction false} ReverseMultiset<T>(s: seq<T>)
    ensures multiset(Reverse(s)) == multiset(s)
    decreases |s|
  {
    if s != [] {
      ReverseMultiset(s[1..]);
      ReverseCons(s);
      assert s == [s[0]] + s[1..];
    }
  }

  /** A permutation of cells with distinct numbers has distinct numbers. */
  lemma DistinctPermutation(s: seq<Cell>, t: seq<Cell>)
    requires DistinctNumbers(s) && multiset(t) == multiset(s)
    ensures DistinctNumbers(t)
  {
    forall i, j | 0 <= i < j < |t| ensures t[i].numcell != t[j].numcell {
      assert t[i] in multiset(s) && t[j] in multiset(s);
      var a :| 0 <= a < |s| && s[a] == t[i];
      var b :| 0 <= b < |s| && s[b] == t[j];
      CountOnce(s, a);
      assert multiset(t)[t[i]] >= 1 + (if t[j] == t[i] then 1 else 0) by {
        assert t == t[..i] + [t[i]] + t[i + 1..j] + [t[j]] + t[j + 1..];
      }
      assert a != b;
    }
  }

  /** A cell whose number no other cell has occurs once. */
  lemma CountOnce(s: seq<Cell>, a: nat)
    requires DistinctNumbers(s) && a < |s|
    ensures multiset(s)[s[a]] == 1
  {
    assert s == s[..a] + [s[a]] + s[a + 1..];
    forall k | 0 <= k < |s| && k != a ensures s[k] != s[a] {
      assert s[k].numcell != s[a].numcell;
    }
    assert s[a] !in s[..a];
    assert s[a] !in s[a + 1..];
  }

  /** Cell `j` of the ascending view overlaps a cell before it on the current last
      layer, the one cell `j - 1` is on. */
  predicate Opens(asc: seq<Cell>, layer: seq<int>, j: nat)
    requires |layer| == |asc| && 0 < j < |asc|
  {
    exists k :: 0 <= k < j && layer[k] == layer[j - 1] && Intersect(asc[j], asc[k])
  }

  /** The layering of the first `n` cells is the greedy one: the first cell on layer 0,
      each later cell on the last layer unless it overlaps a cell there, else on a new one. */
  predicate GreedyUpTo(asc: seq<Cell>, layer: seq<int>, n: nat)
    requires |layer| == |asc| && n <= |asc|
  {
    (n > 0 ==> layer[0] == 0) &&
    forall j :: 0 < j < n ==> layer[j] == if Opens(asc, layer, j) then layer[j - 1] + 1 else layer[j - 1]
  }

  predicate Greedy(asc: seq<Cell>, layer: seq<int>)
  {
    |layer| == |asc| && GreedyUpTo(asc, layer, |asc|)
  }

  /** The inner loop: does cell `j` overlap another cell on layer `cur`? */
  method Hit(asc: seq<Cell>, layer: seq<int>, cur: int, j: nat) returns (hit: bool)
    requires |layer| == |asc| && j < |asc|
    ensures hit <==> exists k :: 0 <= k < |asc| && k != j && layer[k] == cur && Intersect(asc[j], asc[k])
  {
    hit := false;
    for k := 0 to |asc|
      invariant !exists k' :: 0 <= k' < k && k' != j && layer[k'] == cur && Intersect(asc[j], asc[k'])
    {
      if k != j && layer[k] == cur {
        if Intersect(asc[j], asc[k]) {
          hit := true;
          return;
        }
      }
    }
  }

  /** The layer loop over the ascending view: every cell's layer and the layer count. */
  method AssignLayers(asc: seq<Cell>) returns (layer: seq<int>, layernum: int)
    ensures Greedy(asc, layer)
    ensures layernum == if |asc| == 0 then 0 else layer[|asc| - 1] + 1
  {
    layer := seq(|asc|, _ => -1);
    layernum := 0;
    if |asc| > 0 {
      layernum := 1;
      layer := layer[0 := 0];
      for j := 1 to |asc|
        invariant |layer| == |asc| && layer[0] == 0
        invariant forall k :: j <= k < |asc| ==> layer[k] == -1
        invariant forall k :: 0 <= k < j ==> 0 <= layer[k] < layernum
        invariant layernum == layer[j - 1] + 1
        invariant GreedyUpTo(asc, layer, j)
      {
        var hit := Hit(asc, layer, layernum - 1, j);
        HitOpens(asc, layer, j, hit);
        GreedyStep(asc, layer, j, if hit then layernum else layernum - 1);
        layer := layer[j := if hit then layernum else layernum - 1];
        if hit {
          layernum := layernum + 1;
        }
      }
    }
  }

  /** Only cells before `j` are on a layer yet, so a hit is an overlap with one of them. */
  lemma HitOpens(asc: seq<Cell>, layer: seq<int>, j: nat, hit: bool)
    requires |layer| == |asc| && 0 < j < |asc| && layer[j - 1] >= 0
    requires forall k :: j <= k < |asc| ==> layer[k] == -1
    requires hit <==> exists k :: 0 <= k < |asc| && k != j && layer[k] == layer[j - 1] && Intersect(asc[j], asc[k])
    ensures hit <==> Opens(asc, layer, j)
  {
    if hit {
      var k :| 0 <= k < |asc| && k != j && layer[k] == layer[j - 1] && Intersect(asc[j], asc[k]);
      assert k < j;
    }
  }

  /** Placing cell `j` by the greedy rule extends a greedy layering by one cell. */
  lemma GreedyStep(asc: seq<Cell>, layer: seq<int>, j: nat, v: int)
    requires |layer| == |asc| && 0 < j < |asc| && GreedyUpTo(asc, layer, j)
    requires v == if Opens(asc, layer, j) then layer[j - 1] + 1 else layer[j - 1]
    ensures GreedyUpTo(asc, layer[j := v], j + 1)
  {
    var after := layer[j := v];
    forall m | 0 < m <= j ensures Opens(asc, after, m) == Opens(asc, layer, m) {
      if Opens(asc, layer, m) {
        var k :| 0 <= k < m && layer[k] == layer[m - 1] && Intersect(asc[m], asc[k]);
        assert after[k] == after[m - 1];
      }
      if Opens(asc, after, m) {
        var k :| 0 <= k < m && after[k] == after[m - 1] && Intersect(asc[m], asc[k]);
        assert layer[k] == layer[m - 1];
      }
    }
  }

  /** Each cell is on the layer of the cell before it or on the next one, so layers
      never go down and the last cell's layer is the highest. */
  lemma {:induction false} GreedyMonotone(asc: seq<Cell>, layer: seq<int>, a: nat, b: nat)
    requires Greedy(asc, layer) && a <= b < |asc|
    ensures 0 <= layer[a] <= layer[b] <= layer[a] + (b - a)
    decreases b
  {
    if b > 0 {
      if a < b {
        GreedyMonotone(asc, layer, a, b - 1);
      } else {
        GreedyMonotone(asc, layer, 0, b - 1);
      }
    }
  }

  /** No two cells on one layer overlap. */
  lemma GreedyNoOverlap(asc: seq<Cell>, layer: seq<int>, a: nat, b: nat)
    requires Greedy(asc, layer) && a < b < |asc| && layer[a] == layer[b]
    ensures !Intersect(asc[a], asc[b]) && !Intersect(asc[b], asc[a])
  {
    GreedyMonotone(asc, layer, a, b - 1);
    GreedyMonotone(asc, layer, b - 1, b);
    assert layer[b - 1] == layer[b];
    assert !Opens(asc, layer, b);
  }

  /** The greedy rule leaves no choice: it fixes every cell's layer. */
  lemma {:induction false} GreedyUnique(asc: seq<Cell>, l1: seq<int>, l2: seq<int>, n: nat)
    requires Greedy(asc, l1) && Greedy(asc, l2) && n <= |asc|
    ensures l1[..n] == l2[..n]
    decreases n
  {
    if n > 0 {
      GreedyUnique(asc, l1, l2, n - 1);
      var j := n - 1;
      if j > 0 {
        assert forall k :: 0 <= k < j ==> l1[k] == l2[k] by {
          forall k | 0 <= k < j ensures l1[k] == l2[k] {
            assert l1[..n - 1][k] == l2[..n - 1][k];
          }
        }
        assert Opens(asc, l1, j) == Opens(asc, l2, j);
      }
      assert l1[..n] == l1[..n - 1] + [l1[j]] && l2[..n] == l2[..n - 1] + [l2[j]];
    }
  }

  /** A second cell on the first cell's (non-empty) rectangle starts layer 1. */
  lemma SameRectOpensLayer(asc: seq<Cell>, layer: seq<int>)
    requires Greedy(asc, layer) && |asc| >= 2
    requires asc[1].x == asc[0].x && asc[1].y == asc[0].y && asc[1].width == asc[0].width && asc[1].height == asc[0].height
    requires asc[0].width > 0 && asc[0].height > 0
    ensures layer[0] == 0 && layer[1] == 1
  {
    IntersectSameRect(asc[1], asc[0]);
    assert Opens(asc, layer, 1);
  }
}
