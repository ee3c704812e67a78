/** NCER cell banks (readNCER): the file header, the optional partition table, the bank
    headers, the cells of each bank, and the pass over each bank that re-origins its
    cells, sorts them for drawing, puts them on layers and marks repeated banks. */
module Ncer {
  import opened Bytes
  import opened Cells

  datatype Header = Header(banknum: u16, tbank: u16, bankoffset: u32, blocksize: byte, partitionoffset: u32)

  /** One bank as the reader leaves it. Fields the file does not set keep the
      defaults of a fresh bank (0, no cells, not a duplicate). */
  datatype Bank = Bank(
    cellnum: u16, cellinfo: u16, celloffset: u32,
    partitionoffset: u32, partitionsize: u32,
    cells: seq<Cell>,
    xmax: int, ymax: int, xmin: int, ymin: int,
    width: int, height: int,
    layernum: int, duplicate: bool)

  datatype Ncer = Ncer(header: Header, maxpartitionsize: u32, firstpartitionoffset: u32, banks: seq<Bank>)

  /** The header fields at 24..40; `blocksize` keeps the low byte of its word. */
  function ReadHeader(file: seq<byte>): (r: Result<Header>)
    ensures r.Ok? <==> 40 <= |file|
    ensures r.Ok? ==> U16At(file, 24) == Ok(r.value.banknum) && U16At(file, 26) == Ok(r.value.tbank)
    ensures r.Ok? ==> U32At(file, 28) == Ok(r.value.bankoffset) && U32At(file, 36) == Ok(r.value.partitionoffset)
    ensures r.Ok? ==> (U32At(file, 32).value - r.value.blocksize) % 0x100 == 0
  {
    var banknum :- U16At(file, 24);
    var tbank :- U16At(file, 26);
    var bankoffset :- U32At(file, 28);
    var blocksize :- U32At(file, 32);
    var partitionoffset :- U32At(file, 36);
    Ok(Header(banknum, tbank, bankoffset, blocksize % 0x100, partitionoffset))
  }

  /** `n` pairs of 32-bit words (partition offset, partition size) from `p` on. */
  function PartitionPairs(file: seq<byte>, p: int, n: nat): (r: Result<seq<(u32, u32)>>)
    ensures r.Ok? <==> n == 0 || (0 <= p && p + 8 * n <= |file|)
    ensures r.Ok? ==> |r.value| == n
    ensures r.Ok? ==> forall k :: 0 <= k < n ==>
              U32At(file, p + 8 * k) == Ok(r.value[k].0) && U32At(file, p + 8 * k + 4) == Ok(r.value[k].1)
    decreases n
  {
    if n == 0 then Ok([])
    else
      var offset :- U32At(file, p);
      var size :- U32At(file, p + 4);
      var rest :- PartitionPairs(file, p + 8, n - 1);
      var pairs := [(offset, size)] + rest;
      assert forall k :: 0 <= k < n ==>
          U32At(file, p + 8 * k) == Ok(pairs[k].0) && U32At(file, p + 8 * k + 4) == Ok(pairs[k].1) by {
        forall k | 0 <= k < n
          ensures U32At(file, p + 8 * k) == Ok(pairs[k].0)
          ensures U32At(file, p + 8 * k + 4) == Ok(pairs[k].1)
        {
          if k > 0 {
            assert p + 8 * k == (p + 8) + 8 * (k - 1);
            assert pairs[k] == rest[k - 1];
          }
        }
      }
      Ok(pairs)
  }

  /** The partition table: absent when its offset is 0 (every bank keeps 0 and 0); else
      the largest partition size and the first partition's offset at `partitionoffset + 24`,
      then one pair per bank `firstpartitionoffset` bytes after that field. */
  function Partitions(file: seq<byte>, h: Header): (r: Result<(u32, u32, seq<(u32, u32)>)>)
    ensures r.Ok? ==> |r.value.2| == h.banknum
    ensures h.partitionoffset == 0 ==> r == Ok((0, 0, NoPartitions(h.banknum)))
  {
    if h.partitionoffset == 0 then Ok((0, 0, NoPartitions(h.banknum)))
    else
      var maxsize :- U32At(file, h.partitionoffset + 24);
      var first :- U32At(file, h.partitionoffset + 28);
      var pairs :- PartitionPairs(file, h.partitionoffset + 24 + first, h.banknum);
      Ok((maxsize, first, pairs))
  }

  /** Every bank without a partition: offset 0, size 0. */
  function NoPartitions(n: nat): (r: seq<(u32, u32)>)
    ensures |r| == n && forall k :: 0 <= k < n ==> r[k] == (0, 0)
  {
    seq(n, _ => (0, 0))
  }

  /** Bytes in one bank header: 16 when it carries the bank's extent (`tbank == 1`), else 8. */
  function HeaderSize(tbank: u16): nat
  {
    if tbank == 1 then 16 else 8
  }

  /** Where the header of bank `i` starts: the headers follow one another from `bankoffset + 24`. */
  function BankHeaderAt(h: Header, i: nat): nat
  {
    h.bankoffset + 24 + (if h.tbank == 1 then 16 * i else 8 * i)
  }

  /** Where the cells of bank `i` start: past its own header, past the headers still to
      come counted at 8 bytes each when `tbank == 0` and at 16 otherwise, and then
      `celloffset` further on. */
  function CellsAt(h: Header, i: nat, celloffset: u32): nat
    requires i < h.banknum
  {
    BankHeaderAt(h, i + 1) + (if h.tbank == 0 then 8 * (h.banknum - i - 1) else 16 * (h.banknum - i - 1)) + celloffset
  }

  /** For the two bank header layouts the cell data of every bank is addressed from the
      end of the whole header table. */
  lemma CellsAfterHeaders(h: Header, i: nat, celloffset: u32)
    requires i < h.banknum && h.tbank <= 1
    ensures CellsAt(h, i, celloffset) == BankHeaderAt(h, h.banknum) + celloffset
  {
  }

  /** The header of bank `i`: cell count, cell info and cell offset, and, when `tbank == 1`,
      the signed extent `xmax, ymax, xmin, ymin` the bank's size is computed from. */
  function ReadBankHeader(file: seq<byte>, h: Header, i: nat): (r: Result<Bank>)
    ensures r.Ok? <==> BankHeaderAt(h, i) + HeaderSize(h.tbank) <= |file|
    ensures r.Ok? ==> var p := BankHeaderAt(h, i);
              U16At(file, p) == Ok(r.value.cellnum) && U16At(file, p + 2) == Ok(r.value.cellinfo) &&
              U32At(file, p + 4) == Ok(r.value.celloffset)
    ensures r.Ok? ==> (r.value.cells == [] && r.value.layernum == 0 && !r.value.duplicate &&
                       r.value.partitionoffset == 0 && r.value.partitionsize == 0)
    ensures r.Ok? && h.tbank == 1 ==>
              r.value.width == r.value.xmax - r.value.xmin + 1 && r.value.height == r.value.ymax - r.value.ymin + 1 &&
              -0x8000 <= r.value.xmin < 0x8000 && -0x8000 <= r.value.xmax < 0x8000
    ensures r.Ok? && h.tbank != 1 ==>
              r.value.width == 0 && r.value.height == 0 && r.value.xmax == r.value.xmin == r.value.ymax == r.value.ymin == 0
  {
    var p := BankHeaderAt(h, i);
    var cellnum :- U16At(file, p);
    var cellinfo :- U16At(file, p + 2);
    var celloffset :- U32At(file, p + 4);
    if h.tbank == 1 then
      var xmax :- U16At(file, p + 8);
      var ymax :- U16At(file, p + 10);
      var xmin :- U16At(file, p + 12);
      var ymin :- U16At(file, p + 14);
      var (x1, y1, x0, y0) := (Signed16(xmax), Signed16(ymax), Signed16(xmin), Signed16(ymin));
      Ok(Bank(cellnum, cellinfo, celloffset, 0, 0, [], x1, y1, x0, y0, x1 - x0 + 1, y1 - y0 + 1, 0, false))
    else
      Ok(Bank(cellnum, cellinfo, celloffset, 0, 0, [], 0, 0, 0, 0, 0, 0, 0, false))
  }

  /** A size from the shape-by-size table. */
  predicate TableSize(wh: (int, int))
  {
    wh.0 in {8, 16, 32, 64} && wh.1 in {8, 16, 32, 64}
  }

  /** Cells as decoded, numbered on from `j`: on no layer yet, at sign-extended positions. */
  predicate DecodedRun(cells: seq<Cell>, j: nat)
  {
    forall k :: 0 <= k < |cells| ==>
      cells[k].numcell == j + k && cells[k].layer == -1 &&
      -0x100 <= cells[k].x < 0x100 && -0x80 <= cells[k].y < 0x80
  }

  /** Every cell has a size from the shape-by-size table. */
  predicate TableSized(cells: seq<Cell>)
  {
    forall k :: 0 <= k < |cells| ==> TableSize((cells[k].width, cells[k].height))
  }

  /** `count` cells from `p` on, numbered from `j`, six bytes each; `prev` is the size of
      the cell decoded last (a shape-3 cell takes it over), and the second component is
      that size once these cells are read. */
  function DecodeCells(file: seq<byte>, p: int, j: nat, count: nat, prev: Option<(int, int)>)
    : (r: Result<(seq<Cell>, Option<(int, int)>)>)
    ensures r.Ok? ==> |r.value.0| == count
    ensures r.Ok? ==> DecodedRun(r.value.0, j)
    ensures r.Ok? && (prev.None? || TableSize(prev.value)) ==> TableSized(r.value.0)
    decreases count
  {
    if count == 0 then Ok(([], prev))
    else
      var c :- CellAt(file, p, j, prev);
      var rest :- DecodeCells(file, p + 6, j + 1, count - 1, Some((c.width, c.height)));
      assert forall k :: 1 <= k < count ==> ([c] + rest.0)[k] == rest.0[k - 1];
      assert DecodedRun(rest.0, j + 1);
      assert (prev.None? || TableSize(prev.value)) ==> TableSized(rest.0);
      Ok(([c] + rest.0, rest.1))
  }

  /** The cell whose three words are at `p`, as cell `j`, after a cell of size `prev`. */
  function CellAt(file: seq<byte>, p: int, j: nat, prev: Option<(int, int)>): (r: Result<Cell>)
    ensures r.Ok? ==> r.value.numcell == j && r.value.layer == -1
    ensures r.Ok? ==> -0x100 <= r.value.x < 0x100 && -0x80 <= r.value.y < 0x80
    ensures r.Ok? && (prev.None? || TableSize(prev.value)) ==> TableSize((r.value.width, r.value.height))
    ensures r.Ok? <==> p + 6 <= |file| && 0 <= p && (Bits(U16At(file, p).value, 0x4000, 4) != 3 || prev.Some?)
  {
    var obj0 :- U16At(file, p);
    var obj1 :- U16At(file, p + 2);
    var obj2 :- U16At(file, p + 4);
    DecodeCell(obj0, obj1, obj2, j, prev)
  }

  /** One turn of the cell loop: three words, one cell. */
  method ReadCell(file: seq<byte>, p: int, j: nat, prev: Option<(int, int)>) returns (r: Result<Cell>)
    ensures r == CellAt(file, p, j, prev)
  {
    var obj0 := U16At(file, p);
    if obj0.Err? {
      return Err(obj0.error);
    }
    var obj1 := U16At(file, p + 2);
    if obj1.Err? {
      return Err(obj1.error);
    }
    var obj2 := U16At(file, p + 4);
    if obj2.Err? {
      return Err(obj2.error);
    }
    r := DecodeCell(obj0.value, obj1.value, obj2.value, j, prev);
  }

  function ConsCells(pre: seq<Cell>, r: Result<(seq<Cell>, Option<(int, int)>)>): Result<(seq<Cell>, Option<(int, int)>)>
  {
    if r.Ok? then Ok((pre + r.value.0, r.value.1)) else r
  }

  /** One cell read ahead: the cells still to come are the next one and the rest. */
  lemma CellsStep(file: seq<byte>, pre: seq<Cell>, p: int, j: nat, count: nat, prev: Option<(int, int)>)
    requires count > 0
    ensures CellAt(file, p, j, prev).Err? ==>
              ConsCells(pre, DecodeCells(file, p, j, count, prev)) == Err(CellAt(file, p, j, prev).error)
    ensures CellAt(file, p, j, prev).Ok? ==>
              var c := CellAt(file, p, j, prev).value;
              ConsCells(pre, DecodeCells(file, p, j, count, prev)) ==
              ConsCells(pre + [c], DecodeCells(file, p + 6, j + 1, count - 1, Some((c.width, c.height))))
  {
    var c := CellAt(file, p, j, prev);
    if c.Ok? {
      var r := DecodeCells(file, p + 6, j + 1, count - 1, Some((c.value.width, c.value.height)));
      if r.Ok? {
        assert pre + ([c.value] + r.value.0) == pre + [c.value] + r.value.0;
      }
    }
  }

  /** The cell loop of one bank. */
  method ReadCells(file: seq<byte>, p: int, count: nat, prev: Option<(int, int)>)
    returns (r: Result<(seq<Cell>, Option<(int, int)>)>)
    ensures r == DecodeCells(file, p, 0, count, prev)
  {
    var cells: seq<Cell> := [];
    var at := p;
    var cellsize := prev;
    ghost var all := DecodeCells(file, p, 0, count, prev);
    assert all.Ok? ==> [] + all.value.0 == all.value.0;
    for j := 0 to count
      invariant all == ConsCells(cells, DecodeCells(file, at, j, count - j, cellsize))
    {
      var cell := ReadCell(file, at, j, cellsize);
      CellsStep(file, cells, at, j, count - j, cellsize);
      if cell.Err? {
        return Err(cell.error);
      }
      var next := Some((cell.value.width, cell.value.height));
      cells := cells + [cell.value];
      cellsize := next;
      at := at + 6;
    }
    assert cells + [] == cells;
    return Ok((cells, cellsize));
  }

  /** Banks `i` onwards, header then cells, with the size of the last cell read so far
      carried from bank to bank. */
  function RawBanks(file: seq<byte>, h: Header, parts: seq<(u32, u32)>, i: nat, prev: Option<(int, int)>)
    : (r: Result<seq<Bank>>)
    requires |parts| == h.banknum
    ensures r.Ok? ==> |r.value| == Count(h.banknum - i)
    ensures r.Ok? ==> forall k :: 0 <= k < |r.value| ==> RawBank(r.value[k])
    decreases h.banknum - i
  {
    if i >= h.banknum then Ok([])
    else
      var b :- ReadBankHeader(file, h, i);
      var cells :- DecodeCells(file, CellsAt(h, i, b.celloffset), 0, b.cellnum, prev);
      var rest :- RawBanks(file, h, parts, i + 1, cells.1);
      var bank := b.(partitionoffset := parts[i].0, partitionsize := parts[i].1, cells := cells.0);
      var banks := [bank] + rest;
      assert forall k :: 0 <= k < |banks| ==> RawBank(banks[k]) by {
        forall k | 0 <= k < |banks| ensures RawBank(banks[k]) {
          if k > 0 {
            assert banks[k] == rest[k - 1];
          }
        }
      }
      Ok(banks)
  }

  /** A bank as read, before its size pass: one cell per count, numbered in order, at
      decoded positions, on no layer. */
  predicate RawBank(b: Bank)
  {
    |b.cells| == b.cellnum && Numbered(b.cells) && b.layernum == 0 && !b.duplicate &&
    forall k :: 0 <= k < |b.cells| ==> -0x100 <= b.cells[k].x < 0x100 && -0x80 <= b.cells[k].y < 0x80 && b.cells[k].layer == -1
  }

  function ConsBanks(pre: seq<Bank>, r: Result<seq<Bank>>): Result<seq<Bank>>
  {
    if r.Ok? then Ok(pre + r.value) else r
  }

  /** The bank loop up to the size pass. */
  method ReadBanks(file: seq<byte>, h: Header, parts: seq<(u32, u32)>) returns (r: Result<seq<Bank>>)
    requires |parts| == h.banknum
    ensures r == RawBanks(file, h, parts, 0, None)
  {
    var banks: seq<Bank> := [];
    var cellsize: Option<(int, int)> := None;
    ghost var all := RawBanks(file, h, parts, 0, None);
    assert all.Ok? ==> [] + all.value == all.value;
    for i := 0 to h.banknum
      invariant all == ConsBanks(banks, RawBanks(file, h, parts, i, cellsize))
    {
      var b := ReadBankHeader(file, h, i);
      if b.Err? {
        return Err(b.error);
      }
      var cells := ReadCells(file, CellsAt(h, i, b.value.celloffset), b.value.cellnum, cellsize);
      if cells.Err? {
        return Err(cells.error);
      }
      var bank := b.value.(partitionoffset := parts[i].0, partitionsize := parts[i].1, cells := cells.value.0);
      var rest := RawBanks(file, h, parts, i + 1, cells.value.1);
      if rest.Ok? {
        assert banks + [bank] + rest.value == banks + ([bank] + rest.value);
      }
      banks := banks + [bank];
      cellsize := cells.value.1;
    }
    assert banks + [] == banks;
    return Ok(banks);
  }

  /** The partition table read in order, as the reader does before the banks. */
  method ReadPartitions(file: seq<byte>, h: Header) returns (r: Result<(u32, u32, seq<(u32, u32)>)>)
    ensures r == Partitions(file, h)
  {
    if h.partitionoffset == 0 {
      return Ok((0, 0, NoPartitions(h.banknum)));
    }
    var maxsize := U32At(file, h.partitionoffset + 24);
    if maxsize.Err? {
      return Err(maxsize.error);
    }
    var first := U32At(file, h.partitionoffset + 28);
    if first.Err? {
      return Err(first.error);
    }
    var at := h.partitionoffset + 24 + first.value;
    var pairs: seq<(u32, u32)> := [];
    ghost var all := PartitionPairs(file, at, h.banknum);
    assert all.Ok? ==> [] + all.value == all.value;
    for i := 0 to h.banknum
      invariant at == h.partitionoffset + 24 + first.value + 8 * i
      invariant PartitionPairs(file, h.partitionoffset + 24 + first.value, h.banknum) ==
                ConsPairs(pairs, PartitionPairs(file, at, h.banknum - i))
    {
      var offset := U32At(file, at);
      if offset.Err? {
        return Err(offset.error);
      }
      var size := U32At(file, at + 4);
      if size.Err? {
        return Err(size.error);
      }
      var rest := PartitionPairs(file, at + 8, h.banknum - i - 1);
      if rest.Ok? {
        assert pairs + [(offset.value, size.value)] + rest.value == pairs + ([(offset.value, size.value)] + rest.value);
      }
      pairs := pairs + [(offset.value, size.value)];
      at := at + 8;
    }
    assert pairs + [] == pairs;
    return Ok((maxsize.value, first.value, pairs));
  }

  function ConsPairs(pre: seq<(u32, u32)>, r: Result<seq<(u32, u32)>>): Result<seq<(u32, u32)>>
  {
    if r.Ok? then Ok(pre + r.value) else r
  }

  /** The whole file up to the size pass: header, partition table, banks as read. */
  function RawNcer(file: seq<byte>): (r: Result<(Header, u32, u32, seq<Bank>)>)
    ensures r.Ok? ==> |r.value.3| == r.value.0.banknum
    ensures r.Ok? ==> forall k :: 0 <= k < |r.value.3| ==> RawBank(r.value.3[k])
    ensures |file| < 40 ==> r.Err?
  {
    var h :- ReadHeader(file);
    var parts :- Partitions(file, h);
    var banks :- RawBanks(file, h, parts.2, 0, None);
    Ok((h, parts.0, parts.1, banks))
  }

  function ShiftAll(cells: seq<Cell>, dx: int, dy: int): (r: seq<Cell>)
    ensures |r| == |cells| && forall k :: 0 <= k < |cells| ==> r[k] == Shifted(cells[k], dx, dy)
  {
    seq(|cells|, k requires 0 <= k < |cells| => Shifted(cells[k], dx, dy))
  }

  /** The bank after its size pass: the box of its cells gives the bank's size when
      `tbank == 0`, and every cell is moved so that the box starts at `(0, 0)`. */
  function Placed(tbank: u16, b: Bank): (r: Bank)
    ensures r.cellnum == b.cellnum && |r.cells| == |b.cells|
  {
    var box := Box(b.cells);
    b.(width := if tbank == 0 then box.2 - box.0 else b.width,
       height := if tbank == 0 then box.3 - box.1 else b.height,
       cells := ShiftAll(b.cells, box.0, box.1))
  }

  /** After the size pass no cell is left or above the origin, some cell touches each
      axis, and for `tbank == 0` every cell lies inside the bank's size. */
  lemma PlacedBounds(tbank: u16, b: Bank)
    requires forall k :: 0 <= k < |b.cells| ==> b.cells[k].x < 512 && b.cells[k].y < 512
    ensures forall k :: 0 <= k < |b.cells| ==> Placed(tbank, b).cells[k].x >= 0 && Placed(tbank, b).cells[k].y >= 0
    ensures |b.cells| > 0 ==> exists k :: 0 <= k < |b.cells| && Placed(tbank, b).cells[k].x == 0
    ensures |b.cells| > 0 ==> exists k :: 0 <= k < |b.cells| && Placed(tbank, b).cells[k].y == 0
    ensures tbank == 0 ==> forall k :: 0 <= k < |b.cells| ==>
              Placed(tbank, b).cells[k].x + Placed(tbank, b).cells[k].width <= Placed(tbank, b).width &&
              Placed(tbank, b).cells[k].y + Placed(tbank, b).cells[k].height <= Placed(tbank, b).height
  {
    var box := Box(b.cells);
    BoxBounds(b.cells);
    if |b.cells| > 0 {
      assert box.0 <= b.cells[0].x < 512;
      var kx :| 0 <= kx < |b.cells| && b.cells[kx].x == box.0;
      assert Placed(tbank, b).cells[kx].x == 0;
      var ky :| 0 <= ky < |b.cells| && b.cells[ky].y == box.1;
      assert Placed(tbank, b).cells[ky].y == 0;
    }
  }

  /** The layer of every cell, in order. */
  function LayerOf(s: seq<Cell>): (r: seq<int>)
    ensures |r| == |s| && forall k :: 0 <= k < |s| ==> r[k] == s[k].layer
  {
    seq(|s|, k requires 0 <= k < |s| => s[k].layer)
  }

  /** The cells of `s`, each put on its layer from `layer`. */
  function SetLayers(s: seq<Cell>, layer: seq<int>): (r: seq<Cell>)
    requires |layer| == |s|
    ensures |r| == |s| && forall k :: 0 <= k < |s| ==> r[k] == s[k].(layer := layer[k])
  {
    seq(|s|, k requires 0 <= k < |s| => s[k].(layer := layer[k]))
  }

  /** `cells` are `sorted`, each possibly on another layer. */
  predicate SortedWithLayers(sorted: seq<Cell>, cells: seq<Cell>)
  {
    |cells| == |sorted| && forall k :: 0 <= k < |sorted| ==> cells[k] == sorted[k].(layer := cells[k].layer)
  }

  /** The layers of `cells` are the greedy layering along their reverse, the ascending view. */
  ghost predicate Layered(cells: seq<Cell>)
  {
    Greedy(Reverse(cells), LayerOf(Reverse(cells)))
  }

  /** `b` is `raw` after its size pass, its sort and its layer pass: the sorted cells, each
      with its layer, the layers greedy along the ascending view, and `layernum` one more
      than the top layer. Nothing else changes but the duplicate mark. */
  ghost predicate Arranged(tbank: u16, raw: Bank, b: Bank)
  {
    var placed := Placed(tbank, raw);
    SortedWithLayers(SortDescending(placed.cells), b.cells) &&
    Layered(b.cells) &&
    b.layernum == (if raw.cellnum > 0 && |b.cells| > 0 then b.cells[0].layer + 1 else raw.layernum) &&
    SameFields(b, placed)
  }

  /** The fields other than the cells, the layer count and the duplicate mark agree. */
  predicate SameFields(a: Bank, b: Bank)
  {
    a.cellnum == b.cellnum && a.cellinfo == b.cellinfo && a.celloffset == b.celloffset &&
    a.partitionoffset == b.partitionoffset && a.partitionsize == b.partitionsize &&
    a.xmax == b.xmax && a.ymax == b.ymax && a.xmin == b.xmin && a.ymin == b.ymin &&
    a.width == b.width && a.height == b.height
  }

  lemma SameOpens(a: seq<Cell>, layer: seq<int>, j: nat)
    requires |layer| == |a| && 0 < j < |a|
    ensures Opens(SetLayers(a, layer), layer, j) == Opens(a, layer, j)
  {
    var a2 := SetLayers(a, layer);
    if Opens(a, layer, j) {
      var k :| 0 <= k < j && layer[k] == layer[j - 1] && Intersect(a[j], a[k]);
      assert Intersect(a2[j], a2[k]);
    }
    if Opens(a2, layer, j) {
      var k :| 0 <= k < j && layer[k] == layer[j - 1] && Intersect(a2[j], a2[k]);
      assert Intersect(a[j], a[k]);
    }
  }

  /** Layers written onto the cells read back as the layering they came from: only
      rectangles decide overlaps. */
  lemma GreedyRelabel(a: seq<Cell>, layer: seq<int>)
    requires |layer| == |a| && Greedy(a, layer)
    ensures Greedy(SetLayers(a, layer), LayerOf(SetLayers(a, layer)))
  {
    assert LayerOf(SetLayers(a, layer)) == layer;
    forall j | 0 < j < |a| ensures Opens(SetLayers(a, layer), layer, j) == Opens(a, layer, j) {
      SameOpens(a, layer, j);
    }
  }

  lemma ReverseReverse(s: seq<Cell>)
    ensures Reverse(Reverse(s)) == s
  {
    var r := Reverse(s);
    assert forall k :: 0 <= k < |s| ==> Reverse(r)[k] == r[|s| - 1 - k] == s[k];
  }

  /** The greedy layers over the ascending view, written back onto the drawing order. */
  lemma LayeredBack(sorted: seq<Cell>, layer: seq<int>)
    requires |layer| == |sorted| > 0 && Greedy(Reverse(sorted), layer)
    ensures SortedWithLayers(sorted, Reverse(SetLayers(Reverse(sorted), layer)))
    ensures Layered(Reverse(SetLayers(Reverse(sorted), layer)))
    ensures Reverse(SetLayers(Reverse(sorted), layer))[0].layer == layer[|layer| - 1]
  {
    var asc := Reverse(sorted);
    var layered := SetLayers(asc, layer);
    var cells := Reverse(layered);
    var n := |sorted|;
    GreedyRelabel(asc, layer);
    ReverseReverse(layered);
    forall k | 0 <= k < n ensures cells[k] == sorted[k].(layer := cells[k].layer) {
      assert cells[k] == layered[n - 1 - k];
      assert asc[n - 1 - k] == sorted[k];
    }
    assert cells[0] == layered[n - 1];
  }

  /** The per-bank pass: size, re-origin, sort for drawing, layers over the ascending view. */
  method FinishBank(tbank: u16, raw: Bank) returns (b: Bank)
    requires |raw.cells| == raw.cellnum
    ensures Arranged(tbank, raw, b)
    ensures b.cellnum == raw.cellnum && |b.cells| == |raw.cells|
  {
    var minx, miny, maxx, maxy := BoundingBox(raw.cells);
    var sorted := SortDescending(ShiftAll(raw.cells, minx, miny));
    var cells, layernum := LayerCells(sorted, raw.cellnum, raw.layernum);
    b := raw.(width := if tbank == 0 then maxx - minx else raw.width,
              height := if tbank == 0 then maxy - miny else raw.height,
              cells := cells, layernum := layernum);
    assert sorted == SortDescending(Placed(tbank, raw).cells);
    assert SameFields(b, Placed(tbank, raw));
  }

  /** The layer pass over the sorted cells of a bank with `cellnum` cells. */
  method LayerCells(sorted: seq<Cell>, cellnum: int, layernum0: int) returns (cells: seq<Cell>, layernum: int)
    requires |sorted| == cellnum
    ensures SortedWithLayers(sorted, cells) && Layered(cells)
    ensures layernum == if cellnum > 0 then cells[0].layer + 1 else layernum0
  {
    cells, layernum := sorted, layernum0;
    if cellnum > 0 {
      var asc := Reverse(cells);
      var layer;
      layer, layernum := AssignLayers(asc);
      LayeredBack(cells, layer);
      cells := Reverse(SetLayers(asc, layer));
    } else {
      assert Reverse(cells) == [] && LayerOf([]) == [];
    }
  }

  /** What the duplicate test compares: each cell's size and first tile, in drawing order. */
  function Outlines(cells: seq<Cell>): (r: seq<(int, int, int)>)
    ensures |r| == |cells| && forall k :: 0 <= k < |cells| ==> r[k] == (cells[k].width, cells[k].height, cells[k].tileoffset)
  {
    seq(|cells|, k requires 0 <= k < |cells| => (cells[k].width, cells[k].height, cells[k].tileoffset))
  }

  /** Two banks the duplicate pass treats as the same: as many cells, the same outlines. */
  predicate Twin(a: Bank, b: Bank)
  {
    a.cellnum == b.cellnum && Outlines(a.cells) == Outlines(b.cells)
  }

  /** The cell-by-cell comparison of two banks with the same cell count. */
  method SameCells(a: Bank, b: Bank) returns (same: bool)
    requires |a.cells| == a.cellnum && |b.cells| == b.cellnum && a.cellnum == b.cellnum
    ensures same <==> Outlines(a.cells) == Outlines(b.cells)
  {
    for i := 0 to a.cellnum
      invariant forall k :: 0 <= k < i ==> Outlines(a.cells)[k] == Outlines(b.cells)[k]
    {
      if a.cells[i].width != b.cells[i].width || a.cells[i].height != b.cells[i].height ||
         a.cells[i].tileoffset != b.cells[i].tileoffset {
        assert Outlines(a.cells)[i] != Outlines(b.cells)[i];
        return false;
      }
    }
    return true;
  }

  /** A bank before `k` that is its twin, among the first `i`. */
  predicate EarlierTwin(banks: seq<Bank>, i: nat, k: nat)
    requires k < |banks|
  {
    exists j :: 0 <= j < i && j < k && Twin(banks[j], banks[k])
  }

  /** The duplicate pass: each bank not yet marked marks every later unmarked twin. */
  method FindDuplicates(banks: seq<Bank>) returns (dup: seq<bool>)
    requires forall k :: 0 <= k < |banks| ==> |banks[k].cells| == banks[k].cellnum
    ensures |dup| == |banks|
    ensures forall k :: 0 <= k < |banks| ==> (dup[k] <==> exists j :: 0 <= j < k && Twin(banks[j], banks[k]))
  {
    dup := seq(|banks|, _ => false);
    for i := 0 to |banks|
      invariant |dup| == |banks|
      invariant forall k :: 0 <= k < |banks| ==> (dup[k] <==> EarlierTwin(banks, i, k))
    {
      if !dup[i] {
        for i2 := 0 to |banks|
          invariant |dup| == |banks|
          invariant forall k :: 0 <= k < |banks| ==>
                      (dup[k] <==> EarlierTwin(banks, i, k) || (i < k < i2 && Twin(banks[i], banks[k])))
        {
          if !dup[i2] && i2 != i && banks[i].cellnum == banks[i2].cellnum {
            var same := SameCells(banks[i], banks[i2]);
            if same {
              assert i < i2;
              dup := dup[i2 := true];
            }
          }
        }
        forall k | 0 <= k < |banks| ensures EarlierTwin(banks, i + 1, k) <==> EarlierTwin(banks, i, k) || (i < k && Twin(banks[i], banks[k])) {
          if EarlierTwin(banks, i + 1, k) {
            var j :| 0 <= j < i + 1 && j < k && Twin(banks[j], banks[k]);
            if j == i {
              assert i < k && Twin(banks[i], banks[k]);
            }
          }
        }
      } else {
        forall k | 0 <= k < |banks| ensures EarlierTwin(banks, i + 1, k) ==> EarlierTwin(banks, i, k) {
          if EarlierTwin(banks, i + 1, k) {
            var j :| 0 <= j < i + 1 && j < k && Twin(banks[j], banks[k]);
            if j == i {
              var j' :| 0 <= j' < i && j' < i && Twin(banks[j'], banks[i]);
              assert Twin(banks[j'], banks[k]);
            }
          }
        }
      }
    }
    forall k | 0 <= k < |banks| ensures EarlierTwin(banks, |banks|, k) <==> exists j :: 0 <= j < k && Twin(banks[j], banks[k]) {
    }
  }

  /** The banks after the whole pass: each one arranged from its raw form, and a
      duplicate exactly when an earlier bank is its twin. */
  ghost predicate Assembled(tbank: u16, raw: seq<Bank>, banks: seq<Bank>)
  {
    |banks| == |raw| &&
    (forall i :: 0 <= i < |raw| ==> Arranged(tbank, raw[i], banks[i])) &&
    (forall i :: 0 <= i < |banks| ==> (banks[i].duplicate <==> exists j :: 0 <= j < i && Twin(banks[j], banks[i])))
  }

  /** readNCER. */
  method ReadNcer(file: seq<byte>) returns (r: Result<Ncer>)
    ensures r.Ok? <==> RawNcer(file).Ok?
    ensures r.Err? ==> r.error == RawNcer(file).error
    ensures r.Ok? ==> r.value.header == RawNcer(file).value.0 &&
                      r.value.maxpartitionsize == RawNcer(file).value.1 &&
                      r.value.firstpartitionoffset == RawNcer(file).value.2 &&
                      Assembled(r.value.header.tbank, RawNcer(file).value.3, r.value.banks)
  {
    var h := ReadHeader(file);
    if h.Err? {
      return Err(h.error);
    }
    var parts := ReadPartitions(file, h.value);
    if parts.Err? {
      return Err(parts.error);
    }
    var raw := ReadBanks(file, h.value, parts.value.2);
    if raw.Err? {
      return Err(raw.error);
    }
    var tbank := h.value.tbank;
    var fin := FinishBanks(tbank, raw.value);
    var dup := FindDuplicates(fin);
    AssembledOf(tbank, raw.value, fin, dup);
    return Ok(Ncer(h.value, parts.value.0, parts.value.1, Marked(fin, dup)));
  }

  /** The per-bank pass over every bank in turn. */
  method FinishBanks(tbank: u16, raw: seq<Bank>) returns (fin: seq<Bank>)
    requires forall k :: 0 <= k < |raw| ==> RawBank(raw[k])
    ensures |fin| == |raw|
    ensures forall k :: 0 <= k < |raw| ==> Arranged(tbank, raw[k], fin[k])
    ensures forall k :: 0 <= k < |raw| ==> |fin[k].cells| == fin[k].cellnum
  {
    fin := [];
    for i := 0 to |raw|
      invariant |fin| == i
      invariant forall k :: 0 <= k < i ==> Arranged(tbank, raw[k], fin[k])
      invariant forall k :: 0 <= k < i ==> |fin[k].cells| == fin[k].cellnum
    {
      assert RawBank(raw[i]);
      var b := FinishBank(tbank, raw[i]);
      ArrangedSnoc(tbank, raw, fin, b);
      fin := fin + [b];
    }
  }

  lemma ArrangedSnoc(tbank: u16, raw: seq<Bank>, fin: seq<Bank>, b: Bank)
    requires |fin| < |raw|
    requires forall k :: 0 <= k < |fin| ==> Arranged(tbank, raw[k], fin[k]) && |fin[k].cells| == fin[k].cellnum
    requires Arranged(tbank, raw[|fin|], b) && |b.cells| == b.cellnum
    ensures forall k :: 0 <= k <= |fin| ==> Arranged(tbank, raw[k], (fin + [b])[k]) && |(fin + [b])[k].cells| == (fin + [b])[k].cellnum
  {
    forall k | 0 <= k <= |fin|
      ensures Arranged(tbank, raw[k], (fin + [b])[k]) && |(fin + [b])[k].cells| == (fin + [b])[k].cellnum
    {
      if k < |fin| {
        assert (fin + [b])[k] == fin[k];
      } else {
        assert (fin + [b])[k] == b;
      }
    }
  }

  /** The banks with their duplicate marks set. */
  function Marked(banks: seq<Bank>, dup: seq<bool>): (r: seq<Bank>)
    requires |dup| == |banks|
    ensures |r| == |banks| && forall k :: 0 <= k < |banks| ==> r[k] == banks[k].(duplicate := dup[k])
  {
    seq(|banks|, k requires 0 <= k < |banks| => banks[k].(duplicate := dup[k]))
  }

  lemma ArrangedMarked(tbank: u16, raw: Bank, b: Bank, d: bool)
    requires Arranged(tbank, raw, b)
    ensures Arranged(tbank, raw, b.(duplicate := d))
  {
  }

  lemma AssembledOf(tbank: u16, raw: seq<Bank>, fin: seq<Bank>, dup: seq<bool>)
    requires |fin| == |raw| && |dup| == |fin|
    requires forall k :: 0 <= k < |raw| ==> Arranged(tbank, raw[k], fin[k])
    requires forall k :: 0 <= k < |fin| ==> (dup[k] <==> exists j :: 0 <= j < k && Twin(fin[j], fin[k]))
    ensures Assembled(tbank, raw, Marked(fin, dup))
  {
    var banks := Marked(fin, dup);
    forall k | 0 <= k < |raw| ensures Arranged(tbank, raw[k], banks[k]) {
      ArrangedMarked(tbank, raw[k], fin[k], dup[k]);
    }
    forall k | 0 <= k < |fin| ensures banks[k].duplicate <==> exists j :: 0 <= j < k && Twin(banks[j], banks[k]) {
      assert forall j :: 0 <= j < k ==> (Twin(banks[j], banks[k]) <==> Twin(fin[j], fin[k]));
    }
  }

  /** No two distinct cells of an arranged bank share a layer and overlap. */
  lemma LayeredNoOverlap(cells: seq<Cell>, p: nat, q: nat)
    requires Layered(cells) && p < |cells| && q < |cells| && p != q
    requires cells[p].layer == cells[q].layer
    ensures !Intersect(cells[p], cells[q])
  {
    var asc := Reverse(cells);
    var n := |cells|;
    var p', q' := n - 1 - p, n - 1 - q;
    assert asc[p'] == cells[p] && asc[q'] == cells[q];
    if p' < q' {
      GreedyNoOverlap(asc, LayerOf(asc), p', q');
    } else {
      GreedyNoOverlap(asc, LayerOf(asc), q', p');
    }
  }

  /** Along layered cells every layer lies between 0 and the layer of the first cell, and
      the last cell, the first of the ascending view, is on layer 0; so in an arranged bank
      every layer is below `layernum`. */
  lemma LayeredRange(cells: seq<Cell>)
    requires Layered(cells) && |cells| > 0
    ensures cells[|cells| - 1].layer == 0
    ensures forall k :: 0 <= k < |cells| ==> 0 <= cells[k].layer <= cells[0].layer
  {
    var asc := Reverse(cells);
    var n := |cells|;
    assert asc[0] == cells[n - 1] && asc[n - 1] == cells[0];
    forall k | 0 <= k < n ensures 0 <= cells[k].layer <= cells[0].layer {
      assert asc[n - 1 - k] == cells[k];
      GreedyMonotone(asc, LayerOf(asc), n - 1 - k, n - 1);
    }
  }

  /** Decoded cells carry their own numbers, so the drawing order has no ties and its
      reverse is the ascending view the layers are computed on. */
  lemma ArrangedView(tbank: u16, raw: Bank, b: Bank)
    requires Arranged(tbank, raw, b) && RawBank(raw)
    ensures Ascending(Reverse(b.cells))
    ensures Descending(b.cells)
  {
    var placed := Placed(tbank, raw);
    var sorted := SortDescending(placed.cells);
    assert DistinctNumbers(placed.cells) by {
      forall i, j | 0 <= i < j < |placed.cells| ensures placed.cells[i].numcell != placed.cells[j].numcell {
        assert placed.cells[i].numcell == raw.cells[i].numcell == i;
        assert placed.cells[j].numcell == raw.cells[j].numcell == j;
      }
    }
    AscendingView(placed.cells);
    SortDescendingSorted(placed.cells);
    assert forall k :: 0 <= k < |sorted| ==> b.cells[k].priority == sorted[k].priority && b.cells[k].numcell == sorted[k].numcell;
    SameKeys(sorted, b.cells);
  }

  /** Cells with the same keys position by position are in the same order. */
  lemma SameKeys(sorted: seq<Cell>, cells: seq<Cell>)
    requires |cells| == |sorted|
    requires forall k :: 0 <= k < |sorted| ==> cells[k].priority == sorted[k].priority && cells[k].numcell == sorted[k].numcell
    requires Ascending(Reverse(sorted)) && Descending(sorted)
    ensures Ascending(Reverse(cells)) && Descending(cells)
  {
    SameKeysReversed(sorted, cells);
    var n := |cells|;
    forall i, j | 0 <= i < j < n ensures KeyAtMost(cells[j], cells[i]) {
      assert KeyAtMost(sorted[j], sorted[i]);
    }
  }

  lemma SameKeysReversed(sorted: seq<Cell>, cells: seq<Cell>)
    requires |cells| == |sorted|
    requires forall k :: 0 <= k < |sorted| ==> cells[k].priority == sorted[k].priority && cells[k].numcell == sorted[k].numcell
    requires Ascending(Reverse(sorted))
    ensures Ascending(Reverse(cells))
  {
    var n := |cells|;
    var rs, rc := Reverse(sorted), Reverse(cells);
    forall i, j | 0 <= i < j < n ensures KeyBelow(rc[i], rc[j]) {
      assert rc[i] == cells[n - 1 - i] && rs[i] == sorted[n - 1 - i];
      assert rc[j] == cells[n - 1 - j] && rs[j] == sorted[n - 1 - j];
      assert KeyBelow(rs[i], rs[j]);
    }
  }
}
