/** NCGR tile store: the header, the unpacking of the payload into 64-pixel tiles,
    and the re-encoding of index images back into tile bytes. */
module Ncgr {
  import opened Bytes

  /** Edge of a tile in pixels (the source's `ncgr.tilesize`). */
  const TileSize := 8
  /** Offset of the payload in the file: the position after the fixed header. */
  const PayloadOffset := 48

  datatype Ncgr = Ncgr(
    width: int,          // in pixels, unless the header holds the 0xFFFF marker
    height: int,
    bpp: int,            // 4 or 8
    lineal: bool,        // linear rather than tiled pixel addressing
    tilelen: u32,        // payload length from the header
    tileoffset: nat,     // where the payload starts: tiles are re-encoded there
    tiles: seq<seq<byte>>)

  predicate ValidDepth(bpp: int) { bpp == 4 || bpp == 8 }

  /** Bytes per tile: `32 * (bpp // 4)`. */
  function TileBytes(bpp: int): nat
    requires ValidDepth(bpp)
  {
    if bpp == 4 then 32 else 64
  }

  /** Bytes each pair of pixels takes: one at 4 bpp, two at 8 bpp. */
  function PairWidth(bpp: int): nat
    requires ValidDepth(bpp)
  {
    if bpp == 4 then 1 else 2
  }

  /** Nibble `h` of a byte: `(b >> (h << 2)) & 0x0f`. */
  function Nibble(b: byte, h: nat): (r: int)
    requires h < 2
    ensures 0 <= r < 16
  {
    if h == 0 then b - 16 * Shr4(b) else Shr4(b)
  }

  /** The number of pixels a payload of `data` holds. */
  function PixelCount(data: seq<byte>, bpp: int): nat
    requires ValidDepth(bpp)
  {
    if bpp == 4 then 2 * |data| else |data|
  }

  /** Pixel `x` of the payload (pixel `k` of tile `t` is `x = 64 * t + k`):
      at 4 bpp the low nibble of each byte comes first. */
  function Pixel(data: seq<byte>, bpp: int, x: nat): (r: byte)
    requires ValidDepth(bpp) && x < PixelCount(data, bpp)
    ensures bpp == 4 ==> r < 16
  {
    if bpp == 4 then Nibble(data[Half(x)], x - 2 * Half(x)) else data[x]
  }

  /** The number of whole tiles in a payload of `tilelen` bytes. */
  function TileCount(tilelen: int, bpp: int): (n: nat)
    requires tilelen >= 0 && ValidDepth(bpp)
    ensures n * TileBytes(bpp) <= tilelen < (n + 1) * TileBytes(bpp)
  {
    tilelen / TileBytes(bpp)
  }

  /** `count` whole tiles fit in the payload exactly when their pixels do. */
  lemma PayloadBound(data: seq<byte>, bpp: int, count: nat)
    requires ValidDepth(bpp)
    ensures count * TileBytes(bpp) <= |data| <==> 64 * count <= PixelCount(data, bpp)
  {
  }

  /** A pixel read from a prefix of the payload is the pixel of the whole payload. */
  lemma PixelPrefix(a: seq<byte>, b: seq<byte>, bpp: int, x: nat)
    requires ValidDepth(bpp) && x < PixelCount(a, bpp) && a <= b
    ensures x < PixelCount(b, bpp) && Pixel(a, bpp, x) == Pixel(b, bpp, x)
  {
  }

  /** `tiles` are the first `count` tiles of the payload `data`: pixel `k` of tile `t`
      is pixel `64 * t + k` of the payload. */
  predicate TilesOf(tiles: seq<seq<byte>>, data: seq<byte>, bpp: int, count: nat)
    requires ValidDepth(bpp)
  {
    |tiles| == count && 64 * count <= PixelCount(data, bpp) &&
    (forall t :: 0 <= t < count ==> |tiles[t]| == 64) &&
    forall t, k :: 0 <= t < count && 0 <= k < 64 ==> tiles[t][k] == Pixel(data, bpp, 64 * t + k)
  }

  /** Tiles read from a prefix of the payload are tiles of the whole payload. */
  lemma TilesOfPrefix(tiles: seq<seq<byte>>, a: seq<byte>, b: seq<byte>, bpp: int, count: nat)
    requires ValidDepth(bpp) && a <= b && TilesOf(tiles, a, bpp, count)
    ensures TilesOf(tiles, b, bpp, count)
  {
    forall t, k | 0 <= t < count && 0 <= k < 64
      ensures tiles[t][k] == Pixel(b, bpp, 64 * t + k)
    {
      PixelPrefix(a, b, bpp, 64 * t + k);
    }
  }

  /** Splits the payload into tiles of 64 indices each (readNCGR's nested loops). */
  method UnpackTiles(data: seq<byte>, bpp: int, count: nat) returns (tiles: seq<seq<byte>>)
    requires ValidDepth(bpp) && 64 * count <= PixelCount(data, bpp)
    ensures TilesOf(tiles, data, bpp, count)
  {
    tiles := [];
    for i := 0 to count
      invariant |tiles| == i
      invariant forall t :: 0 <= t < i ==> |tiles[t]| == 64
      invariant forall t, k :: 0 <= t < i && 0 <= k < 64 ==>
                  tiles[t][k] == Pixel(data, bpp, 64 * t + k)
    {
      var singletile: seq<byte> := [];
      for j := 0 to TileSize * TileSize
        invariant |singletile| == j
        invariant forall k :: 0 <= k < j ==> singletile[k] == Pixel(data, bpp, 64 * i + k)
      {
        var x := i * (TileSize * TileSize) + j;
        var index := Pixel(data, bpp, x);
        singletile := singletile + [index];
      }
      tiles := tiles + [singletile];
    }
  }

  /** readNCGR: the header fields at their fixed offsets, then the payload split into
      tiles. A payload shorter than its whole tiles raises IndexError in the source. */
  method ReadNcgr(file: seq<byte>) returns (r: Result<Ncgr>)
    ensures r.Ok? ==> ValidDepth(r.value.bpp) && r.value.tileoffset == PayloadOffset
    ensures r.Ok? ==> 44 <= |file|
    ensures r.Ok? ==> r.value.bpp == (if U32At(file, 28).value == 4 then 8 else 4)
    ensures r.Ok? ==> (r.value.lineal <==> U32At(file, 36).value % 0x100 != 0)
    ensures r.Ok? ==> r.value.tilelen == U32At(file, 40).value
    ensures r.Ok? ==> var w, h := U16At(file, 26).value, U16At(file, 24).value;
              if w == 0xFFFF then r.value.width == w && r.value.height == h
              else r.value.width == 8 * w && r.value.height == 8 * h
    ensures r.Ok? ==> |r.value.tiles| == TileCount(r.value.tilelen, r.value.bpp)
    ensures r.Ok? ==> 64 * |r.value.tiles| <= PixelCount(ReadBytes(file, PayloadOffset, -1), r.value.bpp)
    ensures r.Ok? ==> forall t, k :: 0 <= t < |r.value.tiles| && 0 <= k < 64 ==>
              |r.value.tiles[t]| == 64 &&
              r.value.tiles[t][k] == Pixel(ReadBytes(file, PayloadOffset, -1), r.value.bpp, 64 * t + k)
    ensures |file| < 44 ==> r.Err?
    ensures |file| >= PayloadOffset ==>
              (r.Ok? || r == Err(IndexOutOfRange(|file| - PayloadOffset)))
  {
    var height :- U16At(file, 24);
    var width :- U16At(file, 26);
    var depth :- U32At(file, 28);
    var bpp := if depth == 0x04 then 8 else 4;
    var flag :- U32At(file, 36);
    var lineal := flag % 0x100 != 0;
    var tilelen :- U32At(file, 40);
    var tiledata := ReadBytes(file, PayloadOffset, tilelen);
    if width != 0xFFFF {
      width, height := width * TileSize, height * TileSize;
    }
    var count := TileCount(tilelen, bpp);
    PayloadBound(tiledata, bpp, count);
    if count * TileBytes(bpp) > |tiledata| {
      return Err(IndexOutOfRange(|tiledata|));
    }
    var tiles := UnpackTiles(tiledata, bpp, count);
    TilesOfPrefix(tiles, tiledata, ReadBytes(file, PayloadOffset, -1), bpp, count);
    return Ok(Ncgr(width, height, bpp, lineal, tilelen, PayloadOffset, tiles));
  }

  /** The byte writeNCGRData packs at 4 bpp, `(index2 << 4) | index1`: `index1`'s low
      nibble, under `index2 | (index1 >> 4)`; it fits in a byte exactly when `index2`
      fits in a nibble. */
  lemma PackedNibbles(index1: byte, index2: byte)
    ensures BitOr(16 * index2, index1) == 16 * BitOr(index2, index1 / 16) + index1 % 16
    ensures BitOr(16 * index2, index1) < 256 <==> index2 < 16
  {
    BitOrNibble(index2, index1);
    assert Pow2(4) == 16;
    if index2 < 16 {
      BitOrBelow(index2, index1 / 16, 4);
    } else {
      BitOrAtLeast(index2, index1 / 16);
    }
  }

  /** The bytes writeNCGRData emits for two indices: at 4 bpp the one byte
      `(index2 << 4) | index1`, which `writeByte` refuses once it exceeds a byte; at
      8 bpp both indices in turn. */
  function PackPair(bpp: int, index1: byte, index2: byte): (r: Result<seq<byte>>)
    requires ValidDepth(bpp)
    ensures r.Ok? <==> (bpp == 4 ==> index2 < 16)
    ensures r.Ok? ==> |r.value| == PairWidth(bpp)
    ensures r.Err? ==> r.error.ValueTooLarge? && r.error.value >= 256
  {
    if bpp == 4 then
      var v := BitOr(16 * index2, index1);
      PackedNibbles(index1, index2);
      if v < 256 then Ok([v as byte]) else Err(ValueTooLarge(v))
    else Ok([index1, index2])
  }

  /** At 4 bpp an `index1` of 16 or more is not refused: its high bits spill into the
      nibble of `index2`, and only its low nibble reads back in its place. */
  lemma PackPairSpill(index1: byte, index2: byte)
    requires index2 < 16
    ensures PackPair(4, index1, index2).Ok?
    ensures Pixel(PackPair(4, index1, index2).value, 4, 0) == index1 % 16
    ensures Pixel(PackPair(4, index1, index2).value, 4, 1) == BitOr(index2, index1 / 16)
  {
    PackedNibbles(index1, index2);
    var v := BitOr(16 * index2, index1);
    var hi := BitOr(index2, index1 / 16);
    assert Half(0) == 0 && Half(1) == 0;
    DivModUnique(v, 16, Shr4(v), v - 16 * Shr4(v));
    DivModUnique(v, 16, hi, index1 % 16);
  }

  /** Unpacking what writeNCGRData packed gives back the two indices, first one first. */
  lemma PackPairRoundTrip(bpp: int, index1: byte, index2: byte)
    requires ValidDepth(bpp) && (bpp == 4 ==> index1 < 16 && index2 < 16)
    ensures PackPair(bpp, index1, index2).Ok?
    ensures Pixel(PackPair(bpp, index1, index2).value, bpp, 0) == index1
    ensures Pixel(PackPair(bpp, index1, index2).value, bpp, 1) == index2
  {
    if bpp == 4 {
      PackPairSpill(index1, index2);
      assert BitOr(index2, index1 / 16) == BitOr(index2, 0) == index2;
    }
  }

  /** The palette index the re-encoder picks for the image pixel at (x, y):
      the source's `getPaletteIndex(palette, pixels[x, y])` with the palette fixed. */
  type IndexImage = (int, int) -> byte

  /** The index at pixel (j2, i2) of the 8x8 window whose top-left pixel is (ox, oy). */
  function Window(q: IndexImage, ox: int, oy: int, i2: int, j2: int): byte
  {
    q(ox + j2, oy + i2)
  }

  /** At 4 bpp every index of the 8x8 window at (ox, oy) fits in a nibble. */
  ghost predicate FitsWindow(bpp: int, q: IndexImage, ox: int, oy: int)
  {
    bpp == 4 ==> forall i2, j2 :: 0 <= i2 < 8 && 0 <= j2 < 8 ==> Window(q, ox, oy, i2, j2) < 16
  }

  /** At 4 bpp every index of row `i2` of the window at (ox, oy) fits in a nibble. */
  ghost predicate FitsRow(bpp: int, q: IndexImage, ox: int, oy: int, i2: int)
  {
    bpp == 4 ==> forall j2 :: 0 <= j2 < 8 ==> Window(q, ox, oy, i2, j2) < 16
  }

  /** At 4 bpp every index of the image fits in a nibble. */
  ghost predicate FitsImage(bpp: int, q: IndexImage)
  {
    bpp == 4 ==> forall x, y :: q(x, y) < 16
  }

  lemma FitsImageWindow(bpp: int, q: IndexImage, ox: int, oy: int)
    requires FitsImage(bpp, q)
    ensures FitsWindow(bpp, q, ox, oy)
  {
  }

  /** The first `k` pairs of row `i2` of the window at (ox, oy), as writeNCGRTile's
      inner loop emits them: pair `k` holds columns `2 * k` and `2 * k + 1`. */
  function RowBytes(bpp: int, q: IndexImage, ox: int, oy: int, i2: nat, k: nat): (r: seq<byte>)
    requires ValidDepth(bpp) && FitsRow(bpp, q, ox, oy, i2) && k <= 4
    ensures |r| == if bpp == 4 then k else 2 * k
  {
    if k == 0 then []
    else RowBytes(bpp, q, ox, oy, i2, k - 1) +
         PackPair(bpp, Window(q, ox, oy, i2, 2 * (k - 1)), Window(q, ox, oy, i2, 2 * (k - 1) + 1)).value
  }

  /** The first `n` rows of the window at (ox, oy), encoded. */
  function TileRows(bpp: int, q: IndexImage, ox: int, oy: int, n: nat): (r: seq<byte>)
    requires ValidDepth(bpp) && FitsWindow(bpp, q, ox, oy) && n <= 8
    ensures |r| == if bpp == 4 then 4 * n else 8 * n
  {
    if n == 0 then []
    else
      assert FitsRow(bpp, q, ox, oy, n - 1);
      TileRows(bpp, q, ox, oy, n - 1) + RowBytes(bpp, q, ox, oy, n - 1, 4)
  }

  /** The tile whose top-left pixel is (ox, oy), encoded (writeNCGRTile). */
  function EncodeTile(bpp: int, q: IndexImage, ox: int, oy: int): (r: seq<byte>)
    requires ValidDepth(bpp) && FitsWindow(bpp, q, ox, oy)
    ensures |r| == TileBytes(bpp)
  {
    TileRows(bpp, q, ox, oy, 8)
  }

  /** writeNCGRData: the packed pair written at the stream position `at`; a packed
      value past a byte is refused before anything is written. */
  method WriteData(buf: array<byte>, at: nat, bpp: int, index1: byte, index2: byte) returns (r: Result<()>)
    requires ValidDepth(bpp)
    requires at + PairWidth(bpp) <= buf.Length
    modifies buf
    ensures r.Ok? <==> PackPair(bpp, index1, index2).Ok?
    ensures r.Ok? ==> buf[..] == Splice(old(buf[..]), at, PackPair(bpp, index1, index2).value)
    ensures r.Err? ==> r.error == PackPair(bpp, index1, index2).error && buf[..] == old(buf[..])
  {
    ghost var s := buf[..];
    if bpp == 4 {
      PackedNibbles(index1, index2);
      var v := BitOr(16 * index2, index1);
      if v >= 256 {
        return Err(ValueTooLarge(v));
      }
      var packed: byte := v as byte;
      buf[at] := packed;
      assert Splice(s, at, [packed]) == Splice(s[at := packed], at + 1, []);
    } else {
      buf[at] := index1;
      buf[at + 1] := index2;
      assert Splice(s, at, [index1, index2]) == Splice(s[at := index1], at + 1, [index2]);
      assert [index1, index2][1..] == [index2];
      assert Splice(s[at := index1], at + 1, [index2]) == Splice(s[at := index1][at + 1 := index2], at + 2, []);
    }
    return Ok(());
  }

  /** The state of writeNCGRTile's inner loop after `k` pairs: `s` is the buffer that
      was `before`, with the first `k` pairs of the row written from `at` on, and `next`
      is where the next pair goes. */
  ghost predicate RowLoop(s: seq<byte>, before: seq<byte>, at: nat, bpp: int, q: IndexImage, ox: int, oy: int,
                          i2: nat, k: nat, next: nat)
  {
    ValidDepth(bpp) && FitsRow(bpp, q, ox, oy, i2) && k <= 4 && at + 4 * PairWidth(bpp) <= |before| &&
    next == at + k * PairWidth(bpp) && |s| == |before| &&
    s == Splice(before, at, RowBytes(bpp, q, ox, oy, i2, k))
  }

  lemma RowLoopStep(s: seq<byte>, before: seq<byte>, at: nat, bpp: int, q: IndexImage, ox: int, oy: int,
                    i2: nat, k: nat, next: nat, s': seq<byte>)
    requires RowLoop(s, before, at, bpp, q, ox, oy, i2, k, next) && k < 4
    requires s' == Splice(s, next, PackPair(bpp, Window(q, ox, oy, i2, 2 * k), Window(q, ox, oy, i2, 2 * k + 1)).value)
    ensures RowLoop(s', before, at, bpp, q, ox, oy, i2, k + 1, next + PairWidth(bpp))
  {
    var row := RowBytes(bpp, q, ox, oy, i2, k);
    var pair := PackPair(bpp, Window(q, ox, oy, i2, 2 * k), Window(q, ox, oy, i2, 2 * k + 1)).value;
    SpliceAppend(before, at, row, pair);
  }

  /** The inner loop of writeNCGRTile: row `i2` of the window, two pixels at a time,
      written from `at` on. */
  method WriteTileRow(buf: array<byte>, at: nat, bpp: int, q: IndexImage, ox: int, oy: int, i2: nat)
    requires ValidDepth(bpp) && FitsRow(bpp, q, ox, oy, i2)
    requires at + 4 * PairWidth(bpp) <= buf.Length
    modifies buf
    ensures buf[..] == Splice(old(buf[..]), at, RowBytes(bpp, q, ox, oy, i2, 4))
  {
    ghost var before := buf[..];
    var next: nat := at;
    for k := 0 to TileSize / 2
      invariant RowLoop(buf[..], before, at, bpp, q, ox, oy, i2, k, next)
    {
      ghost var s := buf[..];
      var j2 := 2 * k;
      var index1 := Window(q, ox, oy, i2, j2);
      var index2 := Window(q, ox, oy, i2, j2 + 1);
      var written := WriteData(buf, next, bpp, index1, index2);
      RowLoopStep(s, before, at, bpp, q, ox, oy, i2, k, next, buf[..]);
      next := next + PairWidth(bpp);
    }
  }

  /** The state of writeNCGRTile's outer loop after `n` rows: `s` is the buffer that
      was `before`, with the first `n` rows of the window written from `pos` on, and
      `at` is where the next row goes. */
  ghost predicate TileLoop(s: seq<byte>, before: seq<byte>, pos: nat, bpp: int, q: IndexImage, ox: int, oy: int,
                           n: nat, at: nat)
  {
    ValidDepth(bpp) && FitsWindow(bpp, q, ox, oy) && n <= 8 && pos + TileBytes(bpp) <= |before| &&
    at == pos + n * (4 * PairWidth(bpp)) && |s| == |before| &&
    s == Splice(before, pos, TileRows(bpp, q, ox, oy, n))
  }

  /** Inside the outer loop the next row fits and its indices fit in a nibble. */
  lemma TileLoopRow(s: seq<byte>, before: seq<byte>, pos: nat, bpp: int, q: IndexImage, ox: int, oy: int,
                    n: nat, at: nat)
    requires TileLoop(s, before, pos, bpp, q, ox, oy, n, at) && n < 8
    ensures FitsRow(bpp, q, ox, oy, n) && at + 4 * PairWidth(bpp) <= |s|
  {
  }

  lemma TileLoopStep(s: seq<byte>, before: seq<byte>, pos: nat, bpp: int, q: IndexImage, ox: int, oy: int,
                     n: nat, at: nat, s': seq<byte>)
    requires TileLoop(s, before, pos, bpp, q, ox, oy, n, at) && n < 8 && FitsRow(bpp, q, ox, oy, n)
    requires s' == Splice(s, at, RowBytes(bpp, q, ox, oy, n, 4))
    ensures TileLoop(s', before, pos, bpp, q, ox, oy, n + 1, at + 4 * PairWidth(bpp))
  {
    SpliceAppend(before, pos, TileRows(bpp, q, ox, oy, n), RowBytes(bpp, q, ox, oy, n, 4));
  }

  /** writeNCGRTile: the 8x8 window at (ox, oy) of the index image written as one tile
      from `pos` on, row by row. */
  method WriteTile(buf: array<byte>, pos: nat, bpp: int, q: IndexImage, ox: int, oy: int)
    requires ValidDepth(bpp) && FitsWindow(bpp, q, ox, oy)
    requires pos + TileBytes(bpp) <= buf.Length
    modifies buf
    ensures buf[..] == Splice(old(buf[..]), pos, EncodeTile(bpp, q, ox, oy))
  {
    var at: nat := pos;
    ghost var before := buf[..];
    for i2 := 0 to TileSize
      invariant TileLoop(buf[..], before, pos, bpp, q, ox, oy, i2, at)
    {
      ghost var s := buf[..];
      TileLoopRow(s, before, pos, bpp, q, ox, oy, i2, at);
      WriteTileRow(buf, at, bpp, q, ox, oy, i2);
      TileLoopStep(s, before, pos, bpp, q, ox, oy, i2, at, buf[..]);
      at := at + 4 * PairWidth(bpp);
    }
  }

  /** The first of the two pixels whose indices the pair at byte `b` holds. */
  function PairPixel(bpp: int, b: nat): nat
    requires ValidDepth(bpp)
  {
    if bpp == 4 then 2 * b else b
  }

  /** Packing the two pixels decoded from the pair at byte `b` gives back its bytes:
      the converse of `PackPairRoundTrip`. */
  lemma PackDecodedPair(data: seq<byte>, bpp: int, b: nat)
    requires ValidDepth(bpp) && b + PairWidth(bpp) <= |data|
    ensures PairPixel(bpp, b) + 1 < PixelCount(data, bpp)
    ensures PackPair(bpp, Pixel(data, bpp, PairPixel(bpp, b)), Pixel(data, bpp, PairPixel(bpp, b) + 1))
            == Ok(data[b..b + PairWidth(bpp)])
  {
    if bpp == 4 {
      assert Half(2 * b) == b && Half(2 * b + 1) == b;
      var lo, hi := Pixel(data, bpp, 2 * b), Pixel(data, bpp, 2 * b + 1);
      PackedNibbles(lo, hi);
      assert BitOr(hi, lo / 16) == BitOr(hi, 0) == hi;
      assert BitOr(16 * hi, lo) == data[b];
      assert data[b..b + 1] == [data[b]];
    } else {
      assert data[b..b + 2] == [data[b], data[b + 1]];
    }
  }

  /** Pixels after a prefix `a` are the pixels of the rest. */
  lemma PixelShift(a: seq<byte>, b: seq<byte>, bpp: int, x: nat)
    requires ValidDepth(bpp) && x < PixelCount(b, bpp)
    ensures PixelCount(a, bpp) + x < PixelCount(a + b, bpp)
    ensures Pixel(a + b, bpp, PixelCount(a, bpp) + x) == Pixel(b, bpp, x)
  {
    if bpp == 4 {
      assert Half(2 * |a| + x) == |a| + Half(x);
    }
  }

  /** The pair appended after `pre` decodes to its two indices. */
  lemma DecodeAppendedPair(pre: seq<byte>, bpp: int, index1: byte, index2: byte)
    requires ValidDepth(bpp) && (bpp == 4 ==> index1 < 16 && index2 < 16)
    ensures PixelCount(pre, bpp) + 1 < PixelCount(pre + PackPair(bpp, index1, index2).value, bpp)
    ensures Pixel(pre + PackPair(bpp, index1, index2).value, bpp, PixelCount(pre, bpp)) == index1
    ensures Pixel(pre + PackPair(bpp, index1, index2).value, bpp, PixelCount(pre, bpp) + 1) == index2
  {
    var pair := PackPair(bpp, index1, index2).value;
    PackPairRoundTrip(bpp, index1, index2);
    PixelShift(pre, pair, bpp, 0);
    PixelShift(pre, pair, bpp, 1);
  }

  /** Pixel `x` of the pair appended after `pre` is its first index or its second. */
  lemma DecodeAppendedAt(pre: seq<byte>, bpp: int, index1: byte, index2: byte, x: nat)
    requires ValidDepth(bpp) && (bpp == 4 ==> index1 < 16 && index2 < 16)
    requires PixelCount(pre, bpp) <= x < PixelCount(pre, bpp) + 2
    ensures x < PixelCount(pre + PackPair(bpp, index1, index2).value, bpp)
    ensures Pixel(pre + PackPair(bpp, index1, index2).value, bpp, x) == if x == PixelCount(pre, bpp) then index1 else index2
  {
    DecodeAppendedPair(pre, bpp, index1, index2);
  }

  /** Column `j2` of the first `k` pairs of a row, decoded from what was written,
      is the row's index there. */
  lemma {:induction false} DecodeRowAt(bpp: int, q: IndexImage, ox: int, oy: int, i2: nat, k: nat, j2: nat)
    requires ValidDepth(bpp) && FitsRow(bpp, q, ox, oy, i2) && k <= 4 && j2 < 2 * k
    ensures j2 < PixelCount(RowBytes(bpp, q, ox, oy, i2, k), bpp)
    ensures Pixel(RowBytes(bpp, q, ox, oy, i2, k), bpp, j2) == Window(q, ox, oy, i2, j2)
  {
    var k' := k - 1;
    var a := 2 * k';
    var pre := RowBytes(bpp, q, ox, oy, i2, k');
    var lo, hi := Window(q, ox, oy, i2, a), Window(q, ox, oy, i2, a + 1);
    var row := RowBytes(bpp, q, ox, oy, i2, k);
    assert row == pre + PackPair(bpp, lo, hi).value;
    assert PixelCount(pre, bpp) == a;
    if j2 < a {
      DecodeRowAt(bpp, q, ox, oy, i2, k', j2);
      PixelPrefix(pre, row, bpp, j2);
    } else {
      DecodeAppendedAt(pre, bpp, lo, hi, j2);
    }
  }

  /** Pixel `8 * i2 + j2` of the first `n` rows of a tile, decoded from what was
      written, is the window's index at column `j2`, row `i2`. */
  lemma {:induction false} DecodeTileAt(bpp: int, q: IndexImage, ox: int, oy: int, n: nat, i2: nat, j2: nat)
    requires ValidDepth(bpp) && FitsWindow(bpp, q, ox, oy) && n <= 8 && i2 < n && j2 < 8
    ensures 8 * i2 + j2 < PixelCount(TileRows(bpp, q, ox, oy, n), bpp)
    ensures Pixel(TileRows(bpp, q, ox, oy, n), bpp, 8 * i2 + j2) == Window(q, ox, oy, i2, j2)
  {
    assert FitsRow(bpp, q, ox, oy, n - 1);
    var pre, row := TileRows(bpp, q, ox, oy, n - 1), RowBytes(bpp, q, ox, oy, n - 1, 4);
    var tile := TileRows(bpp, q, ox, oy, n);
    assert tile == pre + row;
    assert PixelCount(pre, bpp) == 8 * (n - 1);
    if i2 < n - 1 {
      DecodeTileAt(bpp, q, ox, oy, n - 1, i2, j2);
      PixelPrefix(pre, tile, bpp, 8 * i2 + j2);
      assert Pixel(tile, bpp, 8 * i2 + j2) == Pixel(pre, bpp, 8 * i2 + j2) == Window(q, ox, oy, i2, j2);
    } else {
      DecodeRowAt(bpp, q, ox, oy, n - 1, 4, j2);
      PixelShift(pre, row, bpp, j2);
      assert Pixel(tile, bpp, 8 * i2 + j2) == Pixel(row, bpp, j2) == Window(q, ox, oy, i2, j2);
    }
  }

  /** Reading back a tile that writeNCGRTile wrote gives the window's indices: pixel
      `8 * i2 + j2` of the tile is the index at column `j2`, row `i2` of the window. */
  lemma DecodeEncodedTile(bpp: int, q: IndexImage, ox: int, oy: int, i2: nat, j2: nat)
    requires ValidDepth(bpp) && FitsWindow(bpp, q, ox, oy) && i2 < 8 && j2 < 8
    ensures 8 * i2 + j2 < PixelCount(EncodeTile(bpp, q, ox, oy), bpp)
    ensures Pixel(EncodeTile(bpp, q, ox, oy), bpp, 8 * i2 + j2) == Window(q, ox, oy, i2, j2)
  {
    DecodeTileAt(bpp, q, ox, oy, 8, i2, j2);
  }

  /** Where pair `k` of row `i2` starts within an encoded tile. */
  function PairAt(bpp: int, i2: nat, k: nat): nat
    requires ValidDepth(bpp)
  {
    if bpp == 4 then 4 * i2 + k else 8 * i2 + 2 * k
  }

  /** Pair `k` of row `i2` of a window holding the pixels of `tile` packs to the
      bytes those two pixels were decoded from. */
  lemma EncodeDecodedPair(tile: seq<byte>, bpp: int, q: IndexImage, ox: int, oy: int, i2: nat, k: nat)
    requires ValidDepth(bpp) && |tile| == TileBytes(bpp) && i2 < 8 && k < 4
    requires forall j2 :: 0 <= j2 < 8 ==> Window(q, ox, oy, i2, j2) == Pixel(tile, bpp, 8 * i2 + j2)
    ensures PackPair(bpp, Window(q, ox, oy, i2, 2 * k), Window(q, ox, oy, i2, 2 * k + 1)) ==
            Ok(tile[PairAt(bpp, i2, k)..PairAt(bpp, i2, k + 1)])
  {
    var b := PairAt(bpp, i2, k);
    assert PairPixel(bpp, b) == 8 * i2 + 2 * k;
    assert b + PairWidth(bpp) == PairAt(bpp, i2, k + 1);
    PackDecodedPair(tile, bpp, b);
  }

  /** Encoding one more pair of such a row appends the bytes of that pair. */
  lemma EncodeDecodedStep(tile: seq<byte>, bpp: int, q: IndexImage, ox: int, oy: int, i2: nat, k': nat, k: nat)
    requires ValidDepth(bpp) && |tile| == TileBytes(bpp) && i2 < 8 && k == k' + 1 <= 4
    requires forall j2 :: 0 <= j2 < 8 ==> Window(q, ox, oy, i2, j2) == Pixel(tile, bpp, 8 * i2 + j2)
    requires FitsRow(bpp, q, ox, oy, i2)
    ensures RowBytes(bpp, q, ox, oy, i2, k) == RowBytes(bpp, q, ox, oy, i2, k') + tile[PairAt(bpp, i2, k')..PairAt(bpp, i2, k)]
  {
    EncodeDecodedPair(tile, bpp, q, ox, oy, i2, k');
  }

  /** A row of a window holding the pixels of `tile` fits the depth. */
  lemma DecodedRowFits(tile: seq<byte>, bpp: int, q: IndexImage, ox: int, oy: int, i2: nat)
    requires ValidDepth(bpp) && |tile| == TileBytes(bpp) && i2 < 8
    requires forall j2 :: 0 <= j2 < 8 ==> Window(q, ox, oy, i2, j2) == Pixel(tile, bpp, 8 * i2 + j2)
    ensures FitsRow(bpp, q, ox, oy, i2)
  {
  }

  /** Pairs `0..k` of row `i2` of a window holding the pixels of `tile` encode to the
      bytes those pixels were decoded from. */
  lemma {:induction false} EncodeDecodedRow(tile: seq<byte>, bpp: int, q: IndexImage, ox: int, oy: int, i2: nat, k: nat)
    requires ValidDepth(bpp) && |tile| == TileBytes(bpp) && i2 < 8 && k <= 4
    requires forall j2 :: 0 <= j2 < 8 ==> Window(q, ox, oy, i2, j2) == Pixel(tile, bpp, 8 * i2 + j2)
    ensures FitsRow(bpp, q, ox, oy, i2)
    ensures RowBytes(bpp, q, ox, oy, i2, k) == tile[PairAt(bpp, i2, 0)..PairAt(bpp, i2, k)]
  {
    DecodedRowFits(tile, bpp, q, ox, oy, i2);
    var base := PairAt(bpp, i2, 0);
    if k == 0 {
      assert tile[base..base] == [];
    } else {
      var k' := k - 1;
      EncodeDecodedRow(tile, bpp, q, ox, oy, i2, k');
      EncodeDecodedStep(tile, bpp, q, ox, oy, i2, k', k);
      SliceJoin(tile, base, PairAt(bpp, i2, k'), PairAt(bpp, i2, k));
    }
  }

  /** The first `n` rows of a window holding the pixels of `tile` encode to the
      first `n` rows of its bytes. */
  lemma {:induction false} EncodeDecodedRows(tile: seq<byte>, bpp: int, q: IndexImage, ox: int, oy: int, n: nat)
    requires ValidDepth(bpp) && |tile| == TileBytes(bpp) && n <= 8
    requires forall i2, j2 :: 0 <= i2 < 8 && 0 <= j2 < 8 ==> Window(q, ox, oy, i2, j2) == Pixel(tile, bpp, 8 * i2 + j2)
    ensures FitsWindow(bpp, q, ox, oy)
    ensures TileRows(bpp, q, ox, oy, n) == tile[..PairAt(bpp, n, 0)]
  {
    if n == 0 {
      assert tile[..0] == [];
    } else {
      EncodeDecodedRows(tile, bpp, q, ox, oy, n - 1);
      EncodeDecodedRow(tile, bpp, q, ox, oy, n - 1, 4);
      assert PairAt(bpp, n - 1, 4) == PairAt(bpp, n, 0);
      SliceJoin(tile, 0, PairAt(bpp, n - 1, 0), PairAt(bpp, n, 0));
      assert tile[..PairAt(bpp, n, 0)] == tile[0..PairAt(bpp, n, 0)];
      assert tile[..PairAt(bpp, n - 1, 0)] == tile[0..PairAt(bpp, n - 1, 0)];
    }
  }

  /** Re-encoding a window that holds the indices readNCGR decoded from a tile gives
      back the tile's bytes: the converse of `DecodeEncodedTile`. */
  lemma EncodeDecodedTile(tile: seq<byte>, bpp: int, q: IndexImage, ox: int, oy: int)
    requires ValidDepth(bpp) && |tile| == TileBytes(bpp)
    requires forall i2, j2 :: 0 <= i2 < 8 && 0 <= j2 < 8 ==> Window(q, ox, oy, i2, j2) == Pixel(tile, bpp, 8 * i2 + j2)
    ensures FitsWindow(bpp, q, ox, oy)
    ensures EncodeTile(bpp, q, ox, oy) == tile
  {
    EncodeDecodedRows(tile, bpp, q, ox, oy, 8);
  }

  /** The same for tile `t` of a payload: a window holding its decoded indices
      `Pixel(data, bpp, 64 * t + 8 * i2 + j2)` encodes to the tile's bytes. */
  lemma EncodePayloadTile(data: seq<byte>, bpp: int, t: nat, q: IndexImage, ox: int, oy: int)
    requires ValidDepth(bpp) && t * TileBytes(bpp) + TileBytes(bpp) <= |data|
    requires forall i2, j2 :: 0 <= i2 < 8 && 0 <= j2 < 8 ==>
               64 * t + 8 * i2 + j2 < PixelCount(data, bpp) &&
               Window(q, ox, oy, i2, j2) == Pixel(data, bpp, 64 * t + 8 * i2 + j2)
    ensures FitsWindow(bpp, q, ox, oy)
    ensures EncodeTile(bpp, q, ox, oy) == data[t * TileBytes(bpp)..t * TileBytes(bpp) + TileBytes(bpp)]
  {
    var at := t * TileBytes(bpp);
    var pre, tile := data[..at], data[at..at + TileBytes(bpp)];
    assert PixelCount(pre, bpp) == 64 * t;
    assert pre + tile <= data;
    forall i2, j2 | 0 <= i2 < 8 && 0 <= j2 < 8
      ensures Window(q, ox, oy, i2, j2) == Pixel(tile, bpp, 8 * i2 + j2)
    {
      var x := 8 * i2 + j2;
      PixelShift(pre, tile, bpp, x);
      PixelPrefix(pre + tile, data, bpp, 64 * t + x);
    }
    EncodeDecodedTile(tile, bpp, q, ox, oy);
  }
}
