/** NSCR screen map: 16-bit map entries (tile, flips, palette) read from the file, and
    writeNSCR, which re-encodes the tiles the map points at from an image. */
module Nscr {
  import opened Bytes
  import opened Ncgr

  /** Where the map data starts: right after the `maplen` field. */
  const MapOffset := 36

  datatype MapEntry = MapEntry(tile: nat, xflip: bool, yflip: bool, pal: nat)

  datatype Nscr = Nscr(width: u16, height: u16, maplen: u32, mapoffset: nat, maps: seq<MapEntry>)

  predicate ValidEntry(e: MapEntry) { e.tile < 0x400 && e.pal < 0x10 }

  /** Python's `(a >> k) & mask` for a mask `m - 1` with `m = 2^n`, and `d = 2^k`:
      shifting floors, and the mask takes the two's-complement low bits. */
  function ShiftMask(a: int, d: int, m: int): (r: nat)
    requires d > 0 && m > 0
    ensures r < m
  {
    FloorDiv(a, d) % m
  }

  /** The fields of the entry read as `struct.unpack("<h")`: bits 0-9 the tile, bit 10
      the x flip, bit 11 the y flip, bits 12-15 the palette. */
  function DecodeEntry(data: int): (e: MapEntry)
    ensures ValidEntry(e)
  {
    MapEntry(ShiftMask(data, 1, 0x400), ShiftMask(data, 0x400, 2) == 1,
             ShiftMask(data, 0x800, 2) == 1, ShiftMask(data, 0x1000, 0x10))
  }

  /** The 16-bit word an entry is stored as. */
  function EncodeEntry(e: MapEntry): (w: u16)
    requires ValidEntry(e)
  {
    e.tile + 0x400 * (if e.xflip then 1 else 0) + 0x800 * (if e.yflip then 1 else 0) + 0x1000 * e.pal
  }

  /** Reading the word as signed, as the source does, gives the entry its unsigned
      bits spell: the sign only changes bits above the 16 the fields take. */
  lemma DecodeSigned(w: u16)
    ensures DecodeEntry(Signed16(w)) == DecodeEntry(w)
  {
    if w >= 0x8000 {
      var s := w - 0x1_0000;
      DivModUnique(s, 0x400, w / 0x400 - 0x40, w % 0x400);
      DivModUnique(w / 0x400 - 0x40, 2, w / 0x400 / 2 - 0x20, w / 0x400 % 2);
      DivModUnique(s, 0x800, w / 0x800 - 0x20, w % 0x800);
      DivModUnique(w / 0x800 - 0x20, 2, w / 0x800 / 2 - 0x10, w / 0x800 % 2);
      DivModUnique(s, 0x1000, w / 0x1000 - 0x10, w % 0x1000);
      DivModUnique(w / 0x1000 - 0x10, 0x10, w / 0x1000 / 0x10 - 1, w / 0x1000 % 0x10);
      DivModUnique(s, 1, s, 0);
      DivModUnique(w, 1, w, 0);
    }
  }

  lemma EntryRoundTrip(e: MapEntry)
    requires ValidEntry(e)
    ensures DecodeEntry(EncodeEntry(e)) == e
  {
    var x := if e.xflip then 1 else 0;
    var y := if e.yflip then 1 else 0;
    var w := EncodeEntry(e);
    DivModUnique(w, 1, w, 0);
    DivModUnique(w, 0x400, x + 2 * y + 4 * e.pal, e.tile);
    DivModUnique(x + 2 * y + 4 * e.pal, 2, y + 2 * e.pal, x);
    DivModUnique(w, 0x800, y + 2 * e.pal, e.tile + 0x400 * x);
    DivModUnique(y + 2 * e.pal, 2, e.pal, y);
    DivModUnique(w, 0x1000, e.pal, e.tile + 0x400 * x + 0x800 * y);
    DivModUnique(e.pal, 0x10, 0, e.pal);
  }

  lemma WordRoundTrip(w: u16)
    ensures EncodeEntry(DecodeEntry(w)) == w
  {
    var q1 := w / 0x400;
    var q2 := q1 / 2;
    var q3 := q2 / 2;
    DivModUnique(w, 1, w, 0);
    DivModUnique(w, 0x800, q2, w % 0x400 + 0x400 * (q1 % 2));
    DivModUnique(w, 0x1000, q3, w % 0x400 + 0x400 * (q1 % 2) + 0x800 * (q2 % 2));
    DivModUnique(q3, 0x10, 0, q3);
  }

  /** readNSCR: the header fields, then one entry per two bytes of the `maplen`-byte
      map data; an odd trailing byte fails to unpack. */
  method ReadNscr(file: seq<byte>) returns (r: Result<Nscr>)
    ensures r.Ok? <==> MapOffset <= |file| && |ReadBytes(file, MapOffset, U32At(file, 32).value)| % 2 == 0
    ensures r.Ok? ==> r.value.mapoffset == MapOffset
    ensures r.Ok? ==> r.value.width == U16At(file, 24).value && r.value.height == U16At(file, 26).value &&
                      r.value.maplen == U32At(file, 32).value
    ensures r.Ok? ==> var data := ReadBytes(file, MapOffset, r.value.maplen);
              |r.value.maps| * 2 == |data| &&
              forall k :: 0 <= k < |r.value.maps| ==> r.value.maps[k] == DecodeEntry(U16At(data, 2 * k).value)
  {
    var width :- U16At(file, 24);
    var height :- U16At(file, 26);
    var maplen :- U32At(file, 32);
    var mapdata := ReadBytes(file, MapOffset, maplen);
    var maps: seq<MapEntry> := [];
    var i := 0;
    while i < |mapdata|
      invariant 0 <= i <= |mapdata| && i % 2 == 0 && |maps| * 2 == i
      invariant forall k :: 0 <= k < |maps| ==> maps[k] == DecodeEntry(U16At(mapdata, 2 * k).value)
    {
      var word := U16At(mapdata, i);
      if word.Err? {
        return Err(ShortRead(MapOffset + i));
      }
      DecodeSigned(word.value);
      maps := maps + [DecodeEntry(Signed16(word.value))];
      i := i + 2;
    }
    return Ok(Nscr(width, height, maplen, MapOffset, maps));
  }

  /** One tile writeNSCR re-encodes: map tile `tile` from the 8x8 image window at
      tile row `i`, tile column `j`, quantised against palette `pal`. */
  datatype TileWrite = TileWrite(tile: nat, i: nat, j: nat, pal: nat)

  predicate Flipped(e: MapEntry) { e.xflip || e.yflip }

  /** The tiles writeNSCR's loops write, cell by cell from (i, j) on in reading order
      over `rows` by `cols` cells: map entry `x` serves the cell; a flipped entry is
      skipped without advancing `x`; a tile already in `done` is not written again.
      The error, if any, is the map lookup that ran past the end of `maps`. */
  function Schedule(maps: seq<MapEntry>, rows: nat, cols: nat, i: nat, j: nat, x: nat, done: seq<nat>):
    (r: (seq<TileWrite>, Option<Error>))
    decreases rows - i, cols - j
  {
    if i >= rows then ([], None)
    else if j >= cols then Schedule(maps, rows, cols, i + 1, 0, x, done)
    else if x >= |maps| then ([], Some(IndexOutOfRange(x)))
    else if Flipped(maps[x]) then Schedule(maps, rows, cols, i, j + 1, x, done)
    else if maps[x].tile in done then Schedule(maps, rows, cols, i, j + 1, x + 1, done)
    else
      var rest := Schedule(maps, rows, cols, i, j + 1, x + 1, done + [maps[x].tile]);
      ([TileWrite(maps[x].tile, i, j, maps[x].pal)] + rest.0, rest.1)
  }

  /** No tile in `ws` is in `done`, and no tile comes twice. */
  predicate WrittenOnce(ws: seq<TileWrite>, done: seq<nat>)
  {
    (forall a :: 0 <= a < |ws| ==> ws[a].tile !in done) &&
    (forall a, b :: 0 <= a < b < |ws| ==> ws[a].tile != ws[b].tile)
  }

  /** Every write in `ws` is at a cell of the grid at or after (i, j) in reading order,
      with the tile and palette of an unflipped map entry at or after `x`. */
  predicate FromMap(ws: seq<TileWrite>, maps: seq<MapEntry>, rows: nat, cols: nat, i: nat, j: nat, x: nat)
  {
    forall a :: 0 <= a < |ws| ==>
      ws[a].i < rows && ws[a].j < cols && (i < ws[a].i || (i == ws[a].i && j <= ws[a].j)) &&
      FromEntry(maps, x, ws[a])
  }

  /** `w` writes the tile of an unflipped map entry at or after `x`, with its palette. */
  predicate FromEntry(maps: seq<MapEntry>, x: nat, w: TileWrite)
  {
    exists y :: x <= y < |maps| && !Flipped(maps[y]) && maps[y].tile == w.tile && maps[y].pal == w.pal
  }

  /** Every tile is written at most once, and never one already done. */
  lemma {:induction false} ScheduleWritesOnce(maps: seq<MapEntry>, rows: nat, cols: nat, i: nat, j: nat, x: nat, done: seq<nat>)
    ensures WrittenOnce(Schedule(maps, rows, cols, i, j, x, done).0, done)
    decreases rows - i, cols - j
  {
    if i >= rows {
    } else if j >= cols {
      assert Schedule(maps, rows, cols, i, j, x, done) == Schedule(maps, rows, cols, i + 1, 0, x, done);
      ScheduleWritesOnce(maps, rows, cols, i + 1, 0, x, done);
    } else if x >= |maps| {
    } else if Flipped(maps[x]) {
      assert Schedule(maps, rows, cols, i, j, x, done) == Schedule(maps, rows, cols, i, j + 1, x, done);
      ScheduleWritesOnce(maps, rows, cols, i, j + 1, x, done);
    } else if maps[x].tile in done {
      assert Schedule(maps, rows, cols, i, j, x, done) == Schedule(maps, rows, cols, i, j + 1, x + 1, done);
      ScheduleWritesOnce(maps, rows, cols, i, j + 1, x + 1, done);
    } else {
      var t := maps[x].tile;
      ScheduleWritesOnce(maps, rows, cols, i, j + 1, x + 1, done + [t]);
      var rest := Schedule(maps, rows, cols, i, j + 1, x + 1, done + [t]).0;
      var ws := Schedule(maps, rows, cols, i, j, x, done).0;
      assert ws == [TileWrite(t, i, j, maps[x].pal)] + rest;
      forall a | 0 <= a < |rest| ensures rest[a].tile !in done && rest[a].tile != t {
        assert rest[a].tile !in done + [t];
      }
      forall a, b | 0 <= a < b < |ws| ensures ws[a].tile != ws[b].tile {
        if a > 0 {
          assert ws[a] == rest[a - 1] && ws[b] == rest[b - 1];
        } else {
          assert ws[b] == rest[b - 1];
        }
      }
    }
  }

  /** Every tile written is the tile of an unflipped map entry at or after `x`, and
      the writes come at cells in reading order. */
  lemma {:induction false} ScheduleFromMap(maps: seq<MapEntry>, rows: nat, cols: nat, i: nat, j: nat, x: nat, done: seq<nat>)
    ensures FromMap(Schedule(maps, rows, cols, i, j, x, done).0, maps, rows, cols, i, j, x)
    decreases rows - i, cols - j
  {
    if i >= rows {
    } else if j >= cols {
      assert Schedule(maps, rows, cols, i, j, x, done) == Schedule(maps, rows, cols, i + 1, 0, x, done);
      ScheduleFromMap(maps, rows, cols, i + 1, 0, x, done);
    } else if x >= |maps| {
    } else if Flipped(maps[x]) {
      assert Schedule(maps, rows, cols, i, j, x, done) == Schedule(maps, rows, cols, i, j + 1, x, done);
      ScheduleFromMap(maps, rows, cols, i, j + 1, x, done);
    } else if maps[x].tile in done {
      assert Schedule(maps, rows, cols, i, j, x, done) == Schedule(maps, rows, cols, i, j + 1, x + 1, done);
      ScheduleFromMap(maps, rows, cols, i, j + 1, x + 1, done);
      ScheduleFromMapFrom(Schedule(maps, rows, cols, i, j + 1, x + 1, done).0, maps, rows, cols, i, j, x);
    } else {
      var t := maps[x].tile;
      ScheduleFromMap(maps, rows, cols, i, j + 1, x + 1, done + [t]);
      var rest := Schedule(maps, rows, cols, i, j + 1, x + 1, done + [t]).0;
      ScheduleFromMapFrom(rest, maps, rows, cols, i, j, x);
      var ws := Schedule(maps, rows, cols, i, j, x, done).0;
      assert ws == [TileWrite(t, i, j, maps[x].pal)] + rest;
      forall a | 0 <= a < |ws|
        ensures ws[a].i < rows && ws[a].j < cols && (i < ws[a].i || (i == ws[a].i && j <= ws[a].j)) &&
                FromEntry(maps, x, ws[a])
      {
        if a == 0 {
          assert maps[x].tile == ws[0].tile;
        } else {
          assert ws[a] == rest[a - 1];
        }
      }
    }
  }

  /** Every cell that is reached gets its tile written: with no flipped entry on the
      way, cell (ci, cj) is served by entry `y`, the one as many entries past `x` as
      the cell is cells past (i, j); if that entry's tile is neither done nor the tile
      of an entry before it, the write of its tile at that cell, with its palette, is
      in the schedule. */
  lemma {:induction false} ScheduleReaches(maps: seq<MapEntry>, rows: nat, cols: nat, i: nat, j: nat, x: nat, done: seq<nat>,
                                           ci: nat, cj: nat, y: nat)
    requires j <= cols && ci < rows && cj < cols && (i < ci || (i == ci && j <= cj))
    requires y == x + (ci - i) * cols + cj - j && y < |maps|
    requires forall z :: x <= z <= y ==> !Flipped(maps[z])
    requires maps[y].tile !in done
    requires forall z :: x <= z < y ==> maps[z].tile != maps[y].tile
    ensures TileWrite(maps[y].tile, ci, cj, maps[y].pal) in Schedule(maps, rows, cols, i, j, x, done).0
    decreases rows - i, cols - j
  {
    if i == ci && j == cj {
      assert y == x;
    } else if j >= cols {
      var i' := i + 1;
      assert (ci - i) * cols == (ci - i') * cols + cols;
      assert Schedule(maps, rows, cols, i, j, x, done) == Schedule(maps, rows, cols, i', 0, x, done);
      ScheduleReaches(maps, rows, cols, i', 0, x, done, ci, cj, y);
    } else {
      assert x < y by {
        if i < ci {
          MulAtLeast(ci - i, cols);
        }
      }
      assert !Flipped(maps[x]);
      var j', x' := j + 1, x + 1;
      var done' := Marked(done, maps[x].tile);
      assert maps[y].tile !in done';
      ScheduleReaches(maps, rows, cols, i, j', x', done', ci, cj, y);
      NextCell(maps, rows, cols, i, j, x, done, TileWrite(maps[y].tile, ci, cj, maps[y].pal));
    }
  }

  /** `done` after the tile `t` has been written. */
  function Marked(done: seq<nat>, t: nat): seq<nat>
  {
    if t in done then done else done + [t]
  }

  /** A write from the next cell on, past an unflipped entry, is a write from this cell on. */
  lemma NextCell(maps: seq<MapEntry>, rows: nat, cols: nat, i: nat, j: nat, x: nat, done: seq<nat>, w: TileWrite)
    requires i < rows && j < cols && x < |maps| && !Flipped(maps[x])
    ensures w in Schedule(maps, rows, cols, i, j + 1, x + 1, Marked(done, maps[x].tile)).0 ==>
            w in Schedule(maps, rows, cols, i, j, x, done).0
  {
    if maps[x].tile !in done {
      var rest := Schedule(maps, rows, cols, i, j + 1, x + 1, done + [maps[x].tile]).0;
      assert Schedule(maps, rows, cols, i, j, x, done).0 == [TileWrite(maps[x].tile, i, j, maps[x].pal)] + rest;
    }
  }

  /** Writes from the cell after (i, j) and entry `x + 1` on are also from (i, j) and `x` on. */
  lemma ScheduleFromMapFrom(ws: seq<TileWrite>, maps: seq<MapEntry>, rows: nat, cols: nat, i: nat, j: nat, x: nat)
    requires FromMap(ws, maps, rows, cols, i, j + 1, x + 1)
    ensures FromMap(ws, maps, rows, cols, i, j, x)
  {
    forall a | 0 <= a < |ws|
      ensures FromEntry(maps, x, ws[a])
    {
      assert FromEntry(maps, x + 1, ws[a]);
      var y :| x + 1 <= y < |maps| && !Flipped(maps[y]) && maps[y].tile == ws[a].tile && maps[y].pal == ws[a].pal;
    }
  }

  /** The source's quirk: once entry `x` is flipped, every later cell reads entry `x`
      again and skips it, so nothing more is written and no lookup fails. */
  lemma {:induction false} FlippedEntryStalls(maps: seq<MapEntry>, rows: nat, cols: nat, i: nat, j: nat, x: nat, done: seq<nat>)
    requires x < |maps| && Flipped(maps[x])
    ensures Schedule(maps, rows, cols, i, j, x, done) == ([], None)
    decreases rows - i, cols - j
  {
    if i >= rows {
    } else if j >= cols {
      FlippedEntryStalls(maps, rows, cols, i + 1, 0, x, done);
    } else {
      FlippedEntryStalls(maps, rows, cols, i, j + 1, x, done);
    }
  }

  /** Without flips and with enough entries, cell `c` in reading order is served by
      entry `c`: the first row's tiles are written in map order, each new one once. */
  lemma {:induction false} UnflippedRowInOrder(maps: seq<MapEntry>, cols: nat, j: nat, done: seq<nat>)
    requires j <= cols <= |maps|
    requires forall y :: 0 <= y < |maps| ==> !Flipped(maps[y])
    ensures Schedule(maps, 1, cols, 0, j, j, done).1 == None
    ensures forall a :: 0 <= a < |Schedule(maps, 1, cols, 0, j, j, done).0| ==>
              var w := Schedule(maps, 1, cols, 0, j, j, done).0[a];
              w.j < |maps| && w.tile == maps[w.j].tile && w.pal == maps[w.j].pal
    decreases cols - j
  {
    if j < cols {
      if maps[j].tile in done {
        UnflippedRowInOrder(maps, cols, j + 1, done);
      } else {
        UnflippedRowInOrder(maps, cols, j + 1, done + [maps[j].tile]);
      }
    } else {
      assert Schedule(maps, 1, cols, 0, j, j, done) == Schedule(maps, 1, cols, 1, 0, j, done);
    }
  }

  /** Where tile `tile` starts in the tile payload. */
  function TileAt(ncgr: Ncgr, tile: nat): nat
    requires ValidDepth(ncgr.bpp)
  {
    ncgr.tileoffset + tile * TileBytes(ncgr.bpp)
  }

  /** One scheduled write on the buffer `b`: the palette must be known, and the tile
      must lie inside the buffer (the file is not grown). */
  function WriteStep(b: seq<byte>, ncgr: Ncgr, images: map<nat, IndexImage>, w: TileWrite): (r: Result<seq<byte>>)
    requires ValidDepth(ncgr.bpp)
    requires forall p :: p in images ==> FitsImage(ncgr.bpp, images[p])
    ensures r.Ok? ==> |r.value| == |b|
  {
    if w.pal !in images then Err(KeyMissing(w.pal))
    else if TileAt(ncgr, w.tile) + TileBytes(ncgr.bpp) > |b| then Err(IndexOutOfRange(TileAt(ncgr, w.tile)))
    else
      FitsImageWindow(ncgr.bpp, images[w.pal], w.j * TileSize, w.i * TileSize);
      Ok(Splice(b, TileAt(ncgr, w.tile), EncodeTile(ncgr.bpp, images[w.pal], w.j * TileSize, w.i * TileSize)))
  }

  /** The writes applied in order; the buffer as the first failing one left it. */
  function ApplyWrites(b: seq<byte>, ncgr: Ncgr, images: map<nat, IndexImage>, ws: seq<TileWrite>): (r: (seq<byte>, Option<Error>))
    requires ValidDepth(ncgr.bpp)
    requires forall p :: p in images ==> FitsImage(ncgr.bpp, images[p])
    ensures |r.0| == |b|
    decreases |ws|
  {
    if ws == [] then (b, None)
    else
      var s := WriteStep(b, ncgr, images, ws[0]);
      if s.Err? then (b, Some(s.error)) else ApplyWrites(s.value, ncgr, images, ws[1..])
  }

  /** The outcome of a schedule on buffer `b`: its writes applied in order, stopped by
      the first error, whether a write's or, after all writes, the map lookup's. */
  function Outcome(b: seq<byte>, ncgr: Ncgr, images: map<nat, IndexImage>, s: (seq<TileWrite>, Option<Error>)):
    (r: (seq<byte>, Option<Error>))
    requires ValidDepth(ncgr.bpp)
    requires forall p :: p in images ==> FitsImage(ncgr.bpp, images[p])
    ensures |r.0| == |b|
    ensures s.1.Some? ==> r.1.Some?
  {
    var a := ApplyWrites(b, ncgr, images, s.0);
    if a.1.Some? then a else (a.0, s.1)
  }

  /** The outcome of writeNSCR on buffer `b`. */
  function NscrWrites(b: seq<byte>, ncgr: Ncgr, nscr: Nscr, images: map<nat, IndexImage>, width: int, height: int):
    (r: (seq<byte>, Option<Error>))
    requires ValidDepth(ncgr.bpp)
    requires forall p :: p in images ==> FitsImage(ncgr.bpp, images[p])
  {
    var w := if width < 0 then nscr.width else width;
    Outcome(b, ncgr, images, Schedule(nscr.maps, Count(FloorDiv(height, TileSize)), Count(FloorDiv(w, TileSize)), 0, 0, 0, []))
  }

  /** Left at its default of -1, `height` gives no rows: nothing is written. */
  lemma DefaultHeightWritesNothing(b: seq<byte>, ncgr: Ncgr, nscr: Nscr, images: map<nat, IndexImage>, width: int)
    requires ValidDepth(ncgr.bpp)
    requires forall p :: p in images ==> FitsImage(ncgr.bpp, images[p])
    ensures NscrWrites(b, ncgr, nscr, images, width, -1) == (b, None)
  {
    assert FloorDiv(-1, TileSize) == -1;
  }

  /** One cell of writeNSCR's loops, at tile row `i`, column `j`: the rest of the
      outcome from this cell on is the rest from the next cell on, over the new buffer. */
  method WriteCell(buf: array<byte>, ncgr: Ncgr, maps: seq<MapEntry>, images: map<nat, IndexImage>,
                   rows: nat, cols: nat, i: nat, j: nat, x: nat, done: seq<nat>) returns (r: Result<()>, x': nat, done': seq<nat>)
    requires ValidDepth(ncgr.bpp)
    requires forall p :: p in images ==> FitsImage(ncgr.bpp, images[p])
    requires i < rows && j < cols
    modifies buf
    ensures r.Ok? ==>
              Outcome(old(buf[..]), ncgr, images, Schedule(maps, rows, cols, i, j, x, done)) ==
              Outcome(buf[..], ncgr, images, Schedule(maps, rows, cols, i, j + 1, x', done'))
    ensures r.Err? ==>
              Outcome(old(buf[..]), ncgr, images, Schedule(maps, rows, cols, i, j, x, done)) == (buf[..], Some(r.error))
  {
    x', done' := x, done;
    if x >= |maps| {
      return Err(IndexOutOfRange(x)), x', done';
    }
    var entry := maps[x];
    if entry.xflip || entry.yflip {
      return Ok(()), x', done';
    }
    if entry.tile !in done {
      done' := done + [entry.tile];
      ghost var w := TileWrite(entry.tile, i, j, entry.pal);
      ghost var rest := Schedule(maps, rows, cols, i, j + 1, x + 1, done');
      assert Schedule(maps, rows, cols, i, j, x, done) == ([w] + rest.0, rest.1);
      assert ([w] + rest.0)[0] == w && ([w] + rest.0)[1..] == rest.0;
      var pos := ncgr.tileoffset + entry.tile * (32 * (ncgr.bpp / 4));
      assert pos == TileAt(ncgr, entry.tile);
      if entry.pal !in images {
        return Err(KeyMissing(entry.pal)), x + 1, done';
      }
      if pos + TileBytes(ncgr.bpp) > buf.Length {
        return Err(IndexOutOfRange(pos)), x + 1, done';
      }
      FitsImageWindow(ncgr.bpp, images[entry.pal], j * TileSize, i * TileSize);
      WriteTile(buf, pos, ncgr.bpp, images[entry.pal], j * TileSize, i * TileSize);
    }
    return Ok(()), x + 1, done';
  }

  /** writeNSCR: every cell of the `width` by `height` image in reading order. */
  method WriteNscr(buf: array<byte>, ncgr: Ncgr, nscr: Nscr, images: map<nat, IndexImage>, width: int, height: int)
    returns (r: Result<()>)
    requires ValidDepth(ncgr.bpp)
    requires forall p :: p in images ==> FitsImage(ncgr.bpp, images[p])
    modifies buf
    ensures (buf[..], if r.Err? then Some(r.error) else None) == NscrWrites(old(buf[..]), ncgr, nscr, images, width, height)
  {
    var w := if width < 0 then nscr.width else width;
    var rows := Count(FloorDiv(height, TileSize));
    var cols := Count(FloorDiv(w, TileSize));
    ghost var all := Outcome(buf[..], ncgr, images, Schedule(nscr.maps, rows, cols, 0, 0, 0, []));
    var x: nat := 0;
    var done: seq<nat> := [];
    for i := 0 to rows
      invariant all == Outcome(buf[..], ncgr, images, Schedule(nscr.maps, rows, cols, i, 0, x, done))
    {
      for j := 0 to cols
        invariant all == Outcome(buf[..], ncgr, images, Schedule(nscr.maps, rows, cols, i, j, x, done))
      {
        var cell;
        cell, x, done := WriteCell(buf, ncgr, nscr.maps, images, rows, cols, i, j, x, done);
        if cell.Err? {
          return cell;
        }
      }
      assert Schedule(nscr.maps, rows, cols, i, cols, x, done) == Schedule(nscr.maps, rows, cols, i + 1, 0, x, done);
    }
    return Ok(());
  }
}
