/** Re-encoding the cells of an NCER bank list into NCGR tiles (writeNCER): which
    tiles are written, from which window of the image, against which palette, and
    the buffer that results. */
module NcerWrite {
  import opened Bytes
  import opened Ncgr
  import opened Cells
  import opened Ncer

  /** The image as the quantiser sees it: for a palette and an offset `pali` into it,
      the index `getPaletteIndex` picks for the pixel at (x, y). */
  type Quantiser = (seq<u16>, int) -> IndexImage

  /** At 4 bpp every index the quantiser picks fits in a nibble. */
  ghost predicate Fits(bpp: int, quant: Quantiser)
  {
    forall palette, pali :: FitsImage(bpp, quant(palette, pali))
  }

  /** A bank writeNCER passes over: empty in either direction, or a duplicate. */
  predicate Skipped(b: Bank)
  {
    b.width == 0 || b.height == 0 || b.duplicate
  }

  /** A mirrored cell: its unmirrored twin supplies the tiles. */
  predicate Mirrored(c: Cell)
  {
    c.xflip || c.yflip
  }

  /** The first tile of a cell: the bank's partition offset in tiles, plus the cell's
      tile offset shifted left by `blocksize // (bpp // 4)`. */
  function FirstTile(bpp: int, blocksize: byte, partitionoffset: u32, tileoffset: int): int
    requires ValidDepth(bpp)
  {
    partitionoffset / TileBytes(bpp) + tileoffset * Pow2(blocksize / PairWidth(bpp))
  }

  /** One unflipped cell to re-encode: its first tile, the image pixel of its top-left
      corner, its size in whole tiles and its palette id. */
  datatype Job = Job(tile: int, ox: int, oy: int, rows: nat, cols: nat, pal: int)

  /** The job of `cell` in `bank`, whose row of the image starts at `h`. */
  function CellJob(bpp: int, blocksize: byte, bank: Bank, cell: Cell, h: int): Job
    requires ValidDepth(bpp)
  {
    Job(FirstTile(bpp, blocksize, bank.partitionoffset, cell.tileoffset), cell.x, h + cell.y,
        Count(FloorDiv(cell.height, TileSize)), Count(FloorDiv(cell.width, TileSize)), cell.pal)
  }

  /** The jobs of the cells of `bank` from `c` on, mirrored cells left out. */
  function CellJobs(bpp: int, blocksize: byte, bank: Bank, c: nat, h: int): seq<Job>
    requires ValidDepth(bpp)
    decreases |bank.cells| - c
  {
    if c >= |bank.cells| then []
    else
      (if Mirrored(bank.cells[c]) then [] else [CellJob(bpp, blocksize, bank, bank.cells[c], h)]) +
      CellJobs(bpp, blocksize, bank, c + 1, h)
  }

  /** The jobs of the banks from `b` on, the first drawn at image row `h`: a skipped
      bank gives none and takes no rows; the others are stacked one under the other. */
  function BankJobs(bpp: int, blocksize: byte, banks: seq<Bank>, b: nat, h: int): seq<Job>
    requires ValidDepth(bpp)
    decreases |banks| - b
  {
    if b >= |banks| then []
    else if Skipped(banks[b]) then BankJobs(bpp, blocksize, banks, b + 1, h)
    else CellJobs(bpp, blocksize, banks[b], 0, h) + BankJobs(bpp, blocksize, banks, b + 1, h + banks[b].height)
  }

  /** The rows the banks `b0 .. b - 1` that are not skipped take in the image. */
  function HeightBetween(banks: seq<Bank>, b0: nat, b: nat): int
    requires b <= |banks|
    decreases b - b0
  {
    if b0 >= b then 0
    else (if Skipped(banks[b0]) then 0 else banks[b0].height) + HeightBetween(banks, b0 + 1, b)
  }

  /** The palette a cell is quantised against, with the offset into it: its own if
      the id is known, otherwise palette 0 from `16 * pal` on. */
  function Pick(palettes: map<int, seq<u16>>, pal: int): Result<(seq<u16>, int)>
  {
    if pal in palettes then Ok((palettes[pal], 0))
    else if 0 in palettes then Ok((palettes[0], pal * 16))
    else Err(KeyMissing(0))
  }

  /** One tile written: its number, the image pixel of its top-left corner and the
      palette it is quantised against. */
  datatype TileWrite = TileWrite(tile: int, ox: int, oy: int, palette: seq<u16>, pali: int)

  /** The tiles written for `jobs` in order, given the tiles `done` already written;
      the error, if any, is the palette lookup that failed after them. */
  function Schedule(palettes: map<int, seq<u16>>, jobs: seq<Job>, done: seq<int>): (seq<TileWrite>, Option<Error>)
    decreases |jobs|, 1, 0, 0
  {
    if jobs == [] then ([], None)
    else
      var p := Pick(palettes, jobs[0].pal);
      if p.Err? then ([], Some(p.error))
      else Grid(palettes, jobs[0], p.value.0, p.value.1, 0, 0, jobs[0].tile, done, jobs[1..])
  }

  /** The tiles written for `job` from tile row `i`, column `j` on, where the tile
      counter stands at `tile`, then those for the jobs `rest`. The counter moves on
      at every position; a tile already written is not written again. */
  function Grid(palettes: map<int, seq<u16>>, job: Job, palette: seq<u16>, pali: int, i: nat, j: nat,
                tile: int, done: seq<int>, rest: seq<Job>): (seq<TileWrite>, Option<Error>)
    decreases |rest| + 1, 0, job.rows - i, job.cols - j
  {
    if i >= job.rows then Schedule(palettes, rest, done)
    else if j >= job.cols then Grid(palettes, job, palette, pali, i + 1, 0, tile, done, rest)
    else if tile in done then Grid(palettes, job, palette, pali, i, j + 1, tile + 1, done, rest)
    else
      var r := Grid(palettes, job, palette, pali, i, j + 1, tile + 1, done + [tile], rest);
      ([TileWrite(tile, job.ox + j * TileSize, job.oy + i * TileSize, palette, pali)] + r.0, r.1)
  }

  /** Where tile `tile` starts in the tile payload. */
  function TilePos(ncgr: Ncgr, tile: int): int
    requires ValidDepth(ncgr.bpp)
  {
    ncgr.tileoffset + tile * TileBytes(ncgr.bpp)
  }

  /** One tile write on the buffer `b`: the tile must lie inside the buffer (the file
      is not grown, and a negative position cannot be sought). */
  function WriteStep(b: seq<byte>, ncgr: Ncgr, quant: Quantiser, w: TileWrite): (r: Result<seq<byte>>)
    requires ValidDepth(ncgr.bpp) && Fits(ncgr.bpp, quant)
    ensures r.Ok? ==> |r.value| == |b|
  {
    var pos := TilePos(ncgr, w.tile);
    if pos < 0 || pos + TileBytes(ncgr.bpp) > |b| then Err(IndexOutOfRange(pos))
    else
      FitsImageWindow(ncgr.bpp, quant(w.palette, w.pali), w.ox, w.oy);
      Ok(Splice(b, pos, EncodeTile(ncgr.bpp, quant(w.palette, w.pali), w.ox, w.oy)))
  }

  /** The writes applied in order; the buffer as the first failing one left it. */
  function ApplyWrites(b: seq<byte>, ncgr: Ncgr, quant: Quantiser, ws: seq<TileWrite>): (r: (seq<byte>, Option<Error>))
    requires ValidDepth(ncgr.bpp) && Fits(ncgr.bpp, quant)
    ensures |r.0| == |b|
    decreases |ws|
  {
    if ws == [] then (b, None)
    else
      var s := WriteStep(b, ncgr, quant, ws[0]);
      if s.Err? then (b, Some(s.error)) else ApplyWrites(s.value, ncgr, quant, ws[1..])
  }

  /** A schedule carried out on `b`: its writes in order, stopped by the first error,
      whether a write's or, after all writes, the palette lookup's. */
  function Outcome(b: seq<byte>, ncgr: Ncgr, quant: Quantiser, s: (seq<TileWrite>, Option<Error>)):
    (r: (seq<byte>, Option<Error>))
    requires ValidDepth(ncgr.bpp) && Fits(ncgr.bpp, quant)
    ensures |r.0| == |b|
    ensures s.1.Some? ==> r.1.Some?
  {
    var a := ApplyWrites(b, ncgr, quant, s.0);
    if a.1.Some? then a else (a.0, s.1)
  }

  /** writeNCER on buffer `b`: the banks' jobs from image row 0 on, no tile written yet. */
  function NcerWrites(b: seq<byte>, ncgr: Ncgr, ncer: Ncer, palettes: map<int, seq<u16>>, quant: Quantiser):
    (seq<byte>, Option<Error>)
    requires ValidDepth(ncgr.bpp) && Fits(ncgr.bpp, quant)
  {
    Outcome(b, ncgr, quant, Schedule(palettes, BankJobs(ncgr.bpp, ncer.header.blocksize, ncer.banks, 0, 0), []))
  }

  // ---------------------------------------------------------------------------
  // What the schedule writes

  /** No tile in `ws` is in `done`, and no tile comes twice. */
  predicate WrittenOnce(ws: seq<TileWrite>, done: seq<int>)
  {
    (forall a :: 0 <= a < |ws| ==> ws[a].tile !in done) &&
    (forall a, b :: 0 <= a < b < |ws| ==> ws[a].tile != ws[b].tile)
  }

  /** Prepending a write of a tile that is neither done nor written later. */
  lemma WrittenOnceCons(w: TileWrite, ws: seq<TileWrite>, done: seq<int>)
    requires w.tile !in done && WrittenOnce(ws, done + [w.tile])
    ensures WrittenOnce([w] + ws, done)
  {
    var all := [w] + ws;
    forall a | 0 <= a < |ws| ensures ws[a].tile !in done && ws[a].tile != w.tile {
      assert ws[a].tile !in done + [w.tile];
    }
    forall a, b | 0 <= a < b < |all| ensures all[a].tile != all[b].tile {
      assert all[b] == ws[b - 1];
      if a > 0 {
        assert all[a] == ws[a - 1];
      }
    }
  }

  /** The `donetiles` rule: every tile is written at most once, and none already done. */
  lemma {:induction false} ScheduleWritesOnce(palettes: map<int, seq<u16>>, jobs: seq<Job>, done: seq<int>)
    ensures WrittenOnce(Schedule(palettes, jobs, done).0, done)
    decreases |jobs|, 1, 0, 0
  {
    if jobs != [] {
      var p := Pick(palettes, jobs[0].pal);
      if p.Ok? {
        GridWritesOnce(palettes, jobs[0], p.value.0, p.value.1, 0, 0, jobs[0].tile, done, jobs[1..]);
      }
    }
  }

  lemma {:induction false} GridWritesOnce(palettes: map<int, seq<u16>>, job: Job, palette: seq<u16>, pali: int,
                                          i: nat, j: nat, tile: int, done: seq<int>, rest: seq<Job>)
    ensures WrittenOnce(Grid(palettes, job, palette, pali, i, j, tile, done, rest).0, done)
    decreases |rest| + 1, 0, job.rows - i, job.cols - j
  {
    if i >= job.rows {
      ScheduleWritesOnce(palettes, rest, done);
    } else if j >= job.cols {
      GridWritesOnce(palettes, job, palette, pali, i + 1, 0, tile, done, rest);
    } else if tile in done {
      GridWritesOnce(palettes, job, palette, pali, i, j + 1, tile + 1, done, rest);
    } else {
      GridWritesOnce(palettes, job, palette, pali, i, j + 1, tile + 1, done + [tile], rest);
      var r := Grid(palettes, job, palette, pali, i, j + 1, tile + 1, done + [tile], rest);
      WrittenOnceCons(TileWrite(tile, job.ox + j * TileSize, job.oy + i * TileSize, palette, pali), r.0, done);
    }
  }

  /** The write of tile row `ii`, column `jj` of `job`: tile `ii * cols + jj` past its
      first, taken from the window 8 * `jj` right and 8 * `ii` down from its corner,
      against the palette `Pick` chooses. */
  function JobTile(palettes: map<int, seq<u16>>, job: Job, ii: int, jj: int): TileWrite
    requires Pick(palettes, job.pal).Ok?
  {
    var p := Pick(palettes, job.pal).value;
    TileWrite(job.tile + ii * job.cols + jj, job.ox + jj * TileSize, job.oy + ii * TileSize, p.0, p.1)
  }

  /** `w` is the write of some position of some job in `jobs`. */
  ghost predicate FromJobs(palettes: map<int, seq<u16>>, jobs: seq<Job>, w: TileWrite)
  {
    exists k, ii, jj :: 0 <= k < |jobs| && 0 <= ii < jobs[k].rows && 0 <= jj < jobs[k].cols &&
                        Pick(palettes, jobs[k].pal).Ok? && w == JobTile(palettes, jobs[k], ii, jj)
  }

  lemma FromJobsCons(palettes: map<int, seq<u16>>, job: Job, rest: seq<Job>, w: TileWrite)
    requires FromJobs(palettes, rest, w)
    ensures FromJobs(palettes, [job] + rest, w)
  {
    var k, ii, jj :| 0 <= k < |rest| && 0 <= ii < rest[k].rows && 0 <= jj < rest[k].cols &&
                     Pick(palettes, rest[k].pal).Ok? && w == JobTile(palettes, rest[k], ii, jj);
    assert ([job] + rest)[k + 1] == rest[k];
  }

  /** Every tile written is the tile at some position of some job, quantised from that
      position's window against the palette the job's id picks. */
  lemma {:induction false} ScheduleFromJobs(palettes: map<int, seq<u16>>, jobs: seq<Job>, done: seq<int>)
    ensures forall a :: 0 <= a < |Schedule(palettes, jobs, done).0| ==>
              FromJobs(palettes, jobs, Schedule(palettes, jobs, done).0[a])
    decreases |jobs|, 1, 0, 0
  {
    if jobs != [] {
      var p := Pick(palettes, jobs[0].pal);
      if p.Ok? {
        GridFromJobs(palettes, jobs[0], p.value.0, p.value.1, 0, 0, jobs[0].tile, done, jobs[1..]);
        assert [jobs[0]] + jobs[1..] == jobs;
      }
    }
  }

  lemma {:induction false} GridFromJobs(palettes: map<int, seq<u16>>, job: Job, palette: seq<u16>, pali: int,
                                        i: nat, j: nat, tile: int, done: seq<int>, rest: seq<Job>)
    requires Pick(palettes, job.pal) == Ok((palette, pali))
    requires j <= job.cols && tile == job.tile + i * job.cols + j
    ensures forall a :: 0 <= a < |Grid(palettes, job, palette, pali, i, j, tile, done, rest).0| ==>
              FromJobs(palettes, [job] + rest, Grid(palettes, job, palette, pali, i, j, tile, done, rest).0[a])
    decreases |rest| + 1, 0, job.rows - i, job.cols - j
  {
    var ws := Grid(palettes, job, palette, pali, i, j, tile, done, rest).0;
    if i >= job.rows {
      ScheduleFromJobs(palettes, rest, done);
      forall a | 0 <= a < |ws| ensures FromJobs(palettes, [job] + rest, ws[a]) {
        FromJobsCons(palettes, job, rest, ws[a]);
      }
    } else if j >= job.cols {
      assert (i + 1) * job.cols == i * job.cols + job.cols;
      GridFromJobs(palettes, job, palette, pali, i + 1, 0, tile, done, rest);
    } else if tile in done {
      GridFromJobs(palettes, job, palette, pali, i, j + 1, tile + 1, done, rest);
    } else {
      GridFromJobs(palettes, job, palette, pali, i, j + 1, tile + 1, done + [tile], rest);
      var r := Grid(palettes, job, palette, pali, i, j + 1, tile + 1, done + [tile], rest).0;
      var w := TileWrite(tile, job.ox + j * TileSize, job.oy + i * TileSize, palette, pali);
      assert ws == [w] + r;
      assert w == JobTile(palettes, ([job] + rest)[0], i, j);
      forall a | 0 <= a < |ws| ensures FromJobs(palettes, [job] + rest, ws[a]) {
        if a > 0 {
          assert ws[a] == r[a - 1];
        }
      }
    }
  }

  /** Every position of a job's grid that is reached gets its tile written: position
      (ii, jj) at or after (i, j), whose tile is not done, is written from its window
      against the job's palette. */
  lemma {:induction false} GridReaches(palettes: map<int, seq<u16>>, job: Job, palette: seq<u16>, pali: int,
                                       i: nat, j: nat, tile: int, done: seq<int>, rest: seq<Job>, ii: nat, jj: nat)
    requires Pick(palettes, job.pal) == Ok((palette, pali))
    requires j <= job.cols && tile == job.tile + i * job.cols + j
    requires ii < job.rows && jj < job.cols && (i < ii || (i == ii && j <= jj))
    requires job.tile + ii * job.cols + jj !in done
    ensures JobTile(palettes, job, ii, jj) in Grid(palettes, job, palette, pali, i, j, tile, done, rest).0
    decreases job.rows - i, job.cols - j
  {
    if i == ii && j == jj {
    } else if j >= job.cols {
      assert (i + 1) * job.cols == i * job.cols + job.cols;
      GridReaches(palettes, job, palette, pali, i + 1, 0, tile, done, rest, ii, jj);
    } else {
      assert tile < job.tile + ii * job.cols + jj by {
        if i < ii {
          MulAtLeast(ii - i, job.cols);
          assert ii * job.cols == i * job.cols + (ii - i) * job.cols;
        }
      }
      if tile in done {
        GridReaches(palettes, job, palette, pali, i, j + 1, tile + 1, done, rest, ii, jj);
      } else {
        GridReaches(palettes, job, palette, pali, i, j + 1, tile + 1, done + [tile], rest, ii, jj);
      }
    }
  }

  /** The tiles done once the grid of `job` is walked from (i, j) on. */
  function GridDone(job: Job, i: nat, j: nat, tile: int, done: seq<int>): seq<int>
    decreases job.rows - i, job.cols - j
  {
    if i >= job.rows then done
    else if j >= job.cols then GridDone(job, i + 1, 0, tile, done)
    else if tile in done then GridDone(job, i, j + 1, tile + 1, done)
    else GridDone(job, i, j + 1, tile + 1, done + [tile])
  }

  /** A job's grid marks done only tiles of its own positions: the counter values from
      `tile` up to the last position. */
  lemma {:induction false} GridDoneBound(job: Job, i: nat, j: nat, tile: int, done: seq<int>, t: int)
    requires j <= job.cols
    ensures t in GridDone(job, i, j, tile, done) ==>
              t in done || (i < job.rows && tile <= t < tile + (job.rows - i) * job.cols - j)
    decreases job.rows - i, job.cols - j
  {
    if i >= job.rows {
    } else if j >= job.cols {
      assert (job.rows - i) * job.cols == (job.rows - i - 1) * job.cols + job.cols;
      GridDoneBound(job, i + 1, 0, tile, done, t);
    } else {
      MulAtLeast(job.rows - i, job.cols);
      if tile in done {
        GridDoneBound(job, i, j + 1, tile + 1, done, t);
      } else {
        GridDoneBound(job, i, j + 1, tile + 1, done + [tile], t);
      }
    }
  }

  /** The writes of the jobs after `job` stay in the schedule, from the tiles its grid
      left done. */
  lemma {:induction false} GridKeepsRest(palettes: map<int, seq<u16>>, job: Job, palette: seq<u16>, pali: int,
                                         i: nat, j: nat, tile: int, done: seq<int>, rest: seq<Job>, w: TileWrite)
    ensures w in Schedule(palettes, rest, GridDone(job, i, j, tile, done)).0 ==>
              w in Grid(palettes, job, palette, pali, i, j, tile, done, rest).0
    decreases job.rows - i, job.cols - j
  {
    if i >= job.rows {
    } else if j >= job.cols {
      GridKeepsRest(palettes, job, palette, pali, i + 1, 0, tile, done, rest, w);
    } else if tile in done {
      GridKeepsRest(palettes, job, palette, pali, i, j + 1, tile + 1, done, rest, w);
    } else {
      GridKeepsRest(palettes, job, palette, pali, i, j + 1, tile + 1, done + [tile], rest, w);
    }
  }

  /** Every position of every job is written unless its tile is taken: with the
      palettes of job `a` and those before it found, the tile at (ii, jj) of job `a`,
      neither done nor inside the tile range of an earlier job, is written from its
      window against job `a`'s palette. */
  lemma {:induction false} ScheduleReaches(palettes: map<int, seq<u16>>, jobs: seq<Job>, done: seq<int>, a: nat, ii: nat, jj: nat)
    requires a < |jobs| && ii < jobs[a].rows && jj < jobs[a].cols
    requires forall b :: 0 <= b <= a ==> Pick(palettes, jobs[b].pal).Ok?
    requires jobs[a].tile + ii * jobs[a].cols + jj !in done
    requires forall b :: 0 <= b < a ==>
               !(jobs[b].tile <= jobs[a].tile + ii * jobs[a].cols + jj < jobs[b].tile + jobs[b].rows * jobs[b].cols)
    ensures JobTile(palettes, jobs[a], ii, jj) in Schedule(palettes, jobs, done).0
    decreases a
  {
    var p := Pick(palettes, jobs[0].pal).value;
    if a == 0 {
      GridReaches(palettes, jobs[0], p.0, p.1, 0, 0, jobs[0].tile, done, jobs[1..], ii, jj);
    } else {
      var done' := GridDone(jobs[0], 0, 0, jobs[0].tile, done);
      var t := jobs[a].tile + ii * jobs[a].cols + jj;
      GridDoneBound(jobs[0], 0, 0, jobs[0].tile, done, t);
      assert jobs[1..][a - 1] == jobs[a];
      ScheduleReaches(palettes, jobs[1..], done', a - 1, ii, jj);
      GridKeepsRest(palettes, jobs[0], p.0, p.1, 0, 0, jobs[0].tile, done, jobs[1..], JobTile(palettes, jobs[a], ii, jj));
    }
  }

  /** `job` is the job of an unmirrored cell `c` of a bank `b` at or after `b0` that is
      not skipped, drawn `HeightBetween(banks, b0, b)` rows below `h`. */
  ghost predicate FromBanks(bpp: int, blocksize: byte, banks: seq<Bank>, b0: nat, h: int, job: Job)
    requires ValidDepth(bpp)
  {
    exists b, c :: b0 <= b < |banks| && 0 <= c < |banks[b].cells| && !Skipped(banks[b]) && !Mirrored(banks[b].cells[c]) &&
                   job == CellJob(bpp, blocksize, banks[b], banks[b].cells[c], h + HeightBetween(banks, b0, b))
  }

  /** `job` is the job of an unmirrored cell of `bank` at or after `c0`. */
  ghost predicate FromCells(bpp: int, blocksize: byte, bank: Bank, c0: nat, h: int, job: Job)
    requires ValidDepth(bpp)
  {
    exists c :: c0 <= c < |bank.cells| && !Mirrored(bank.cells[c]) && job == CellJob(bpp, blocksize, bank, bank.cells[c], h)
  }

  /** The jobs of a bank's cells from `c0` on are those of its unmirrored cells. */
  lemma {:induction false} CellJobsFrom(bpp: int, blocksize: byte, bank: Bank, c0: nat, h: int, a: nat)
    requires ValidDepth(bpp) && c0 < |bank.cells| && a < |CellJobs(bpp, blocksize, bank, c0, h)|
    ensures FromCells(bpp, blocksize, bank, c0, h, CellJobs(bpp, blocksize, bank, c0, h)[a])
    decreases |bank.cells| - c0
  {
    var rest := CellJobs(bpp, blocksize, bank, c0 + 1, h);
    var jobs := CellJobs(bpp, blocksize, bank, c0, h);
    assert jobs == (if Mirrored(bank.cells[c0]) then [] else [CellJob(bpp, blocksize, bank, bank.cells[c0], h)]) + rest;
    if Mirrored(bank.cells[c0]) || a > 0 {
      var later := if Mirrored(bank.cells[c0]) then a else a - 1;
      assert jobs[a] == rest[later];
      assert c0 + 1 < |bank.cells|;
      CellJobsFrom(bpp, blocksize, bank, c0 + 1, h, later);
      var c :| c0 + 1 <= c < |bank.cells| && !Mirrored(bank.cells[c]) &&
               rest[later] == CellJob(bpp, blocksize, bank, bank.cells[c], h);
      assert c0 <= c;
    } else {
      assert !Mirrored(bank.cells[c0]) && jobs[0] == CellJob(bpp, blocksize, bank, bank.cells[c0], h);
    }
  }

  /** The job of cell `c` of bank `b`, drawn `HeightBetween(banks, b0, b)` below `h`,
      comes from the banks from `b0` on. */
  lemma FromBanksIntro(bpp: int, blocksize: byte, banks: seq<Bank>, b0: nat, h: int, b: nat, c: nat)
    requires ValidDepth(bpp) && b0 <= b < |banks| && c < |banks[b].cells|
    requires !Skipped(banks[b]) && !Mirrored(banks[b].cells[c])
    ensures FromBanks(bpp, blocksize, banks, b0, h, CellJob(bpp, blocksize, banks[b], banks[b].cells[c], h + HeightBetween(banks, b0, b)))
  {
  }

  /** The bank and cell a job from the banks from `b0` on comes from. */
  lemma FromBanksWitness(bpp: int, blocksize: byte, banks: seq<Bank>, b0: nat, h: int, job: Job) returns (b: nat, c: nat)
    requires ValidDepth(bpp) && FromBanks(bpp, blocksize, banks, b0, h, job)
    ensures b0 <= b < |banks| && c < |banks[b].cells| && !Skipped(banks[b]) && !Mirrored(banks[b].cells[c])
    ensures job == CellJob(bpp, blocksize, banks[b], banks[b].cells[c], h + HeightBetween(banks, b0, b))
  {
    b, c :| b0 <= b < |banks| && 0 <= c < |banks[b].cells| && !Skipped(banks[b]) && !Mirrored(banks[b].cells[c]) &&
            job == CellJob(bpp, blocksize, banks[b], banks[b].cells[c], h + HeightBetween(banks, b0, b));
  }

  /** A job from the banks after `b0` comes from the banks from `b0` on, once `h` is
      moved down past bank `b0` when it is not skipped. */
  lemma FromLaterBank(bpp: int, blocksize: byte, banks: seq<Bank>, b0: nat, h: int, job: Job)
    requires ValidDepth(bpp) && b0 < |banks|
    requires FromBanks(bpp, blocksize, banks, b0 + 1, h + (if Skipped(banks[b0]) then 0 else banks[b0].height), job)
    ensures FromBanks(bpp, blocksize, banks, b0, h, job)
  {
    var below := h + (if Skipped(banks[b0]) then 0 else banks[b0].height);
    var b, c := FromBanksWitness(bpp, blocksize, banks, b0 + 1, below, job);
    assert HeightBetween(banks, b0, b) == (if Skipped(banks[b0]) then 0 else banks[b0].height) + HeightBetween(banks, b0 + 1, b);
    assert job == CellJob(bpp, blocksize, banks[b], banks[b].cells[c], h + HeightBetween(banks, b0, b));
    FromBanksIntro(bpp, blocksize, banks, b0, h, b, c);
  }

  /** A job from the cells of bank `b0`, drawn at `h`, comes from the banks from `b0` on. */
  lemma FromOwnBank(bpp: int, blocksize: byte, banks: seq<Bank>, b0: nat, h: int, job: Job)
    requires ValidDepth(bpp) && b0 < |banks| && !Skipped(banks[b0])
    requires FromCells(bpp, blocksize, banks[b0], 0, h, job)
    ensures FromBanks(bpp, blocksize, banks, b0, h, job)
  {
    var c :| 0 <= c < |banks[b0].cells| && !Mirrored(banks[b0].cells[c]) &&
             job == CellJob(bpp, blocksize, banks[b0], banks[b0].cells[c], h);
    assert HeightBetween(banks, b0, b0) == 0;
    FromBanksIntro(bpp, blocksize, banks, b0, h, b0, c);
  }

  /** Every job comes from an unmirrored cell of a bank that is not skipped, drawn as
      far down as the banks before it that are not skipped reach. */
  lemma {:induction false} BankJobsFrom(bpp: int, blocksize: byte, banks: seq<Bank>, b0: nat, h: int, a: nat)
    requires ValidDepth(bpp) && b0 < |banks| && a < |BankJobs(bpp, blocksize, banks, b0, h)|
    ensures FromBanks(bpp, blocksize, banks, b0, h, BankJobs(bpp, blocksize, banks, b0, h)[a])
    decreases |banks| - b0, 1
  {
    if Skipped(banks[b0]) {
      SkippedBankJobsFrom(bpp, blocksize, banks, b0, h, a);
    } else {
      ShownBankJobsFrom(bpp, blocksize, banks, b0, h, a);
    }
  }

  /** `BankJobsFrom` when bank `b0` is skipped: its jobs are those of the banks after it. */
  lemma {:induction false} SkippedBankJobsFrom(bpp: int, blocksize: byte, banks: seq<Bank>, b0: nat, h: int, a: nat)
    requires ValidDepth(bpp) && b0 < |banks| && a < |BankJobs(bpp, blocksize, banks, b0, h)| && Skipped(banks[b0])
    ensures FromBanks(bpp, blocksize, banks, b0, h, BankJobs(bpp, blocksize, banks, b0, h)[a])
    decreases |banks| - b0, 0
  {
    BankJobsStep(bpp, blocksize, banks, b0, h);
    var rest := BankJobs(bpp, blocksize, banks, b0 + 1, h);
    assert BankJobs(bpp, blocksize, banks, b0, h) == rest;
    assert b0 + 1 < |banks|;
    BankJobsFrom(bpp, blocksize, banks, b0 + 1, h, a);
    FromLaterBank(bpp, blocksize, banks, b0, h, rest[a]);
  }

  /** `BankJobsFrom` when bank `b0` is not skipped: its own cells' jobs come first. */
  lemma {:induction false} ShownBankJobsFrom(bpp: int, blocksize: byte, banks: seq<Bank>, b0: nat, h: int, a: nat)
    requires ValidDepth(bpp) && b0 < |banks| && a < |BankJobs(bpp, blocksize, banks, b0, h)| && !Skipped(banks[b0])
    ensures FromBanks(bpp, blocksize, banks, b0, h, BankJobs(bpp, blocksize, banks, b0, h)[a])
    decreases |banks| - b0, 0
  {
    BankJobsStep(bpp, blocksize, banks, b0, h);
    var jobs := BankJobs(bpp, blocksize, banks, b0, h);
    var own := CellJobs(bpp, blocksize, banks[b0], 0, h);
    var rest := BankJobs(bpp, blocksize, banks, b0 + 1, h + banks[b0].height);
    assert jobs == own + rest;
    if a < |own| {
      assert 0 < |banks[b0].cells|;
      CellJobsFrom(bpp, blocksize, banks[b0], 0, h, a);
      assert jobs[a] == own[a];
      FromOwnBank(bpp, blocksize, banks, b0, h, own[a]);
    } else {
      assert jobs[a] == rest[a - |own|];
      assert b0 + 1 < |banks|;
      BankJobsFrom(bpp, blocksize, banks, b0 + 1, h + banks[b0].height, a - |own|);
      FromLaterBank(bpp, blocksize, banks, b0, h, rest[a - |own|]);
    }
  }

  // ---------------------------------------------------------------------------
  // The loops

  /** A schedule that starts with write `w`: that write on `b`, then the rest on
      what it left; a failing first write stops everything with `b` untouched. */
  lemma OutcomeFirst(b: seq<byte>, ncgr: Ncgr, quant: Quantiser, w: TileWrite, g: (seq<TileWrite>, Option<Error>))
    requires ValidDepth(ncgr.bpp) && Fits(ncgr.bpp, quant)
    ensures var s := WriteStep(b, ncgr, quant, w);
            Outcome(b, ncgr, quant, ([w] + g.0, g.1)) == if s.Err? then (b, Some(s.error)) else Outcome(s.value, ncgr, quant, g)
  {
    assert ([w] + g.0)[0] == w && ([w] + g.0)[1..] == g.0;
  }

  /** One position of a cell's tile grid: write the tile unless it is done. */
  method WriteGridTile(buf: array<byte>, ncgr: Ncgr, quant: Quantiser, palettes: map<int, seq<u16>>, job: Job,
                       palette: seq<u16>, pali: int, i: nat, j: nat, tile: int, done: seq<int>, ghost rest: seq<Job>)
    returns (r: Result<()>, done': seq<int>)
    requires ValidDepth(ncgr.bpp) && Fits(ncgr.bpp, quant)
    requires i < job.rows && j < job.cols
    modifies buf
    ensures r.Ok? ==>
              Outcome(old(buf[..]), ncgr, quant, Grid(palettes, job, palette, pali, i, j, tile, done, rest)) ==
              Outcome(buf[..], ncgr, quant, Grid(palettes, job, palette, pali, i, j + 1, tile + 1, done', rest))
    ensures r.Err? ==>
              Outcome(old(buf[..]), ncgr, quant, Grid(palettes, job, palette, pali, i, j, tile, done, rest)) == (buf[..], Some(r.error))
  {
    done' := done;
    if tile !in done {
      done' := done + [tile];
      var x, y := job.ox + j * TileSize, job.oy + i * TileSize;
      var image := quant(palette, pali);
      ghost var w := TileWrite(tile, x, y, palette, pali);
      ghost var g := Grid(palettes, job, palette, pali, i, j + 1, tile + 1, done', rest);
      assert Grid(palettes, job, palette, pali, i, j, tile, done, rest) == ([w] + g.0, g.1);
      OutcomeFirst(old(buf[..]), ncgr, quant, w, g);
      var pos := ncgr.tileoffset + tile * (32 * (ncgr.bpp / 4));
      assert pos == TilePos(ncgr, tile);
      if pos < 0 || pos + TileBytes(ncgr.bpp) > buf.Length {
        return Err(IndexOutOfRange(pos)), done';
      }
      FitsImageWindow(ncgr.bpp, image, x, y);
      WriteTile(buf, pos, ncgr.bpp, image, x, y);
    }
    return Ok(()), done';
  }

  /** One unmirrored cell: pick the palette, then walk its tile grid row by row. */
  method WriteJob(buf: array<byte>, ncgr: Ncgr, quant: Quantiser, palettes: map<int, seq<u16>>, job: Job,
                  done: seq<int>, ghost rest: seq<Job>) returns (r: Result<()>, done': seq<int>)
    requires ValidDepth(ncgr.bpp) && Fits(ncgr.bpp, quant)
    modifies buf
    ensures r.Ok? ==>
              Outcome(old(buf[..]), ncgr, quant, Schedule(palettes, [job] + rest, done)) ==
              Outcome(buf[..], ncgr, quant, Schedule(palettes, rest, done'))
    ensures r.Err? ==>
              Outcome(old(buf[..]), ncgr, quant, Schedule(palettes, [job] + rest, done)) == (buf[..], Some(r.error))
  {
    done' := done;
    assert ([job] + rest)[0] == job && ([job] + rest)[1..] == rest;
    var palette, pali;
    if job.pal in palettes {
      pali := 0;
      palette := palettes[job.pal];
    } else if 0 in palettes {
      pali := job.pal * 16;
      palette := palettes[0];
    } else {
      return Err(KeyMissing(0)), done';
    }
    ghost var all := Outcome(buf[..], ncgr, quant, Grid(palettes, job, palette, pali, 0, 0, job.tile, done, rest));
    var tile := job.tile;
    for i := 0 to job.rows
      invariant all == Outcome(buf[..], ncgr, quant, Grid(palettes, job, palette, pali, i, 0, tile, done', rest))
    {
      for j := 0 to job.cols
        invariant all == Outcome(buf[..], ncgr, quant, Grid(palettes, job, palette, pali, i, j, tile, done', rest))
      {
        var step;
        step, done' := WriteGridTile(buf, ncgr, quant, palettes, job, palette, pali, i, j, tile, done', rest);
        if step.Err? {
          return step, done';
        }
        tile := tile + 1;
      }
    }
    return Ok(()), done';
  }

  lemma CellJobsStep(bpp: int, blocksize: byte, bank: Bank, c: nat, h: int, rest: seq<Job>)
    requires ValidDepth(bpp) && c < |bank.cells|
    ensures var later := CellJobs(bpp, blocksize, bank, c + 1, h);
            CellJobs(bpp, blocksize, bank, c, h) + rest ==
            if Mirrored(bank.cells[c]) then later + rest else [CellJob(bpp, blocksize, bank, bank.cells[c], h)] + (later + rest)
  {
    var later := CellJobs(bpp, blocksize, bank, c + 1, h);
    if !Mirrored(bank.cells[c]) {
      assert [CellJob(bpp, blocksize, bank, bank.cells[c], h)] + later + rest ==
             [CellJob(bpp, blocksize, bank, bank.cells[c], h)] + (later + rest);
    } else {
      assert [] + later == later;
    }
  }

  /** The cells of one bank that is not skipped, drawn from image row `h` on. */
  method WriteBank(buf: array<byte>, ncgr: Ncgr, quant: Quantiser, palettes: map<int, seq<u16>>, blocksize: byte,
                   bank: Bank, h: int, done: seq<int>, ghost rest: seq<Job>) returns (r: Result<()>, done': seq<int>)
    requires ValidDepth(ncgr.bpp) && Fits(ncgr.bpp, quant)
    modifies buf
    ensures r.Ok? ==>
              Outcome(old(buf[..]), ncgr, quant, Schedule(palettes, CellJobs(ncgr.bpp, blocksize, bank, 0, h) + rest, done)) ==
              Outcome(buf[..], ncgr, quant, Schedule(palettes, rest, done'))
    ensures r.Err? ==>
              Outcome(old(buf[..]), ncgr, quant, Schedule(palettes, CellJobs(ncgr.bpp, blocksize, bank, 0, h) + rest, done)) ==
              (buf[..], Some(r.error))
  {
    done' := done;
    ghost var goal := Outcome(old(buf[..]), ncgr, quant, Schedule(palettes, CellJobs(ncgr.bpp, blocksize, bank, 0, h) + rest, done));
    for c := 0 to |bank.cells|
      invariant goal == Outcome(buf[..], ncgr, quant, Schedule(palettes, CellJobs(ncgr.bpp, blocksize, bank, c, h) + rest, done'))
    {
      var cell := bank.cells[c];
      ghost var next := c + 1;
      ghost var later := CellJobs(ncgr.bpp, blocksize, bank, next, h);
      CellJobsStep(ncgr.bpp, blocksize, bank, c, h, rest);
      if Mirrored(cell) {
        continue;
      }
      var job := CellJob(ncgr.bpp, blocksize, bank, cell, h);
      var step;
      step, done' := WriteJob(buf, ncgr, quant, palettes, job, done', later + rest);
      if step.Err? {
        return step, done';
      }
    }
    assert CellJobs(ncgr.bpp, blocksize, bank, |bank.cells|, h) + rest == rest;
    return Ok(()), done';
  }

  lemma BankJobsStep(bpp: int, blocksize: byte, banks: seq<Bank>, b: nat, h: int)
    requires ValidDepth(bpp) && b < |banks|
    ensures BankJobs(bpp, blocksize, banks, b, h) ==
            if Skipped(banks[b]) then BankJobs(bpp, blocksize, banks, b + 1, h)
            else CellJobs(bpp, blocksize, banks[b], 0, h) + BankJobs(bpp, blocksize, banks, b + 1, h + banks[b].height)
  {
  }

  /** writeNCER over a buffer holding the NCGR file: the banks in order, each drawn
      under the last one that was not skipped. */
  method WriteNcer(buf: array<byte>, ncgr: Ncgr, ncer: Ncer, palettes: map<int, seq<u16>>, quant: Quantiser)
    returns (r: Result<()>)
    requires ValidDepth(ncgr.bpp) && Fits(ncgr.bpp, quant)
    modifies buf
    ensures (buf[..], if r.Err? then Some(r.error) else None) == NcerWrites(old(buf[..]), ncgr, ncer, palettes, quant)
  {
    var blocksize := ncer.header.blocksize;
    var currheight := 0;
    var done: seq<int> := [];
    ghost var goal := NcerWrites(old(buf[..]), ncgr, ncer, palettes, quant);
    for b := 0 to |ncer.banks|
      invariant goal == Outcome(buf[..], ncgr, quant, Schedule(palettes, BankJobs(ncgr.bpp, blocksize, ncer.banks, b, currheight), done))
    {
      var bank := ncer.banks[b];
      BankJobsStep(ncgr.bpp, blocksize, ncer.banks, b, currheight);
      if Skipped(bank) {
        continue;
      }
      var nextheight := currheight + bank.height;
      ghost var rest := BankJobs(ncgr.bpp, blocksize, ncer.banks, b + 1, nextheight);
      assert BankJobs(ncgr.bpp, blocksize, ncer.banks, b, currheight) == CellJobs(ncgr.bpp, blocksize, bank, 0, currheight) + rest;
      var step;
      step, done := WriteBank(buf, ncgr, quant, palettes, blocksize, bank, currheight, done, rest);
      if step.Err? {
        return step;
      }
      currheight := nextheight;
    }
    return Ok(());
  }
}
