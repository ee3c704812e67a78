/** Drawing one tile into a pixel grid (tileToPixels): where each of its 64 pixels
    lands under tiled and under linear addressing, and which ones are painted. */
module Placement {
  import opened Bytes
  import opened Ncgr

  /** Pixels in a tile. */
  const TilePixels := TileSize * TileSize

  /** Where pixel `k` (row `k / 8`, column `k % 8`) of the tile drawn at tile row `i`,
      tile column `j` lands. Linear addressing counts pixels in reading order over an
      image `width` wide; tiled addressing puts the tile at `(8 j, 8 i)`. */
  function Target(lineal: bool, width: int, i: nat, j: nat, k: nat): (int, int)
    requires lineal ==> width > 0
  {
    if lineal then
      var l := i * width * TileSize + j * TileSize * TileSize + k;
      (l % width, l / width)
    else
      (j * TileSize + k % TileSize, i * TileSize + k / TileSize)
  }

  /** Which pixel of the tile, if any, lands on `(x, y)`: the inverse of `Target`. */
  function Source(lineal: bool, width: int, i: nat, j: nat, x: int, y: int): (r: Option<nat>)
    requires width >= 0
    ensures r.Some? ==> r.value < TilePixels
  {
    if lineal then
      if width == 0 || x < 0 || x >= width then None
      else
        var k := y * width + x - (i * width * TileSize + j * TileSize * TileSize);
        if 0 <= k < TilePixels then Some(k) else None
    else
      var i2 := y - i * TileSize;
      var j2 := x - j * TileSize;
      if 0 <= i2 < TileSize && 0 <= j2 < TileSize then Some(i2 * TileSize + j2) else None
  }

  lemma SourceOfTarget(lineal: bool, width: int, i: nat, j: nat, k: nat)
    requires lineal ==> width > 0
    requires width >= 0 && k < TilePixels
    ensures Source(lineal, width, i, j, Target(lineal, width, i, j, k).0, Target(lineal, width, i, j, k).1) == Some(k)
  {
    if lineal {
      var l := i * width * TileSize + j * TileSize * TileSize + k;
      assert (l / width) * width + l % width == l;
      assert (l / width) * width == l / width * width;
    } else {
      assert k == k / TileSize * TileSize + k % TileSize;
    }
  }

  lemma TargetOfSource(lineal: bool, width: int, i: nat, j: nat, x: int, y: int)
    requires width >= 0 && Source(lineal, width, i, j, x, y).Some?
    ensures Target(lineal, width, i, j, Source(lineal, width, i, j, x, y).value) == (x, y)
  {
    var k := Source(lineal, width, i, j, x, y).value;
    if lineal {
      var l := i * width * TileSize + j * TileSize * TileSize + k;
      assert l == y * width + x;
      DivModUnique(l, width, y, x);
    } else {
      var i2 := y - i * TileSize;
      var j2 := x - j * TileSize;
      DivModUnique(k, TileSize, i2, j2);
    }
  }

  /** Pixel `k` gets as far as the coordinate computation: the tile and the pixel
      exist, and the index is not a transparent 0 when transparency is on. */
  predicate Reaches(tiles: seq<seq<byte>>, tile: nat, usetrasp: bool, k: nat)
  {
    tile < |tiles| && k < |tiles[tile]| && (!usetrasp || tiles[tile][k] > 0)
  }

  /** The colour pixel `k` is painted with, if it is painted: a lookup that runs past
      the tile list, the tile or the palette paints nothing. */
  function Paint<C>(tiles: seq<seq<byte>>, tile: nat, palette: seq<C>, pali: nat, usetrasp: bool, k: nat): (r: Option<C>)
    ensures r.Some? ==> Reaches(tiles, tile, usetrasp, k)
    ensures r.Some? <==> Reaches(tiles, tile, usetrasp, k) && pali + tiles[tile][k] < |palette|
  {
    if Reaches(tiles, tile, usetrasp, k) && pali + tiles[tile][k] < |palette| then
      Some(palette[pali + tiles[tile][k]])
    else None
  }

  /** What `(x, y)` holds once the tile's pixels before `n` are drawn over `prev`. */
  function Drawn<C>(prev: C, ncgr: Ncgr, width: int, tile: nat, i: nat, j: nat, palette: seq<C>, pali: nat,
                    usetrasp: bool, x: int, y: int, n: nat): C
    requires width >= 0
  {
    var s := Source(ncgr.lineal, width, i, j, x, y);
    if s.Some? && s.value < n && Paint(ncgr.tiles, tile, palette, pali, usetrasp, s.value).Some? then
      Paint(ncgr.tiles, tile, palette, pali, usetrasp, s.value).value
    else prev
  }

  /** The body of the `try` for pixel `k`: one lookup, one write at most. */
  method DrawPixel<C>(pixels: array2<C>, width: int, ncgr: Ncgr, tile: nat, i: nat, j: nat,
                      palette: seq<C>, pali: nat, usetrasp: bool, k: nat) returns (r: Result<()>)
    requires width >= 0 && k < TilePixels
    modifies pixels
    ensures r.Err? <==> ncgr.lineal && width == 0 && Reaches(ncgr.tiles, tile, usetrasp, k)
    ensures r.Err? ==> r.error == ZeroDivision
    ensures forall x, y :: 0 <= x < pixels.Length0 && 0 <= y < pixels.Length1 ==>
              pixels[x, y] == (if Source(ncgr.lineal, width, i, j, x, y) == Some(k) &&
                                  Paint(ncgr.tiles, tile, palette, pali, usetrasp, k).Some?
                               then Paint(ncgr.tiles, tile, palette, pali, usetrasp, k).value
                               else old(pixels[x, y]))
  {
    if tile >= |ncgr.tiles| || k >= |ncgr.tiles[tile]| {
      return Ok(());
    }
    var index := ncgr.tiles[tile][k];
    if usetrasp && index == 0 {
      return Ok(());
    }
    if ncgr.lineal && width == 0 {
      return Err(ZeroDivision);
    }
    var (px, py) := Target(ncgr.lineal, width, i, j, k);
    SourceOfTarget(ncgr.lineal, width, i, j, k);
    if pali + index < |palette| && 0 <= px < pixels.Length0 && 0 <= py < pixels.Length1 {
      pixels[px, py] := palette[pali + index];
    }
    forall x, y | 0 <= x < pixels.Length0 && 0 <= y < pixels.Length1 && Source(ncgr.lineal, width, i, j, x, y) == Some(k)
      ensures x == px && y == py
    {
      TargetOfSource(ncgr.lineal, width, i, j, x, y);
    }
    return Ok(());
  }

  /** tileToPixels: draws pixel after pixel in reading order. An index error
      skips one pixel; a zero `width` under linear addressing stops the drawing at
      the first pixel that is not skipped, with nothing drawn yet. */
  method TileToPixels<C>(pixels: array2<C>, width: int, ncgr: Ncgr, tile: nat, i: nat, j: nat,
                         palette: seq<C>, pali: nat, usetrasp: bool) returns (r: Result<()>)
    requires width >= 0
    modifies pixels
    ensures r.Err? <==> ncgr.lineal && width == 0 &&
                        exists k :: 0 <= k < TilePixels && Reaches(ncgr.tiles, tile, usetrasp, k)
    ensures r.Err? ==> r.error == ZeroDivision
    ensures forall x, y :: 0 <= x < pixels.Length0 && 0 <= y < pixels.Length1 ==>
              pixels[x, y] == Drawn(old(pixels[x, y]), ncgr, width, tile, i, j, palette, pali, usetrasp, x, y, TilePixels)
  {
    for i2 := 0 to TileSize
      invariant forall x, y :: 0 <= x < pixels.Length0 && 0 <= y < pixels.Length1 ==>
                  pixels[x, y] == Drawn(old(pixels[x, y]), ncgr, width, tile, i, j, palette, pali, usetrasp, x, y, i2 * TileSize)
      invariant ncgr.lineal && width == 0 ==>
                  forall k :: 0 <= k < i2 * TileSize ==> !Reaches(ncgr.tiles, tile, usetrasp, k)
    {
      for j2 := 0 to TileSize
        invariant forall x, y :: 0 <= x < pixels.Length0 && 0 <= y < pixels.Length1 ==>
                    pixels[x, y] == Drawn(old(pixels[x, y]), ncgr, width, tile, i, j, palette, pali, usetrasp, x, y, i2 * TileSize + j2)
        invariant ncgr.lineal && width == 0 ==>
                    forall k :: 0 <= k < i2 * TileSize + j2 ==> !Reaches(ncgr.tiles, tile, usetrasp, k)
      {
        var k := i2 * TileSize + j2;
        r := DrawPixel(pixels, width, ncgr, tile, i, j, palette, pali, usetrasp, k);
        if r.Err? {
          return;
        }
      }
    }
    return Ok(());
  }
}
