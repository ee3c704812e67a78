/** Drawing one texture of a model (drawNSBMD): the palette it is drawn with, the
    canvas, the colour of every texel in each of the seven formats, and the two
    drawing loops, row by row and 4x4 block by 4x4 block. */
module Texels {
  import opened Bytes
  import Nsbmd

  /** An RGBA pixel, one channel per field. */
  datatype Rgba = Rgba(r: int, g: int, b: int, a: int)

  /** The canvas background. */
  const Clear := Rgba(0, 0, 0, 0)
  /** The transparent texel of the compressed format. */
  const ClearWhite := Rgba(0xff, 0xff, 0xff, 0)
  /** What a compressed texel shows when its palette entry is missing. */
  const Black := Rgba(0, 0, 0, 0xff)

  /** The colour of a (signed) palette word; stands for common.readPalette. */
  type Colour = int -> Rgba

  /** The weights of a colour mix: the default ones, or `(a * c1 + b * c2) / c`. */
  datatype Weights = Even | Weighted(a: int, b: int, c: int)

  /** Mixes two palette colours; stands for common.sumColors. */
  type Blend = (Rgba, Rgba, Weights) -> Rgba

  // ---------------------------------------------------------------------------
  // Palette and canvas

  /** The texture, its palette and the canvas size. */
  datatype Frame = Frame(tex: Nsbmd.Texture, pal: seq<Rgba>, width: nat, height: nat)

  function Colours(words: seq<u16>, colour: Colour): (r: seq<Rgba>)
    ensures |r| == |words|
  {
    seq(|words|, k requires 0 <= k < |words| => colour(Signed16(words[k])))
  }

  /** Texture `texi` with the palette of the same number, or palette 0 when there
      are fewer palettes; a direct-colour texture takes none. The canvas is 40 pixels
      wider than the texture and tall enough for five rows per eight colours. */
  function Prepare(m: Nsbmd.Nsbmd, texi: nat, colour: Colour): (r: Result<Frame>)
    ensures r.Err? <==> texi >= |m.textures| || (m.textures[texi].format != 7 && |m.palettes| == 0)
    ensures r.Ok? ==> r.value.tex == m.textures[texi]
    ensures r.Ok? && r.value.tex.format == 7 ==>
              r.value.pal == [] && r.value.width == r.value.tex.width && r.value.height == r.value.tex.height
    ensures r.Ok? && r.value.tex.format != 7 ==>
              var words := if texi < |m.palettes| then m.palettes[texi].data else m.palettes[0].data;
              r.value.pal == Colours(words, colour) &&
              r.value.width == r.value.tex.width + 40 &&
              r.value.height >= r.value.tex.height && r.value.height >= |words| / 8 * 5 &&
              (r.value.height == r.value.tex.height || r.value.height == |words| / 8 * 5)
  {
    if texi >= |m.textures| then Err(IndexOutOfRange(texi))
    else
      var tex := m.textures[texi];
      if tex.format == 7 then Ok(Frame(tex, [], tex.width, tex.height))
      else if |m.palettes| == 0 then Err(IndexOutOfRange(0))
      else
        var words := if texi < |m.palettes| then m.palettes[texi].data else m.palettes[0].data;
        var strip := |words| / 8 * 5;
        Ok(Frame(tex, Colours(words, colour), tex.width + 40, if tex.height >= strip then tex.height else strip))
  }

  // ---------------------------------------------------------------------------
  // Channel conversions

  /** The alpha of a translucent texel: the alpha bits widened (`a * 4 + a // 2`),
      then shifted left by three. A3I5 applies it to three bits, A5I3 to five. */
  function Alpha3(a: nat): (r: nat)
  {
    (a * 4 + a / 2) * 8
  }

  lemma Alpha3Range(a: nat)
    requires a < 8
    ensures Alpha3(a) <= 248 && Alpha3(a) % 8 == 0
    ensures a == 0 ==> Alpha3(a) == 0
    ensures a == 7 ==> Alpha3(a) == 248
  {
    var f := a * 4 + a / 2;
    assert f < 32;
    DivModUnique(f * 8, 8, f, 0);
  }

  /** The A5I3 alpha goes through the same widening, on five bits: the value grows
      with the alpha bits and reaches 1112 for the largest. */
  lemma Alpha3OnFiveBits(a: nat, b: nat)
    requires b <= a < 32
    ensures Alpha3(b) <= Alpha3(a) <= 1112 && Alpha3(a) % 8 == 0
    ensures Alpha3(31) == 1112
  {
    var f := a * 4 + a / 2;
    DivModUnique(f * 8, 8, f, 0);
  }

  /** A direct-colour texel: three 5-bit channels shifted into eight, and bit 15
      for opaque. */
  function DirectColour(p: nat): (r: Rgba)
  {
    Rgba(Bits(p, 1, 32) * 8, Bits(p, 32, 32) * 8, Bits(p, 1024, 32) * 8, if Bits(p, 0x8000, 2) == 1 then 0xff else 0)
  }

  /** The 16-bit word a direct colour stands for. */
  function PackColour(c: Rgba): int
  {
    c.r / 8 + 32 * (c.g / 8) + 1024 * (c.b / 8) + (if c.a == 0xff then 0x8000 else 0)
  }

  /** Channels are multiples of 8 up to 248, alpha is 0 or 255, and no bit of the
      word is lost. */
  lemma DirectColourRoundTrip(p: nat)
    requires p < 0x1_0000
    ensures var c := DirectColour(p);
            0 <= c.r <= 248 && 0 <= c.g <= 248 && 0 <= c.b <= 248 && c.r % 8 == 0 && c.g % 8 == 0 && c.b % 8 == 0 &&
            (c.a == 0 || c.a == 0xff) && PackColour(c) == p
  {
    var q1, r := p / 32, p % 32;
    var q2, g := q1 / 32, q1 % 32;
    var o, b := q2 / 32, q2 % 32;
    assert p == r + 32 * g + 1024 * b + 0x8000 * o;
    DivModUnique(p, 1024, b + 32 * o, r + 32 * g);
    DivModUnique(p, 0x8000, o, r + 32 * g + 1024 * b);
    DivModUnique(r * 8, 8, r, 0);
    DivModUnique(g * 8, 8, g, 0);
    DivModUnique(b * 8, 8, b, 0);
  }

  // ---------------------------------------------------------------------------
  // Texels of the non-compressed formats

  /** Formats that draw texel by texel from the data: A3I5, 4, 16 and 256 colours,
      A5I3 and direct colour. */
  predicate Linear(format: nat)
  {
    format == 1 || format == 2 || format == 3 || format == 4 || format == 6 || format == 7
  }

  /** The last data index texel `x` reads. */
  function Needed(format: nat, x: nat): nat
  {
    if format == 2 then x / 4 else if format == 3 then x / 2 else if format == 7 then 2 * x + 1 else x
  }

  /** Palette entry `k`, or nothing when the palette is shorter (a warning). */
  function Lookup(pal: seq<Rgba>, k: nat): (r: Option<Rgba>)
    ensures r.Some? <==> k < |pal|
    ensures r.Some? ==> r.value == pal[k]
  {
    if k < |pal| then Some(pal[k]) else None
  }

  /** Texel `x = i * width + j` of a texture drawn texel by texel: an error when its
      data is missing, nothing when its palette index is past the palette. */
  function Texel(tex: Nsbmd.Texture, pal: seq<Rgba>, x: nat): (r: Result<Option<Rgba>>)
    requires Linear(tex.format)
    ensures r.Err? <==> Needed(tex.format, x) >= |tex.data|
  {
    var d := tex.data;
    if Needed(tex.format, x) >= |d| then Err(IndexOutOfRange(Needed(tex.format, x)))
    else if tex.format == 1 then
      var c := Lookup(pal, Bits(d[x], 1, 32));
      Ok(if c.Some? then Some(c.value.(a := Alpha3(Bits(d[x], 32, 8)))) else None)
    else if tex.format == 2 then
      Ok(Lookup(pal, Bits(d[x / 4], Pow2(2 * (x % 4)), 4)))
    else if tex.format == 3 then
      Ok(Lookup(pal, Bits(d[x / 2], Pow2(4 * (x % 2)), 16)))
    else if tex.format == 4 then
      Ok(Lookup(pal, d[x]))
    else if tex.format == 6 then
      var c := Lookup(pal, Bits(d[x], 1, 8));
      Ok(if c.Some? then Some(c.value.(a := Alpha3(Bits(d[x], 8, 32)))) else None)
    else
      Ok(Some(DirectColour(d[2 * x] + d[2 * x + 1] * 0x100)))
  }

  // ---------------------------------------------------------------------------
  // Texels of the compressed format

  /** Palette entry `k`; inside the `try`, a missing entry draws black. */
  function Entry(pal: seq<Rgba>, k: nat): Rgba
  {
    if k < |pal| then pal[k] else Black
  }

  /** The mix of the two entries at `pali`, or black when either is missing. */
  function Mix(pal: seq<Rgba>, blend: Blend, pali: nat, w: Weights): Rgba
  {
    if pali + 1 < |pal| then blend(pal[pali], pal[pali + 1], w) else Black
  }

  /** A 2-bit texel of a 4x4 block under the block's mode: modes 0 and 2 take four
      entries (mode 0 with texel 3 transparent), modes 1 and 3 take two entries and
      mixes of them (mode 1 half and half with texel 3 transparent, mode 3 five to
      three and three to five). */
  function Compressed(pal: seq<Rgba>, blend: Blend, pali: nat, mode: nat, texel: nat): (r: Rgba)
    requires mode < 4 && texel < 4
    ensures (mode == 0 || mode == 2 || texel <= 1) && !(mode == 0 && texel == 3) ==> r == Entry(pal, pali + texel)
  {
    if mode == 0 then
      if texel == 3 then ClearWhite else Entry(pal, pali + texel)
    else if mode == 2 then Entry(pal, pali + texel)
    else if mode == 1 then
      if texel <= 1 then Entry(pal, pali + texel)
      else if texel == 2 then Mix(pal, blend, pali, Even)
      else ClearWhite
    else
      if texel <= 1 then Entry(pal, pali + texel)
      else if texel == 2 then Mix(pal, blend, pali, Weighted(5, 3, 8))
      else Mix(pal, blend, pali, Weighted(3, 5, 8))
  }

  /** The data word and descriptor of block `(y, x)`, read before its texels. */
  function BlockIndex(tex: Nsbmd.Texture, y: nat, x: nat): nat
  {
    y * (tex.width / 4) + x
  }

  /** Texel `(r, c)` of block `(y, x)`: the descriptor's low 14 bits give the palette
      position in pairs of entries, its top two bits the mode; two bits of the data
      word per texel, in reading order. */
  function BlockTexel(tex: Nsbmd.Texture, pal: seq<Rgba>, blend: Blend, y: nat, x: nat, r: nat, c: nat): (res: Result<Rgba>)
    requires r < 4 && c < 4
    ensures res.Err? <==> BlockIndex(tex, y, x) >= |tex.data| || BlockIndex(tex, y, x) >= |tex.spdata|
  {
    var index := BlockIndex(tex, y, x);
    if index >= |tex.data| || index >= |tex.spdata| then Err(IndexOutOfRange(index))
    else
      var t := tex.data[index];
      var d := tex.spdata[index];
      var pali := 2 * Bits(d, 1, 0x4000);
      var mode := Bits(d, 0x4000, 4);
      Ok(Compressed(pal, blend, pali, mode, Bits(t, Pow2((r * 4 + c) * 2), 4)))
  }

  // ---------------------------------------------------------------------------
  // Pixels

  /** The rows and columns a texture draws: whole blocks for the compressed format,
      the texture's size for the others, none for format 0. */
  function Rows(tex: Nsbmd.Texture): nat
  {
    if tex.format == 5 then 4 * (tex.height / 4) else if Linear(tex.format) then tex.height else 0
  }

  function Cols(tex: Nsbmd.Texture): nat
  {
    if tex.format == 5 then 4 * (tex.width / 4) else if Linear(tex.format) then tex.width else 0
  }

  /** What pixel `(j, i)` (column, row) gets: an error when its data is missing,
      nothing when it stays as the canvas was. */
  function Pixel(tex: Nsbmd.Texture, pal: seq<Rgba>, blend: Blend, i: nat, j: nat): (res: Result<Option<Rgba>>)
    ensures !(i < Rows(tex) && j < Cols(tex)) ==> res == Ok(None)
    ensures i < Rows(tex) && j < Cols(tex) && tex.format != 5 ==>
              (res.Err? <==> Needed(tex.format, i * tex.width + j) >= |tex.data|)
    ensures i < Rows(tex) && j < Cols(tex) && tex.format == 5 ==>
              (res.Err? <==> BlockIndex(tex, i / 4, j / 4) >= |tex.data| || BlockIndex(tex, i / 4, j / 4) >= |tex.spdata|) &&
              (res.Ok? ==> res.value.Some?)
  {
    if !(i < Rows(tex) && j < Cols(tex)) then Ok(None)
    else if tex.format == 5 then
      var c :- BlockTexel(tex, pal, blend, i / 4, j / 4, i % 4, j % 4);
      Ok(Some(c))
    else Texel(tex, pal, i * tex.width + j)
  }

  /** The colour pixel `(j, i)` ends with once the texture is drawn. */
  function Shown(tex: Nsbmd.Texture, pal: seq<Rgba>, blend: Blend, i: nat, j: nat): Rgba
  {
    var p := Pixel(tex, pal, blend, i, j);
    if p.Ok? && p.value.Some? then p.value.value else Clear
  }

  /** No pixel of the texture runs out of data: the drawing finishes. */
  ghost predicate Sound(tex: Nsbmd.Texture, pal: seq<Rgba>, blend: Blend)
  {
    forall i: nat, j: nat :: Pixel(tex, pal, blend, i, j).Ok?
  }

  ghost predicate Shows(canvas: array2<Rgba>, tex: Nsbmd.Texture, pal: seq<Rgba>, blend: Blend)
    reads canvas
  {
    forall x, y :: 0 <= x < canvas.Length0 && 0 <= y < canvas.Length1 ==> canvas[x, y] == Shown(tex, pal, blend, y, x)
  }

  ghost predicate Blank(canvas: array2<Rgba>)
    reads canvas
  {
    forall x, y :: 0 <= x < canvas.Length0 && 0 <= y < canvas.Length1 ==> canvas[x, y] == Clear
  }

  // ---------------------------------------------------------------------------
  // Which textures draw to the end

  /** Data blocks of a compressed texture: one per 4x4 texels. */
  function Blocks(tex: Nsbmd.Texture): nat
  {
    (tex.width / 4) * (tex.height / 4)
  }

  /** The data holds what the texture's size asks for: one word and one descriptor
      per block for the compressed format, `size` entries for the others. */
  ghost predicate Complete(tex: Nsbmd.Texture)
    requires tex.format < 8
  {
    if tex.format == 5 then |tex.data| >= Blocks(tex) && |tex.spdata| >= Blocks(tex)
    else |tex.data| >= Nsbmd.TexSize(Nsbmd.Param(tex.format, tex.width, tex.height))
  }

  lemma RowMajorBelow(w: nat, h: nat, i: nat, j: nat)
    requires i < h && j < w
    ensures i * w + j < w * h
    ensures i == h - 1 && j == w - 1 ==> i * w + j == w * h - 1
  {
    MulMono(i, h - 1, w);
  }

  lemma QuarterOf(p: nat, y: nat)
    requires 4 * y <= p < 4 * y + 4
    ensures p / 4 == y && p % 4 == p - 4 * y
  {
    DivModUnique(p, 4, y, p - 4 * y);
  }

  /** The size of a texture whose width is a multiple of 8, in eighths of its area. */
  lemma SizeInEighths(format: nat, w: nat, h: nat) returns (k: nat)
    requires format < 8 && w % 8 == 0
    ensures w * h == 8 * k
    ensures Nsbmd.TexSize(Nsbmd.Param(format, w, h)) == k * Nsbmd.TexelBits[format]
  {
    k := (w / 8) * h;
    assert w * h == 8 * k by {
      assert w == 8 * (w / 8);
    }
    var bits := Nsbmd.TexelBits[format];
    assert w * h * bits == 8 * (k * bits);
    DivModUnique(8 * (k * bits), 8, k * bits, 0);
  }

  /** Texel `(j, i)` of a texture drawn texel by texel reads within the size, and
      the last texel reads the last entry. */
  lemma LinearReads(tex: Nsbmd.Texture, i: nat, j: nat)
    requires Linear(tex.format) && tex.width % 8 == 0 && i < tex.height && j < tex.width
    ensures var size := Nsbmd.TexSize(Nsbmd.Param(tex.format, tex.width, tex.height));
            Needed(tex.format, i * tex.width + j) < size &&
            (i == tex.height - 1 && j == tex.width - 1 ==> Needed(tex.format, i * tex.width + j) == size - 1)
  {
    var k := SizeInEighths(tex.format, tex.width, tex.height);
    RowMajorBelow(tex.width, tex.height, i, j);
    var x := i * tex.width + j;
    assert x < 8 * k;
    if tex.format == 2 {
      DivModUnique(8 * k - 1, 4, 2 * k - 1, 3);
    } else if tex.format == 3 {
      DivModUnique(8 * k - 1, 2, 4 * k - 1, 1);
    }
  }

  /** Texel `(j, i)` of a compressed texture reads a block below the block count,
      and the last texel reads the last block. */
  lemma BlockReads(tex: Nsbmd.Texture, i: nat, j: nat)
    requires tex.format == 5 && i < Rows(tex) && j < Cols(tex)
    ensures BlockIndex(tex, i / 4, j / 4) < Blocks(tex)
    ensures i == Rows(tex) - 1 && j == Cols(tex) - 1 ==> BlockIndex(tex, i / 4, j / 4) == Blocks(tex) - 1
  {
    RowMajorBelow(tex.width / 4, tex.height / 4, i / 4, j / 4);
    if i == Rows(tex) - 1 && j == Cols(tex) - 1 {
      QuarterOf(i, tex.height / 4 - 1);
      QuarterOf(j, tex.width / 4 - 1);
    }
  }

  /** A texture draws to the end exactly when its data is complete; otherwise its
      last texel is the first one found missing. */
  lemma SoundIffComplete(tex: Nsbmd.Texture, pal: seq<Rgba>, blend: Blend)
    requires tex.format < 8 && tex.width % 8 == 0 && tex.height % 8 == 0
    ensures Sound(tex, pal, blend) <==> Complete(tex)
  {
    if Complete(tex) {
      forall i: nat, j: nat ensures Pixel(tex, pal, blend, i, j).Ok? {
        if i < Rows(tex) && j < Cols(tex) {
          if tex.format == 5 {
            BlockReads(tex, i, j);
          } else {
            LinearReads(tex, i, j);
          }
        }
      }
    } else if tex.format == 5 {
      assert Blocks(tex) > 0;
      assert tex.width / 4 > 0 && tex.height / 4 > 0;
      var i, j := Rows(tex) - 1, Cols(tex) - 1;
      BlockReads(tex, i, j);
      assert !Pixel(tex, pal, blend, i, j).Ok?;
    } else {
      var size := Nsbmd.TexSize(Nsbmd.Param(tex.format, tex.width, tex.height));
      assert size > 0;
      assert Linear(tex.format);
      assert tex.width > 0 && tex.height > 0;
      var i, j := tex.height - 1, tex.width - 1;
      LinearReads(tex, i, j);
      assert !Pixel(tex, pal, blend, i, j).Ok?;
    }
  }

  /** A texture as the reader leaves it draws to the end, except a texture drawn
      texel by texel whose data the file cut short. */
  lemma ReadTextureDraws(file: seq<byte>, k: nat, pal: seq<Rgba>, blend: Blend)
    requires Nsbmd.Parse(file).Ok? && Nsbmd.Parse(file).value.Some? && k < |Nsbmd.Parse(file).value.value.textures|
    ensures var t := Nsbmd.Parse(file).value.value.textures[k];
            Sound(t, pal, blend) <==> t.format == 5 || |t.data| == t.size
  {
    var m := Nsbmd.Parse(file).value.value;
    DirectoryTextureDraws(file, m.header, m.textures, k, pal, blend);
  }

  /** Texture `k` of a filled directory draws to the end exactly when it is compressed
      or its data is whole. */
  lemma DirectoryTextureDraws(file: seq<byte>, hd: Nsbmd.Header, texs: seq<Nsbmd.Texture>, k: nat, pal: seq<Rgba>, blend: Blend)
    requires Nsbmd.TexturesOf(file, hd, texs) && k < |texs|
    ensures Sound(texs[k], pal, blend) <==> texs[k].format == 5 || |texs[k].data| == texs[k].size
  {
    var prm := Nsbmd.DirectoryShape(file, hd, texs, k);
    DecodedTextureDraws(texs[k], prm, pal, blend);
  }

  /** A texture with the shape its directory parameter gives and data as the reader
      fills it draws to the end exactly when it is compressed or its data is whole. */
  lemma DecodedTextureDraws(t: Nsbmd.Texture, prm: Nsbmd.Param, pal: seq<Rgba>, blend: Blend)
    requires prm.format < 8 && prm.width % 8 == 0 && prm.height % 8 == 0 && Nsbmd.Shaped(t, prm)
    ensures Sound(t, pal, blend) <==> t.format == 5 || |t.data| == t.size
  {
    assert Nsbmd.Param(t.format, t.width, t.height) == prm;
    SoundIffComplete(t, pal, blend);
  }

  // ---------------------------------------------------------------------------
  // Drawing

  /** Texel `(r, c)` of block `(y, x)` is pixel `(4 x + c, 4 y + r)`. */
  lemma BlockPixel(tex: Nsbmd.Texture, pal: seq<Rgba>, blend: Blend, y: nat, x: nat, r: nat, c: nat)
    requires tex.format == 5 && y < tex.height / 4 && x < tex.width / 4 && r < 4 && c < 4
    ensures var b := BlockTexel(tex, pal, blend, y, x, r, c);
            Pixel(tex, pal, blend, 4 * y + r, 4 * x + c) == if b.Ok? then Ok(Some(b.value)) else Err(b.error)
  {
    QuarterOf(4 * y + r, y);
    QuarterOf(4 * x + c, x);
  }

  /** The 16 texels of block `(y, x)`, whose word and descriptor exist. */
  method DrawBlock(canvas: array2<Rgba>, tex: Nsbmd.Texture, pal: seq<Rgba>, blend: Blend, y: nat, x: nat)
    requires tex.format == 5 && y < tex.height / 4 && x < tex.width / 4
    requires BlockIndex(tex, y, x) < |tex.data| && BlockIndex(tex, y, x) < |tex.spdata|
    requires Cols(tex) <= canvas.Length0 && Rows(tex) <= canvas.Length1
    modifies canvas
    ensures forall px, py :: 0 <= px < canvas.Length0 && 0 <= py < canvas.Length1 ==>
              canvas[px, py] == if 4 * y <= py < 4 * y + 4 && 4 * x <= px < 4 * x + 4 then Shown(tex, pal, blend, py, px)
                                else old(canvas[px, py])
  {
    var index := BlockIndex(tex, y, x);
    var t := tex.data[index];
    var d := tex.spdata[index];
    var pali := 2 * Bits(d, 1, 0x4000);
    var mode := Bits(d, 0x4000, 4);
    for r := 0 to 4
      invariant forall px, py :: 0 <= px < canvas.Length0 && 0 <= py < canvas.Length1 ==>
                  canvas[px, py] == if 4 * y <= py < 4 * y + r && 4 * x <= px < 4 * x + 4 then Shown(tex, pal, blend, py, px)
                                    else old(canvas[px, py])
    {
      for c := 0 to 4
        invariant forall px, py :: 0 <= px < canvas.Length0 && 0 <= py < canvas.Length1 ==>
                    canvas[px, py] == if (4 * y <= py < 4 * y + r && 4 * x <= px < 4 * x + 4) ||
                                         (py == 4 * y + r && 4 * x <= px < 4 * x + c)
                                      then Shown(tex, pal, blend, py, px)
                                      else old(canvas[px, py])
      {
        var texel := Bits(t, Pow2((r * 4 + c) * 2), 4);
        BlockPixel(tex, pal, blend, y, x, r, c);
        canvas[4 * x + c, 4 * y + r] := Compressed(pal, blend, pali, mode, texel);
      }
    }
  }

  /** The block loop of the compressed format, block rows top to bottom and blocks
      left to right; a missing word or descriptor stops it. */
  method DrawBlocks(canvas: array2<Rgba>, tex: Nsbmd.Texture, pal: seq<Rgba>, blend: Blend) returns (ok: bool)
    requires tex.format == 5 && Cols(tex) <= canvas.Length0 && Rows(tex) <= canvas.Length1 && Blank(canvas)
    modifies canvas
    ensures ok <==> Sound(tex, pal, blend)
    ensures ok ==> Shows(canvas, tex, pal, blend)
  {
    var w, h := tex.width / 4, tex.height / 4;
    for y := 0 to h
      invariant forall px, py :: 0 <= px < canvas.Length0 && 0 <= py < canvas.Length1 ==>
                  canvas[px, py] == if py < 4 * y then Shown(tex, pal, blend, py, px) else Clear
      invariant forall py: nat, px: nat :: py < 4 * y ==> Pixel(tex, pal, blend, py, px).Ok?
    {
      for x := 0 to w
        invariant forall px, py :: 0 <= px < canvas.Length0 && 0 <= py < canvas.Length1 ==>
                    canvas[px, py] == if py < 4 * y || (py < 4 * y + 4 && px < 4 * x) then Shown(tex, pal, blend, py, px) else Clear
        invariant forall py: nat, px: nat :: py < 4 * y || (py < 4 * y + 4 && px < 4 * x) ==> Pixel(tex, pal, blend, py, px).Ok?
      {
        var index := y * w + x;
        if index >= |tex.data| || index >= |tex.spdata| {
          BlockPixel(tex, pal, blend, y, x, 0, 0);
          return false;
        }
        DrawBlock(canvas, tex, pal, blend, y, x);
        forall py: nat, px: nat | 4 * y <= py < 4 * y + 4 && 4 * x <= px < 4 * x + 4
          ensures Pixel(tex, pal, blend, py, px).Ok?
        {
          BlockPixel(tex, pal, blend, y, x, py - 4 * y, px - 4 * x);
        }
      }
    }
    return true;
  }

  /** The texel loop of the other formats, rows top to bottom and texels left to
      right; missing data stops it. */
  method DrawTexels(canvas: array2<Rgba>, tex: Nsbmd.Texture, pal: seq<Rgba>, blend: Blend) returns (ok: bool)
    requires tex.format != 5 && Cols(tex) <= canvas.Length0 && Rows(tex) <= canvas.Length1 && Blank(canvas)
    modifies canvas
    ensures ok <==> Sound(tex, pal, blend)
    ensures ok ==> Shows(canvas, tex, pal, blend)
  {
    for i := 0 to Rows(tex)
      invariant forall x, y :: 0 <= x < canvas.Length0 && 0 <= y < canvas.Length1 ==>
                  canvas[x, y] == if y < i then Shown(tex, pal, blend, y, x) else Clear
      invariant forall y: nat, x: nat :: y < i ==> Pixel(tex, pal, blend, y, x).Ok?
    {
      for j := 0 to Cols(tex)
        invariant forall x, y :: 0 <= x < canvas.Length0 && 0 <= y < canvas.Length1 ==>
                    canvas[x, y] == if y < i || (y == i && x < j) then Shown(tex, pal, blend, y, x) else Clear
        invariant forall y: nat, x: nat :: y < i || (y == i && x < j) ==> Pixel(tex, pal, blend, y, x).Ok?
      {
        var p := Pixel(tex, pal, blend, i, j);
        if p.Err? {
          return false;
        }
        if p.value.Some? {
          canvas[j, i] := p.value.value;
        }
      }
    }
    return true;
  }

  /** drawNSBMD up to the palette strip: a fresh transparent canvas, then the texels;
      a missing texture, palette or texel data is an error. */
  method DrawNsbmd(m: Nsbmd.Nsbmd, texi: nat, colour: Colour, blend: Blend) returns (r: Result<array2<Rgba>>)
    ensures r.Err? <==> Prepare(m, texi, colour).Err? ||
                        !Sound(Prepare(m, texi, colour).value.tex, Prepare(m, texi, colour).value.pal, blend)
    ensures r.Ok? ==> var f := Prepare(m, texi, colour).value;
                      fresh(r.value) && r.value.Length0 == f.width && r.value.Length1 == f.height &&
                      Shows(r.value, f.tex, f.pal, blend)
  {
    var f := Prepare(m, texi, colour);
    if f.Err? {
      return Err(f.error);
    }
    var fr := f.value;
    var canvas := new Rgba[fr.width, fr.height]((_, _) => Clear);
    var ok;
    if fr.tex.format == 5 {
      ok := DrawBlocks(canvas, fr.tex, fr.pal, blend);
    } else {
      ok := DrawTexels(canvas, fr.tex, fr.pal, blend);
    }
    if !ok {
      return Err(IndexOutOfRange(0));
    }
    return Ok(canvas);
  }
}
