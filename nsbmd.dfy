/** The texture block (TEX0) of an NSBMD model, as readNSBMD reads it: the block
    header, the texture and palette directories, the size of each palette, and the
    texel and palette words. */
module Nsbmd {
  import opened Bytes
  import Nclr

  /** Bits per texel of each of the eight texture formats (`NSBMDbpp`). */
  const TexelBits: seq<nat> := [0, 8, 2, 4, 8, 2, 8, 16]

  /** `MD`, the start of `MDL0`, read as a 16-bit word: the texture-block offset holds
      it when the model has no texture block. */
  const NoTextureBlock := 17485

  /** The block header. The offsets are absolute: the stored ones plus `blockoffset`. */
  datatype Header = Header(
    blockoffset: u16, blocksize: u32, blocklimit: nat,
    texdatasize: nat, texdataoffset: nat,
    sptexsize: nat, sptexoffset: nat, spdataoffset: nat,
    paldatasize: nat, paldefoffset: nat, paldataoffset: nat,
    texnum: byte)

  /** A texture: where its texels start, its format and size, and its data: bytes,
      or for format 5 one 32-bit word per 4x4 block with `spdata` holding the blocks'
      16-bit palette descriptors. */
  datatype Texture = Texture(offset: nat, format: nat, width: nat, height: nat, size: nat,
                             data: seq<nat>, spdata: seq<u16>)

  /** A palette: where it starts, how many bytes it takes, and its colour words. */
  datatype Palette = Palette(offset: nat, size: int, data: seq<u16>)

  datatype Nsbmd = Nsbmd(header: Header, textures: seq<Texture>, palettes: seq<Palette>)

  /** The header: the block offset at 20, then the fields of the block at fixed
      distances from it; the texture count is the byte at 61. */
  function ReadHeader(file: seq<byte>): (r: Result<Option<Header>>)
    ensures r.Ok? <==> 22 <= |file| && (U16At(file, 20).value == NoTextureBlock || U16At(file, 20).value + 62 <= |file|)
    ensures r.Ok? ==> (r.value.None? <==> U16At(file, 20).value == NoTextureBlock)
    ensures r.Ok? && r.value.Some? ==>
              var h := r.value.value;
              var bo := h.blockoffset;
              bo == U16At(file, 20).value && h.texnum == file[bo + 61] &&
              h.blocklimit == bo + U32At(file, bo + 4).value &&
              h.texdataoffset == bo + U32At(file, bo + 20).value &&
              h.sptexoffset == bo + U32At(file, bo + 36).value &&
              h.spdataoffset == bo + U32At(file, bo + 40).value &&
              h.paldefoffset == bo + U32At(file, bo + 52).value &&
              h.paldataoffset == bo + U32At(file, bo + 56).value
  {
    var bo :- U16At(file, 20);
    if bo == NoTextureBlock then Ok(None)
    else
      var blocksize :- U32At(file, bo + 4);
      var texdatasize :- U16At(file, bo + 12);
      var texdataoffset :- U32At(file, bo + 20);
      var sptexsize :- U16At(file, bo + 28);
      var sptexoffset :- U32At(file, bo + 36);
      var spdataoffset :- U32At(file, bo + 40);
      var paldatasize :- U16At(file, bo + 48);
      var paldefoffset :- U32At(file, bo + 52);
      var paldataoffset :- U32At(file, bo + 56);
      var texnum :- ByteAt(file, bo + 61);
      Ok(Some(Header(bo, blocksize, blocksize + bo, 8 * texdatasize, texdataoffset + bo,
                     8 * sptexsize, sptexoffset + bo, spdataoffset + bo,
                     8 * paldatasize, paldefoffset + bo, paldataoffset + bo, texnum)))
  }

  // ---------------------------------------------------------------------------
  // Texture parameters

  /** What a texture's parameter word says: format, width and height in texels. */
  datatype Param = Param(format: nat, width: nat, height: nat)

  /** Bits 10-12 give the format, bits 4-6 and 7-9 the width and the height as
      `8 << k`. */
  function DecodeParam(param: u16): (p: Param)
    ensures p.format < 8
    ensures p.width >= 8 && p.width % 8 == 0 && p.height >= 8 && p.height % 8 == 0
  {
    var w := Pow2(Bits(param, 0x10, 8));
    var h := Pow2(Bits(param, 0x80, 8));
    EightTimes(w);
    EightTimes(h);
    Param(Bits(param, 0x400, 8), 8 * w, 8 * h)
  }

  lemma EightTimes(n: nat)
    ensures (8 * n) % 8 == 0
  {
    DivModUnique(8 * n, 8, n, 0);
  }

  /** The bit layout of the parameter word: whatever the other bits hold, the
      three fields come back from their positions. */
  lemma ParamFields(lo: nat, wexp: nat, hexp: nat, format: nat, hi: nat)
    requires lo < 16 && wexp < 8 && hexp < 8 && format < 8 && hi < 8
    ensures lo + 16 * wexp + 128 * hexp + 1024 * format + 8192 * hi < 0x1_0000
    ensures DecodeParam(lo + 16 * wexp + 128 * hexp + 1024 * format + 8192 * hi) ==
            Param(format, 8 * Pow2(wexp), 8 * Pow2(hexp))
  {
    var w := lo + 16 * wexp + 128 * hexp + 1024 * format + 8192 * hi;
    FieldAt(w, 0x400, format, hi, lo + 16 * wexp + 128 * hexp);
    FieldAt(w, 0x10, wexp, hexp + 8 * format + 64 * hi, lo);
    FieldAt(w, 0x80, hexp, format + 8 * hi, lo + 16 * wexp);
  }

  /** A 3-bit field `f` sitting at `d` in `w`, with `above` over it and `below` under it. */
  lemma FieldAt(w: nat, d: nat, f: nat, above: nat, below: nat)
    requires 0 < d && below < d && f < 8 && w == (f + 8 * above) * d + below
    ensures Bits(w, d, 8) == f
  {
    DivModUnique(w, d, f + 8 * above, below);
    DivModUnique(f + 8 * above, 8, above, f);
  }

  /** Bytes of texel data: `width * height * bits // 8`. */
  function TexSize(p: Param): nat
    requires p.format < 8
  {
    p.width * p.height * TexelBits[p.format] / 8
  }

  /** A format-5 texture has as many data words (four bytes each) as descriptors
      (two bytes each out of half the size), one of each per 4x4 block. */
  lemma Format5Counts(p: Param)
    requires p.format == 5 && p.width % 4 == 0 && p.height % 4 == 0
    ensures TexSize(p) / 4 == (p.width / 4) * (p.height / 4)
    ensures TexSize(p) / 2 / 2 == (p.width / 4) * (p.height / 4)
  {
    var a, b := p.width / 4, p.height / 4;
    assert p.width * p.height * 2 == 32 * (a * b) by {
      assert p.width == 4 * a && p.height == 4 * b;
    }
    DivModUnique(32 * (a * b), 8, 4 * (a * b), 0);
    DivModUnique(4 * (a * b), 4, a * b, 0);
    DivModUnique(4 * (a * b), 2, 2 * (a * b), 0);
    DivModUnique(2 * (a * b), 2, a * b, 0);
  }

  // ---------------------------------------------------------------------------
  // Texture directory

  /** One directory entry at `p`: the data offset in 8-byte units and the parameter
      word. Format 5 data lies in the compressed-texel area, the rest in the texel area.
      No data is read yet. */
  function TexDef(file: seq<byte>, p: int, h: Header): (r: Result<Texture>)
    ensures r.Ok? <==> 0 <= p && p + 4 <= |file|
  {
    var offset :- U16At(file, p);
    var param :- U16At(file, p + 2);
    var prm := DecodeParam(param);
    Ok(Texture(8 * offset + (if prm.format == 5 then h.sptexoffset else h.texdataoffset),
               prm.format, prm.width, prm.height, TexSize(prm), [], []))
  }

  /** `n` directory entries of 8 bytes each from `p` on. */
  function TexDefs(file: seq<byte>, p: int, n: nat, h: Header): (r: Result<seq<Texture>>)
    ensures r.Ok? <==> n == 0 || (0 <= p && p + 8 * (n - 1) + 4 <= |file|)
    ensures r.Ok? ==> |r.value| == n && forall k :: 0 <= k < n ==> TexDef(file, p + 8 * k, h) == Ok(r.value[k])
    decreases n
  {
    if n == 0 then Ok([])
    else
      var t :- TexDef(file, p, h);
      var rest :- TexDefs(file, p + 8, n - 1, h);
      var defs := [t] + rest;
      assert forall k :: 0 <= k < n ==> TexDef(file, p + 8 * k, h) == Ok(defs[k]) by {
        forall k | 0 <= k < n ensures TexDef(file, p + 8 * k, h) == Ok(defs[k]) {
          if k > 0 {
            assert p + 8 * k == (p + 8) + 8 * (k - 1);
            assert defs[k] == rest[k - 1];
          }
        }
      }
      Ok(defs)
  }

  function ConsTextures(pre: seq<Texture>, r: Result<seq<Texture>>): Result<seq<Texture>>
  {
    if r.Ok? then Ok(pre + r.value) else r
  }

  /** The directory loop: one entry after another. */
  method ReadTexDefs(file: seq<byte>, p: int, n: nat, h: Header) returns (r: Result<seq<Texture>>)
    ensures r == TexDefs(file, p, n, h)
  {
    var defs: seq<Texture> := [];
    var at := p;
    assert TexDefs(file, p, n, h).Ok? ==> [] + TexDefs(file, p, n, h).value == TexDefs(file, p, n, h).value;
    for i := 0 to n
      invariant at == p + 8 * i
      invariant TexDefs(file, p, n, h) == ConsTextures(defs, TexDefs(file, at, n - i, h))
    {
      var t := TexDef(file, at, h);
      if t.Err? {
        return Err(t.error);
      }
      if TexDefs(file, at + 8, n - i - 1, h).Ok? {
        assert defs + [t.value] + TexDefs(file, at + 8, n - i - 1, h).value ==
               defs + ([t.value] + TexDefs(file, at + 8, n - i - 1, h).value);
      }
      defs := defs + [t.value];
      at := at + 8;
    }
    assert defs + [] == defs;
    return Ok(defs);
  }

  // ---------------------------------------------------------------------------
  // Palette directory and sizes

  /** `n` palette offsets, one 16-bit word (in 8-byte units) every 4 bytes from `p` on. */
  function PalOffsets(file: seq<byte>, p: int, n: nat, base: nat): (r: Result<seq<nat>>)
    ensures r.Ok? <==> n == 0 || (0 <= p && p + 4 * (n - 1) + 2 <= |file|)
    ensures r.Ok? ==> |r.value| == n && forall k :: 0 <= k < n ==> r.value[k] == 8 * U16At(file, p + 4 * k).value + base
    decreases n
  {
    if n == 0 then Ok([])
    else
      var w :- U16At(file, p);
      var rest :- PalOffsets(file, p + 4, n - 1, base);
      var offsets := [8 * w + base] + rest;
      assert forall k :: 0 <= k < n ==> offsets[k] == 8 * U16At(file, p + 4 * k).value + base by {
        forall k | 0 <= k < n ensures offsets[k] == 8 * U16At(file, p + 4 * k).value + base {
          if k > 0 {
            assert p + 4 * k == (p + 4) + 4 * (k - 1);
            assert offsets[k] == rest[k - 1];
          }
        }
      }
      Ok(offsets)
  }

  function ConsOffsets(pre: seq<nat>, r: Result<seq<nat>>): Result<seq<nat>>
  {
    if r.Ok? then Ok(pre + r.value) else r
  }

  /** The palette-definition loop. */
  method ReadPalOffsets(file: seq<byte>, p: int, n: nat, base: nat) returns (r: Result<seq<nat>>)
    ensures r == PalOffsets(file, p, n, base)
  {
    var offsets: seq<nat> := [];
    var at := p;
    assert PalOffsets(file, p, n, base).Ok? ==> [] + PalOffsets(file, p, n, base).value == PalOffsets(file, p, n, base).value;
    for i := 0 to n
      invariant at == p + 4 * i
      invariant PalOffsets(file, p, n, base) == ConsOffsets(offsets, PalOffsets(file, at, n - i, base))
    {
      var w := U16At(file, at);
      if w.Err? {
        return Err(w.error);
      }
      var o: nat := 8 * w.value + base;
      if PalOffsets(file, at + 4, n - i - 1, base).Ok? {
        assert offsets + [o] + PalOffsets(file, at + 4, n - i - 1, base).value ==
               offsets + ([o] + PalOffsets(file, at + 4, n - i - 1, base).value);
      }
      offsets := offsets + [o];
      at := at + 4;
    }
    assert offsets + [] == offsets;
    return Ok(offsets);
  }

  /** The first palette at or after `r` whose offset differs from palette `i`'s, or
      the count if there is none. */
  function NextOffset(offsets: seq<nat>, i: nat, r: nat): (s: nat)
    requires i < r <= |offsets|
    ensures r <= s <= |offsets|
    ensures forall k :: r <= k < s ==> offsets[k] == offsets[i]
    ensures s < |offsets| ==> offsets[s] != offsets[i]
    decreases |offsets| - r
  {
    if r < |offsets| && offsets[r] == offsets[i] then NextOffset(offsets, i, r + 1) else r
  }

  /** The size of palette `i`: up to the next palette that starts elsewhere, or up to
      the end of the block if none does. */
  function PaletteSize(offsets: seq<nat>, limit: int, i: nat): int
    requires i < |offsets|
  {
    var r := NextOffset(offsets, i, i + 1);
    if r != |offsets| then offsets[r] - offsets[i] else limit - offsets[i]
  }

  /** The sizes of all palettes. */
  function Sizes(offsets: seq<nat>, limit: int): (r: seq<int>)
    ensures |r| == |offsets|
  {
    seq(|offsets|, i requires 0 <= i < |offsets| => PaletteSize(offsets, limit, i))
  }

  /** The palette-size loop, with the scan for the next differing offset, and the
      assignment after it that sets the last size once more. */
  method PaletteSizes(offsets: seq<nat>, limit: int) returns (sizes: seq<int>)
    ensures sizes == Sizes(offsets, limit)
  {
    var n := |offsets|;
    sizes := seq(n, _ => 0);
    if n > 0 {
      for i := 0 to n
        invariant |sizes| == n
        invariant forall k :: 0 <= k < i ==> sizes[k] == PaletteSize(offsets, limit, k)
      {
        var r := i + 1;
        while r < n && offsets[r] == offsets[i]
          invariant i < r <= n
          invariant NextOffset(offsets, i, i + 1) == NextOffset(offsets, i, r)
          decreases n - r
        {
          r := r + 1;
        }
        if r != n {
          sizes := sizes[i := offsets[r] as int - offsets[i]];
        } else {
          sizes := sizes[i := limit - offsets[i] as int];
        }
      }
      LastPaletteSize(offsets, limit);
      sizes := sizes[n - 1 := limit - offsets[n - 1]];
    }
    assert forall i :: 0 <= i < n ==> sizes[i] == Sizes(offsets, limit)[i];
  }

  /** The last palette always runs to the end of the block, so the assignment after
      the size loop changes nothing. */
  lemma LastPaletteSize(offsets: seq<nat>, limit: int)
    requires |offsets| > 0
    ensures PaletteSize(offsets, limit, |offsets| - 1) == limit - offsets[|offsets| - 1]
  {
  }

  /** Palettes that share an offset share a size. */
  lemma SharedOffsetSharedSize(offsets: seq<nat>, limit: int, i: nat)
    requires i + 1 < |offsets| && offsets[i] == offsets[i + 1]
    ensures PaletteSize(offsets, limit, i) == PaletteSize(offsets, limit, i + 1)
  {
    NextOffsetShift(offsets, i, i + 2);
  }

  lemma {:induction false} NextOffsetShift(offsets: seq<nat>, i: nat, r: nat)
    requires i + 1 < r <= |offsets| && offsets[i] == offsets[i + 1]
    ensures NextOffset(offsets, i, r) == NextOffset(offsets, i + 1, r)
    decreases |offsets| - r
  {
    if r < |offsets| && offsets[r] == offsets[i] {
      NextOffsetShift(offsets, i, r + 1);
    }
  }

  predicate Ascending(offsets: seq<nat>)
  {
    forall a, b :: 0 <= a < b < |offsets| ==> offsets[a] <= offsets[b]
  }

  /** With ascending offsets and a block that reaches past the last one, every size is
      non-negative and no palette runs into one that starts further on. */
  lemma PalettesDoNotOverlap(offsets: seq<nat>, limit: int, i: nat, k: nat)
    requires Ascending(offsets) && |offsets| > 0 && limit >= offsets[|offsets| - 1]
    requires i < |offsets| && k < |offsets|
    ensures PaletteSize(offsets, limit, i) >= 0
    ensures offsets[i] < offsets[k] ==> offsets[i] + PaletteSize(offsets, limit, i) <= offsets[k]
  {
    var r := NextOffset(offsets, i, i + 1);
    if offsets[i] < offsets[k] {
      assert !(k <= i);
      assert !(i < k < r);
    }
  }

  /** `pal` starts at `offset`, takes `size` bytes, and holds the `size // 2` words
      found there. */
  predicate PaletteRead(file: seq<byte>, offset: nat, size: int, pal: Palette)
  {
    pal.offset == offset && pal.size == size && Nclr.Words(file, offset, Count(FloorDiv(size, 2))) == Ok(pal.data)
  }

  /** The colour words of each palette: `size // 2` words from its offset. */
  function PalData(file: seq<byte>, offsets: seq<nat>, sizes: seq<int>): (r: Result<seq<Palette>>)
    requires |sizes| == |offsets|
    ensures r.Ok? ==> |r.value| == |offsets|
    ensures r.Ok? ==> forall k {:trigger r.value[k]} :: 0 <= k < |offsets| ==> PaletteRead(file, offsets[k], sizes[k], r.value[k])
    decreases |offsets|
  {
    if offsets == [] then Ok([])
    else
      var words :- Nclr.Words(file, offsets[0], Count(FloorDiv(sizes[0], 2)));
      var rest :- PalData(file, offsets[1..], sizes[1..]);
      Ok([Palette(offsets[0], sizes[0], words)] + rest)
  }

  function ConsPalettes(pre: seq<Palette>, r: Result<seq<Palette>>): Result<seq<Palette>>
  {
    if r.Ok? then Ok(pre + r.value) else r
  }

  /** One palette of the palette-data loop: its words, then the rest. */
  lemma PalDataStep(file: seq<byte>, offsets: seq<nat>, sizes: seq<int>, i: nat)
    requires |sizes| == |offsets| && i < |offsets|
    ensures var w := Nclr.Words(file, offsets[i], Count(FloorDiv(sizes[i], 2)));
            PalData(file, offsets[i..], sizes[i..]) ==
            if w.Err? then Err(w.error)
            else ConsPalettes([Palette(offsets[i], sizes[i], w.value)], PalData(file, offsets[i + 1..], sizes[i + 1..]))
  {
    assert offsets[i..][1..] == offsets[i + 1..] && sizes[i..][1..] == sizes[i + 1..];
  }

  lemma ConsPalettesAssoc(pre: seq<Palette>, pal: Palette, r: Result<seq<Palette>>)
    ensures ConsPalettes(pre, ConsPalettes([pal], r)) == ConsPalettes(pre + [pal], r)
  {
    if r.Ok? {
      assert pre + ([pal] + r.value) == pre + [pal] + r.value;
    }
  }

  /** The palette-data loop. */
  method ReadPalData(file: seq<byte>, offsets: seq<nat>, sizes: seq<int>) returns (r: Result<seq<Palette>>)
    requires |sizes| == |offsets|
    ensures r == PalData(file, offsets, sizes)
  {
    var pals: seq<Palette> := [];
    assert offsets[0..] == offsets && sizes[0..] == sizes;
    assert PalData(file, offsets, sizes).Ok? ==> [] + PalData(file, offsets, sizes).value == PalData(file, offsets, sizes).value;
    for i := 0 to |offsets|
      invariant PalData(file, offsets, sizes) == ConsPalettes(pals, PalData(file, offsets[i..], sizes[i..]))
    {
      var words, _ := Nclr.ReadPalette(file, offsets[i], Count(FloorDiv(sizes[i], 2)));
      PalDataStep(file, offsets, sizes, i);
      if words.Err? {
        return Err(words.error);
      }
      var pal := Palette(offsets[i], sizes[i], words.value);
      ConsPalettesAssoc(pals, pal, PalData(file, offsets[i + 1..], sizes[i + 1..]));
      pals := pals + [pal];
    }
    assert offsets[|offsets|..] == [] && sizes[|sizes|..] == [];
    assert pals + [] == pals;
    return Ok(pals);
  }

  // ---------------------------------------------------------------------------
  // Texel data

  /** `n` consecutive little-endian 32-bit words from `p` on. */
  function Quads(file: seq<byte>, p: int, n: nat): (r: Result<seq<u32>>)
    ensures r.Ok? <==> n == 0 || (0 <= p && p + 4 * n <= |file|)
    ensures r.Ok? ==> |r.value| == n && forall k :: 0 <= k < n ==> U32At(file, p + 4 * k) == Ok(r.value[k])
    decreases n
  {
    if n == 0 then Ok([])
    else
      var w :- U32At(file, p);
      var rest :- Quads(file, p + 4, n - 1);
      var ws := [w] + rest;
      assert forall k :: 0 <= k < n ==> U32At(file, p + 4 * k) == Ok(ws[k]) by {
        forall k | 0 <= k < n ensures U32At(file, p + 4 * k) == Ok(ws[k]) {
          if k > 0 {
            assert p + 4 * k == (p + 4) + 4 * (k - 1);
            assert ws[k] == rest[k - 1];
          }
        }
      }
      Ok(ws)
  }

  function ConsQuads(pre: seq<u32>, r: Result<seq<u32>>): Result<seq<u32>>
  {
    if r.Ok? then Ok(pre + r.value) else r
  }

  /** One step of the word loop: a short read stops it, a word read joins the words
      done. */
  lemma QuadsStep(file: seq<byte>, ws: seq<u32>, at: int, m: nat)
    requires m > 0
    ensures U32At(file, at).Err? ==> ConsQuads(ws, Quads(file, at, m)) == Err(U32At(file, at).error)
    ensures U32At(file, at).Ok? ==>
              ConsQuads(ws, Quads(file, at, m)) == ConsQuads(ws + [U32At(file, at).value], Quads(file, at + 4, m - 1))
  {
    var rest := Quads(file, at + 4, m - 1);
    if U32At(file, at).Ok? && rest.Ok? {
      assert ws + [U32At(file, at).value] + rest.value == ws + ([U32At(file, at).value] + rest.value);
    }
  }

  method ReadQuads(file: seq<byte>, p: int, n: nat) returns (r: Result<seq<u32>>)
    ensures r == Quads(file, p, n)
  {
    var ws: seq<u32> := [];
    var at := p;
    assert Quads(file, p, n).Ok? ==> [] + Quads(file, p, n).value == Quads(file, p, n).value;
    for i := 0 to n
      invariant at == p + 4 * i
      invariant Quads(file, p, n) == ConsQuads(ws, Quads(file, at, n - i))
    {
      var w := U32At(file, at);
      QuadsStep(file, ws, at, n - i);
      if w.Err? {
        return Err(w.error);
      }
      ws := ws + [w.value];
      at := at + 4;
    }
    assert ws + [] == ws;
    return Ok(ws);
  }

  /** `t'` is `t` with its data read: format 5 holds `size // 4` words and
      `(size >> 1) // 2` descriptors, the other formats at most `size` bytes. */
  predicate Filled(t: Texture, t': Texture)
  {
    t' == t.(data := t'.data, spdata := t'.spdata) &&
    (t.format == 5 ==> |t'.data| == t.size / 4 && |t'.spdata| == t.size / 2 / 2) &&
    (t.format != 5 ==> |t'.data| <= t.size && t'.spdata == t.spdata)
  }

  /** The data of one texture. Format 5 takes `size >> 1` bytes of descriptors from
      `sp` on and `size // 4` words of texels; the others take `size` bytes, or what is
      left of the file. */
  function FillTexture(file: seq<byte>, t: Texture, sp: int): (r: Result<Texture>)
    ensures r.Ok? ==> Filled(t, r.value)
    ensures r.Ok? <==> t.format != 5 || (Nclr.Words(file, sp, t.size / 2 / 2).Ok? && Quads(file, t.offset, t.size / 4).Ok?)
  {
    if t.format == 5 then
      var spdata :- Nclr.Words(file, sp, t.size / 2 / 2);
      var data :- Quads(file, t.offset, t.size / 4);
      Ok(t.(data := data, spdata := spdata))
    else
      Ok(t.(data := ReadBytes(file, t.offset, t.size)))
  }

  /** Where the descriptors of the texture after `t` start. */
  function NextDescriptors(t: Texture, sp: int): int
  {
    if t.format == 5 then sp + t.size / 2 else sp
  }

  /** The texture-data loop: the descriptor position moves on by `size >> 1` after each
      format-5 texture. */
  function TexData(file: seq<byte>, texs: seq<Texture>, sp: int): (r: Result<seq<Texture>>)
    ensures r.Ok? ==> |r.value| == |texs| && forall k :: 0 <= k < |texs| ==> Filled(texs[k], r.value[k])
    decreases |texs|
  {
    if texs == [] then Ok([])
    else
      var t :- FillTexture(file, texs[0], sp);
      var rest :- TexData(file, texs[1..], NextDescriptors(texs[0], sp));
      var filled := [t] + rest;
      assert forall k :: 0 <= k < |texs| ==> Filled(texs[k], filled[k]) by {
        forall k | 0 <= k < |texs| ensures Filled(texs[k], filled[k]) {
          if k > 0 {
            assert texs[k] == texs[1..][k - 1] && filled[k] == rest[k - 1];
          }
        }
      }
      Ok(filled)
  }

  /** One texture of the texture-data loop. */
  method FillStep(file: seq<byte>, tex: Texture, sp: int) returns (r: Result<Texture>, sp': int)
    ensures r == FillTexture(file, tex, sp) && sp' == NextDescriptors(tex, sp)
  {
    sp' := sp;
    if tex.format == 5 {
      var rr := tex.size / 2;
      var spdata, _ := Nclr.ReadPalette(file, sp, rr / 2);
      if spdata.Err? {
        return Err(spdata.error), sp + rr;
      }
      sp' := sp + rr;
      var data := ReadQuads(file, tex.offset, tex.size / 4);
      if data.Err? {
        return Err(data.error), sp';
      }
      r := Ok(tex.(data := data.value, spdata := spdata.value));
    } else {
      r := Ok(tex.(data := ReadBytes(file, tex.offset, tex.size)));
    }
  }

  /** One step of the texture-data loop: a texture that fails stops it, one that fills
      joins the textures done. */
  lemma TexDataStep(file: seq<byte>, done: seq<Texture>, texs: seq<Texture>, i: nat, sp: int)
    requires i < |texs|
    ensures FillTexture(file, texs[i], sp).Err? ==>
              ConsTextures(done, TexData(file, texs[i..], sp)) == Err(FillTexture(file, texs[i], sp).error)
    ensures FillTexture(file, texs[i], sp).Ok? ==>
              ConsTextures(done, TexData(file, texs[i..], sp)) ==
              ConsTextures(done + [FillTexture(file, texs[i], sp).value], TexData(file, texs[i + 1..], NextDescriptors(texs[i], sp)))
  {
    assert texs[i..][0] == texs[i] && texs[i..][1..] == texs[i + 1..];
    var filled := FillTexture(file, texs[i], sp);
    var rest := TexData(file, texs[i + 1..], NextDescriptors(texs[i], sp));
    if filled.Ok? && rest.Ok? {
      assert done + [filled.value] + rest.value == done + ([filled.value] + rest.value);
    }
  }

  method ReadTexData(file: seq<byte>, texs: seq<Texture>, sp0: int) returns (r: Result<seq<Texture>>)
    ensures r == TexData(file, texs, sp0)
  {
    var sp := sp0;
    var done: seq<Texture> := [];
    assert TexData(file, texs, sp0).Ok? ==> [] + TexData(file, texs, sp0).value == TexData(file, texs, sp0).value;
    for i := 0 to |texs|
      invariant TexData(file, texs, sp0) == ConsTextures(done, TexData(file, texs[i..], sp))
    {
      var filled, next := FillStep(file, texs[i], sp);
      TexDataStep(file, done, texs, i, sp);
      if filled.Err? {
        return Err(filled.error);
      }
      done := done + [filled.value];
      sp := next;
    }
    assert texs[|texs|..] == [];
    assert done + [] == done;
    return Ok(done);
  }

  // ---------------------------------------------------------------------------
  // The whole block

  /** readNSBMD: nothing when the model has no texture block; otherwise the header,
      the palette count (the byte after the palette directory's first), the texture
      directory 76 bytes into the block past four bytes per texture, the palette
      directory 16 bytes into its section past four bytes per palette, the sizes,
      the palette words and the texel data, in that order. */
  function Parse(file: seq<byte>): (r: Result<Option<Nsbmd>>)
    ensures r.Ok? ==> 22 <= |file|
    ensures r.Ok? ==> (r.value.None? <==> U16At(file, 20).value == NoTextureBlock)
    ensures 22 <= |file| && U16At(file, 20).value == NoTextureBlock ==> r == Ok(None)
    ensures r.Ok? && r.value.Some? ==>
              ReadHeader(file) == Ok(Some(r.value.value.header)) &&
              TexturesOf(file, r.value.value.header, r.value.value.textures) &&
              PalettesOf(file, r.value.value.header, r.value.value.palettes)
  {
    match ReadHeader(file)
    case Err(e) => Err(e)
    case Ok(None) => Ok(None)
    case Ok(Some(hd)) =>
      match Block(file, hd)
      case Err(e) => Err(e)
      case Ok(m) => Ok(Some(m))
  }

  /** `texs` are the textures of the block's directory, each filled with its data. */
  ghost predicate TexturesOf(file: seq<byte>, hd: Header, texs: seq<Texture>)
  {
    var defs := TexDefs(file, hd.blockoffset + 76 + 4 * hd.texnum, hd.texnum, hd);
    defs.Ok? && TexData(file, defs.value, hd.spdataoffset) == Ok(texs)
  }

  /** Where each palette starts. */
  function OffsetsOf(pals: seq<Palette>): (r: seq<nat>)
    ensures |r| == |pals| && forall k {:trigger pals[k]} :: 0 <= k < |pals| ==> r[k] == pals[k].offset
  {
    seq(|pals|, k requires 0 <= k < |pals| => pals[k].offset)
  }

  /** Palette `k` of `pals` in the palette section of the block: it starts at 8 times
      the word of directory entry `k`, past the palette data offset, and holds the
      words of its size there. */
  ghost predicate PaletteEntry(file: seq<byte>, hd: Header, pals: seq<Palette>, k: nat)
    requires k < |pals|
  {
    var e := hd.paldefoffset + 16 + 4 * |pals| + 4 * k;
    e + 2 <= |file| &&
    pals[k].offset == 8 * U16At(file, e).value + hd.paldataoffset &&
    PaletteRead(file, pals[k].offset, pals[k].size, pals[k])
  }

  /** Each palette runs up to the next palette that starts elsewhere, or to `limit`
      if none does. */
  ghost predicate SizedAsDirectory(pals: seq<Palette>, limit: int)
  {
    forall k {:trigger pals[k]} :: 0 <= k < |pals| ==> pals[k].size == PaletteSize(OffsetsOf(pals), limit, k)
  }

  /** `pals` are the palettes of the block's palette section: as many as the byte
      after the section's first says, each as its directory entry gives it, and each
      sized up to the next palette or the end of the block. */
  ghost predicate PalettesOf(file: seq<byte>, hd: Header, pals: seq<Palette>)
  {
    hd.paldefoffset + 1 < |file| && |pals| == file[hd.paldefoffset + 1] &&
    (forall k {:trigger PaletteEntry(file, hd, pals, k)} :: 0 <= k < |pals| ==> PaletteEntry(file, hd, pals, k)) &&
    SizedAsDirectory(pals, hd.blocklimit)
  }

  /** The palettes read from the directory at `p` are the palettes of the section. */
  lemma PalettesRead(file: seq<byte>, hd: Header, palnum: byte, p: int, offsets: seq<nat>, pals: seq<Palette>)
    requires ByteAt(file, hd.paldefoffset + 1) == Ok(palnum) && p == hd.paldefoffset + 16 + 4 * palnum
    requires PalOffsets(file, p, palnum, hd.paldataoffset) == Ok(offsets)
    requires PalData(file, offsets, Sizes(offsets, hd.blocklimit)) == Ok(pals)
    ensures PalettesOf(file, hd, pals)
  {
    var sizes := Sizes(offsets, hd.blocklimit);
    PalDataOffsets(file, offsets, sizes, pals);
    SizesFromParts(pals, offsets, sizes, hd.blocklimit);
    EntriesFromParts(file, hd, pals, p, palnum, offsets);
  }

  /** Each palette is its directory entry's, given its offset words and its words. */
  lemma EntriesFromParts(file: seq<byte>, hd: Header, pals: seq<Palette>, p: int, n: nat, offsets: seq<nat>)
    requires p == hd.paldefoffset + 16 + 4 * n && |pals| == n
    requires PalOffsets(file, p, n, hd.paldataoffset) == Ok(offsets)
    requires forall k {:trigger pals[k]} :: 0 <= k < n ==>
      pals[k].offset == offsets[k] && PaletteRead(file, pals[k].offset, pals[k].size, pals[k])
    requires hd.paldefoffset + 1 < |file| && n == file[hd.paldefoffset + 1]
    requires SizedAsDirectory(pals, hd.blocklimit)
    ensures PalettesOf(file, hd, pals)
  {
    forall k | 0 <= k < n
      ensures PaletteEntry(file, hd, pals, k)
    {
      assert 4 * k <= 4 * (n - 1);
      assert pals[k].offset == offsets[k];
    }
  }

  /** The sizes the palette-data loop was given are the sizes the directory implies. */
  lemma SizesFromParts(pals: seq<Palette>, offsets: seq<nat>, sizes: seq<int>, limit: int)
    requires OffsetsOf(pals) == offsets && sizes == Sizes(offsets, limit)
    requires forall k {:trigger pals[k]} :: 0 <= k < |pals| ==> pals[k].size == sizes[k]
    ensures SizedAsDirectory(pals, limit)
  {
    forall k | 0 <= k < |pals|
      ensures pals[k].size == PaletteSize(OffsetsOf(pals), limit, k)
    {
      assert pals[k].size == sizes[k];
    }
  }

  /** The palettes the palette-data loop reads start at the offsets it was given, take
      the sizes it was given, and hold the words there. */
  lemma PalDataOffsets(file: seq<byte>, offsets: seq<nat>, sizes: seq<int>, pals: seq<Palette>)
    requires |sizes| == |offsets| && PalData(file, offsets, sizes) == Ok(pals)
    ensures |pals| == |offsets| && OffsetsOf(pals) == offsets
    ensures forall k {:trigger pals[k]} :: 0 <= k < |pals| ==>
      pals[k].size == sizes[k] && PaletteRead(file, pals[k].offset, pals[k].size, pals[k])
  {
    forall k | 0 <= k < |pals|
      ensures pals[k].offset == offsets[k] && pals[k].size == sizes[k]
      ensures PaletteRead(file, pals[k].offset, pals[k].size, pals[k])
    {
      assert PaletteRead(file, offsets[k], sizes[k], pals[k]);
    }
  }

  /** The texture block after its header: palette count, texture directory,
      palette directory, palette data, texel data. */
  function Block(file: seq<byte>, hd: Header): (r: Result<Nsbmd>)
    ensures r.Ok? ==> r.value.header == hd && TexturesOf(file, hd, r.value.textures) && PalettesOf(file, hd, r.value.palettes)
  {
    var palnum :- ByteAt(file, hd.paldefoffset + 1);
    var defs :- TexDefs(file, hd.blockoffset + 76 + 4 * hd.texnum, hd.texnum, hd);
    var p := hd.paldefoffset + 16 + 4 * palnum;
    var offsets :- PalOffsets(file, p, palnum, hd.paldataoffset);
    var pals :- PalData(file, offsets, Sizes(offsets, hd.blocklimit));
    var texs :- TexData(file, defs, hd.spdataoffset);
    PalettesRead(file, hd, palnum, p, offsets, pals);
    Ok(Nsbmd(hd, texs, pals))
  }

  method ReadNsbmd(file: seq<byte>) returns (r: Result<Option<Nsbmd>>)
    ensures r == Parse(file)
  {
    var h := ReadHeader(file);
    if h.Err? {
      return Err(h.error);
    }
    if h.value.None? {
      return Ok(None);
    }
    var m := ReadBlock(file, h.value.value);
    if m.Err? {
      return Err(m.error);
    }
    return Ok(Some(m.value));
  }

  method ReadBlock(file: seq<byte>, hd: Header) returns (r: Result<Nsbmd>)
    ensures r == Block(file, hd)
  {
    var palnum := ByteAt(file, hd.paldefoffset + 1);
    if palnum.Err? {
      return Err(palnum.error);
    }
    var defs := ReadTexDefs(file, hd.blockoffset + 76 + 4 * hd.texnum, hd.texnum, hd);
    if defs.Err? {
      return Err(defs.error);
    }
    var offsets := ReadPalOffsets(file, hd.paldefoffset + 16 + 4 * (palnum.value as int), palnum.value, hd.paldataoffset);
    if offsets.Err? {
      return Err(offsets.error);
    }
    var sizes := PaletteSizes(offsets.value, hd.blocklimit);
    var pals := ReadPalData(file, offsets.value, sizes);
    if pals.Err? {
      return Err(pals.error);
    }
    var texs := ReadTexData(file, defs.value, hd.spdataoffset);
    if texs.Err? {
      return Err(texs.error);
    }
    return Ok(Nsbmd(hd, texs.value, pals.value));
  }

  /** A texture filled from a directory entry has the fields the entry gives. */
  lemma EntryTexture(file: seq<byte>, e: int, hd: Header, t0: Texture, t: Texture)
    requires TexDef(file, e, hd) == Ok(t0) && Filled(t0, t)
    ensures var prm := DecodeParam(U16At(file, e + 2).value);
            0 <= e && e + 4 <= |file| &&
            prm.format < 8 && t.format == prm.format && t.width == prm.width && t.height == prm.height && t.size == TexSize(prm) &&
            t.offset == 8 * U16At(file, e).value + (if t.format == 5 then hd.sptexoffset else hd.texdataoffset) &&
            (t.format == 5 ==> |t.data| == |t.spdata| == (t.width / 4) * (t.height / 4)) &&
            (t.format != 5 ==> |t.data| <= t.size)
  {
    var prm := DecodeParam(U16At(file, e + 2).value);
    if prm.format == 5 {
      Format5Counts(prm);
    }
  }

  /** `t` has the shape the directory parameter `prm` gives, and data of the length
      the texture-data loop reads for it. */
  predicate Shaped(t: Texture, prm: Param)
  {
    prm.format < 8 && t.format == prm.format && t.width == prm.width && t.height == prm.height && t.size == TexSize(prm) &&
    (t.format == 5 ==> |t.data| == |t.spdata| == (t.width / 4) * (t.height / 4)) &&
    (t.format != 5 ==> |t.data| <= t.size)
  }

  /** Texture `k` of a filled directory has the shape of some decoded parameter. */
  lemma DirectoryShape(file: seq<byte>, hd: Header, texs: seq<Texture>, k: nat) returns (prm: Param)
    requires TexturesOf(file, hd, texs) && k < |texs|
    ensures prm.width % 8 == 0 && prm.height % 8 == 0 && Shaped(texs[k], prm)
  {
    DirectoryTexture(file, hd, texs, k);
    prm := DecodeParam(U16At(file, hd.blockoffset + 76 + 4 * hd.texnum + 8 * k + 2).value);
  }

  /** Texture `k` of a filled directory has the fields directory entry `k` gives. */
  lemma DirectoryTexture(file: seq<byte>, hd: Header, texs: seq<Texture>, k: nat)
    requires TexturesOf(file, hd, texs) && k < |texs|
    ensures hd.blockoffset + 76 + 4 * hd.texnum + 8 * k + 4 <= |file|
    ensures Shaped(texs[k], DecodeParam(U16At(file, hd.blockoffset + 76 + 4 * hd.texnum + 8 * k + 2).value))
    ensures texs[k].offset == 8 * U16At(file, hd.blockoffset + 76 + 4 * hd.texnum + 8 * k).value +
                              (if texs[k].format == 5 then hd.sptexoffset else hd.texdataoffset)
  {
    var p := hd.blockoffset + 76 + 4 * hd.texnum;
    var defs := TexDefs(file, p, hd.texnum, hd).value;
    assert Filled(defs[k], texs[k]);
    assert TexDef(file, p + 8 * k, hd) == Ok(defs[k]);
    EntryTexture(file, p + 8 * k, hd, defs[k], texs[k]);
  }
}
