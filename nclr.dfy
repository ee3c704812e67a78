/** NCLR palette bank: the header sizing of readNCLR and the palettes it reads, keyed
    by the ids of the optional index section. Colours are kept as the raw 16-bit words
    the file stores; their conversion to RGBA is not part of this model. */
module Nclr {
  import opened Bytes

  /** Where palette data starts: the offset field counts from here. */
  const DataBase := 0x18

  /** The palette data length the reader uses: a zero or oversized header value falls
      back to the section length minus its 0x18-byte header (possibly negative). */
  function PalLen(length: u32, pallen: u32): (r: int)
    ensures 0 < pallen <= length ==> r == pallen
    ensures (pallen == 0 || pallen > length) ==> r == length - DataBase
  {
    if pallen == 0 || pallen > length then length - DataBase else pallen
  }

  /** Colours per palette: 16 at 4 bpp, 256 at 8 bpp, capped at `pallen // 2`. */
  function ColorNum(bpp: int, pallen: int): (r: int)
    ensures r <= (if bpp == 4 then 16 else 256)
    ensures r <= FloorDiv(pallen, 2)
    ensures r == (if bpp == 4 then 16 else 256) || r == FloorDiv(pallen, 2)
  {
    var full := if bpp == 4 then 0x10 else 0x100;
    if FloorDiv(pallen, 2) < full then FloorDiv(pallen, 2) else full
  }

  /** `range(pallen // (colornum * 2))`: division by zero when no colour fits. */
  function PaletteCount(pallen: int, colornum: int): (r: Result<nat>)
    ensures colornum == 0 <==> r.Err?
    ensures r.Err? ==> r.error == ZeroDivision
    ensures r.Ok? ==> r.value == Count(FloorDiv(pallen, colornum * 2))
  {
    if colornum == 0 then Err(ZeroDivision) else Ok(Count(FloorDiv(pallen, colornum * 2)))
  }

  /** `n` consecutive little-endian 16-bit words from `p` on. */
  function Words(file: seq<byte>, p: int, n: nat): (r: Result<seq<u16>>)
    ensures r.Ok? <==> n == 0 || (0 <= p && p + 2 * n <= |file|)
    ensures r.Ok? ==> |r.value| == n
    ensures r.Ok? ==> forall k :: 0 <= k < n ==> U16At(file, p + 2 * k) == Ok(r.value[k])
    decreases n
  {
    if n == 0 then Ok([])
    else
      var w :- U16At(file, p);
      var rest :- Words(file, p + 2, n - 1);
      var ws := [w] + rest;
      assert forall k :: 0 <= k < n ==> U16At(file, p + 2 * k) == Ok(ws[k]) by {
        forall k | 0 <= k < n ensures U16At(file, p + 2 * k) == Ok(ws[k]) {
          if k > 0 {
            assert p + 2 * k == (p + 2) + 2 * (k - 1);
            assert ws[k] == rest[k - 1];
          }
        }
      }
      Ok(ws)
  }

  /** `count` palettes of `colornum` words each from `p` on, and where reading stopped. */
  function Palettes(file: seq<byte>, p: int, count: nat, colornum: nat): (r: Result<(seq<seq<u16>>, int)>)
    ensures r.Ok? ==> |r.value.0| == count
    ensures r.Ok? ==> forall i :: 0 <= i < count ==> |r.value.0[i]| == colornum
    decreases count
  {
    if count == 0 then Ok(([], p))
    else
      var palette :- Words(file, p, colornum);
      var rest :- Palettes(file, p + 2 * colornum, count - 1, colornum);
      Ok(([palette] + rest.0, rest.1))
  }

  /** The dictionary `{ids[i]: palettes[i]}` built in order: a repeated id keeps the
      palette stored last. */
  function IndexMap(ids: seq<int>, palettes: seq<seq<u16>>): (m: map<int, seq<u16>>)
    requires |ids| == |palettes|
    ensures m.Keys == set i | 0 <= i < |ids| :: ids[i]
  {
    if |ids| == 0 then map[]
    else
      var n := |ids| - 1;
      var m0 := IndexMap(ids[..n], palettes[..n]);
      assert forall i :: 0 <= i < n ==> ids[..n][i] == ids[i];
      assert (set i | 0 <= i < |ids| :: ids[i]) == (set i | 0 <= i < n :: ids[..n][i]) + {ids[n]};
      m0[ids[n] := palettes[n]]
  }

  /** Storing one more pair updates the dictionary at that id. */
  lemma IndexMapSnoc(ids: seq<int>, palettes: seq<seq<u16>>, id: int, palette: seq<u16>)
    requires |ids| == |palettes|
    ensures IndexMap(ids + [id], palettes + [palette]) == IndexMap(ids, palettes)[id := palette]
  {
    assert (ids + [id])[..|ids|] == ids;
    assert (palettes + [palette])[..|palettes|] == palettes;
  }

  /** `0, 1, ..., n - 1`: the ids of a bank without an index section. */
  function Iota(n: nat): (r: seq<int>)
    ensures |r| == n && forall i :: 0 <= i < n ==> r[i] == i
  {
    if n == 0 then [] else Iota(n - 1) + [n - 1]
  }

  /** Palettes are read back to back: palette `i` holds the `colornum` words that start
      `2 * colornum * i` bytes in, and reading stops right after the last one. */
  lemma {:induction false} PalettesLayout(file: seq<byte>, p: int, count: nat, colornum: nat)
    requires Palettes(file, p, count, colornum).Ok?
    ensures Palettes(file, p, count, colornum).value.1 == p + 2 * colornum * count
    ensures forall i, k :: 0 <= i < count && 0 <= k < colornum ==>
              U16At(file, p + 2 * colornum * i + 2 * k) == Ok(Palettes(file, p, count, colornum).value.0[i][k])
    decreases count
  {
    if count > 0 {
      var q := p + 2 * colornum;
      PalettesLayout(file, q, count - 1, colornum);
      var ps := Palettes(file, p, count, colornum).value.0;
      var rest := Palettes(file, q, count - 1, colornum).value.0;
      assert q + 2 * colornum * (count - 1) == p + 2 * colornum * count;
      forall i, k | 0 <= i < count && 0 <= k < colornum
        ensures U16At(file, p + 2 * colornum * i + 2 * k) == Ok(ps[i][k])
      {
        if i > 0 {
          assert ps[i] == rest[i - 1];
          assert q + 2 * colornum * (i - 1) == p + 2 * colornum * i;
        }
      }
    }
  }

  /** The palette reads succeed exactly when the whole block lies inside the file. */
  lemma {:induction false} PalettesOk(file: seq<byte>, p: int, count: nat, colornum: nat)
    ensures Palettes(file, p, count, colornum).Ok? <==>
              count == 0 || colornum == 0 || (0 <= p && p + 2 * colornum * count <= |file|)
    decreases count
  {
    if count > 0 {
      var q := p + 2 * colornum;
      PalettesOk(file, q, count - 1, colornum);
      assert q + 2 * colornum * (count - 1) == p + 2 * colornum * count;
      if colornum > 0 {
        MulAtLeast(count, 2 * colornum);
        assert 2 * colornum * count == count * (2 * colornum);
      }
    }
  }

  /** With an index section, an id is stored with the last palette that names it. */
  lemma {:induction false} IndexMapLastWins(ids: seq<int>, palettes: seq<seq<u16>>, k: nat)
    requires |ids| == |palettes| && k < |ids|
    requires forall j :: k < j < |ids| ==> ids[j] != ids[k]
    ensures IndexMap(ids, palettes)[ids[k]] == palettes[k]
    decreases |ids|
  {
    var n := |ids| - 1;
    if k < n {
      assert ids[..n][k] == ids[k];
      IndexMapLastWins(ids[..n], palettes[..n], k);
    }
  }

  /** Without an index section, palette `i` is stored under id `i`, and those are all
      the ids. */
  lemma IndexMapSequential(palettes: seq<seq<u16>>)
    ensures forall i :: i in IndexMap(Iota(|palettes|), palettes) <==> 0 <= i < |palettes|
    ensures forall i :: 0 <= i < |palettes| ==> IndexMap(Iota(|palettes|), palettes)[i] == palettes[i]
  {
    var n := |palettes|;
    var ids := Iota(n);
    forall i | 0 <= i < n ensures i in IndexMap(ids, palettes) && IndexMap(ids, palettes)[i] == palettes[i] {
      assert ids[i] == i;
      IndexMapLastWins(ids, palettes, i);
    }
  }

  /** The header fields readNCLR takes from their fixed offsets. */
  datatype Header = Header(sections: u16, length: u32, bpp: int, pallen: int, offset: u32)

  function ReadHeader(file: seq<byte>): (r: Result<Header>)
    ensures r.Ok? <==> 40 <= |file|
    ensures r.Ok? ==> r.value.bpp == 4 || r.value.bpp == 8
  {
    var sections :- U16At(file, 14);
    var length :- U32At(file, 20);
    var depth :- U16At(file, 24);
    var pallen :- U32At(file, 32);
    var offset :- U32At(file, 36);
    Ok(Header(sections, length, if depth == 0x04 then 8 else 4, PalLen(length, pallen), offset))
  }

  /** The header and the palettes readNCLR reads, with the position reading stopped at. */
  function ReadBank(file: seq<byte>): (r: Result<(Header, seq<seq<u16>>, int)>)
    ensures |file| < 40 ==> r.Err?
    ensures ReadHeader(file).Ok? && ColorNum(ReadHeader(file).value.bpp, ReadHeader(file).value.pallen) == 0 ==>
              r == Err(ZeroDivision)
    ensures r.Ok? ==> r.value.0 == ReadHeader(file).value
  {
    var h :- ReadHeader(file);
    var colornum := ColorNum(h.bpp, h.pallen);
    var count :- PaletteCount(h.pallen, colornum);
    var (palettes, end) :- Palettes(file, DataBase + h.offset, count, Count(colornum));
    Ok((h, palettes, end))
  }

  /** What readNCLR returns for `file`: the palettes by id. */
  function NclrPalettes(file: seq<byte>): (r: Result<map<int, seq<u16>>>)
    ensures ReadBank(file).Err? ==> r == Err(ReadBank(file).error)
  {
    var (h, palettes, end) :- ReadBank(file);
    if h.sections == 2 then IndexedPalettes(file, end + 16, palettes)
    else Ok(IndexMap(Iota(|palettes|), palettes))
  }

  /** The bank's palettes: `pallen // (colornum * 2)` of them, each of `colornum` words
      read back to back from `0x18 + offset`, and the index section after them. */
  lemma BankLayout(file: seq<byte>)
    requires ReadBank(file).Ok?
    ensures var (h, ps, end) := ReadBank(file).value;
            var colornum := ColorNum(h.bpp, h.pallen);
            var base := DataBase + h.offset;
            colornum != 0 &&
            |ps| == Count(FloorDiv(h.pallen, colornum * 2)) &&
            (forall i :: 0 <= i < |ps| ==> |ps[i]| == Count(colornum)) &&
            end == base + 2 * Count(colornum) * |ps| &&
            (forall i, k :: 0 <= i < |ps| && 0 <= k < Count(colornum) ==>
               U16At(file, base + 2 * Count(colornum) * i + 2 * k) == Ok(ps[i][k]))
  {
    var h := ReadBank(file).value.0;
    var colornum := ColorNum(h.bpp, h.pallen);
    var count := PaletteCount(h.pallen, colornum).value;
    PalettesLayout(file, DataBase + h.offset, count, Count(colornum));
  }

  /** Reading fails unless the `count * colornum` words of palette data lie in the file. */
  lemma BankFits(file: seq<byte>)
    requires ReadHeader(file).Ok?
    requires ColorNum(ReadHeader(file).value.bpp, ReadHeader(file).value.pallen) != 0
    ensures var h := ReadHeader(file).value;
            var colornum := ColorNum(h.bpp, h.pallen);
            var count := Count(FloorDiv(h.pallen, colornum * 2));
            ReadBank(file).Ok? <==>
              count == 0 || colornum < 0 || DataBase + h.offset + 2 * colornum * count <= |file|
  {
    var h := ReadHeader(file).value;
    var colornum := ColorNum(h.bpp, h.pallen);
    var count := PaletteCount(h.pallen, colornum).value;
    PalettesOk(file, DataBase + h.offset, count, Count(colornum));
  }

  /** Without an index section, palette `i` is stored under id `i`, for every palette read. */
  lemma SequentialBank(file: seq<byte>)
    requires ReadBank(file).Ok? && ReadBank(file).value.0.sections != 2
    ensures var (h, ps, end) := ReadBank(file).value;
            var m := NclrPalettes(file);
            m.Ok? &&
            (forall i :: i in m.value <==> 0 <= i < |ps|) &&
            (forall i :: 0 <= i < |ps| ==> m.value[i] == ps[i])
  {
    IndexMapSequential(ReadBank(file).value.1);
  }

  /** With an index section, the ids are the words 16 bytes past the palettes, one per
      palette; an id keeps the last palette that names it. */
  lemma IndexedBank(file: seq<byte>)
    requires ReadBank(file).Ok? && ReadBank(file).value.0.sections == 2
    ensures var (h, ps, end) := ReadBank(file).value;
            var ids := Words(file, end + 16, |ps|);
            var m := NclrPalettes(file);
            m.Ok? <==> ids.Ok?
    ensures var (h, ps, end) := ReadBank(file).value;
            var ids := Words(file, end + 16, |ps|);
            var m := NclrPalettes(file);
            m.Ok? ==>
              (forall x :: x in m.value <==> x in ids.value) &&
              (forall i :: 0 <= i < |ps| && (forall j :: i < j < |ps| ==> ids.value[j] != ids.value[i]) ==>
                 ids.value[i] in m.value && m.value[ids.value[i]] == ps[i])
  {
    var (h, ps, end) := ReadBank(file).value;
    var ids := Words(file, end + 16, |ps|);
    if ids.Ok? {
      assert NclrPalettes(file) == Ok(IndexMap(ids.value, ps));
      IndexMapContents(ids.value, ps);
    }
  }

  /** The ids are the keys of the dictionary, and an id keeps the last palette that
      names it. */
  lemma IndexMapContents(ids: seq<int>, ps: seq<seq<u16>>)
    requires |ids| == |ps|
    ensures forall x :: x in IndexMap(ids, ps) <==> x in ids
    ensures forall i :: 0 <= i < |ps| && (forall j :: i < j < |ps| ==> ids[j] != ids[i]) ==>
              ids[i] in IndexMap(ids, ps) && IndexMap(ids, ps)[ids[i]] == ps[i]
  {
    var m := IndexMap(ids, ps);
    forall x ensures x in m <==> x in ids {
      if x in ids {
        var i :| 0 <= i < |ids| && ids[i] == x;
      }
    }
    forall i | 0 <= i < |ps| && (forall j :: i < j < |ps| ==> ids[j] != ids[i])
      ensures ids[i] in m && m[ids[i]] == ps[i]
    {
      IndexMapLastWins(ids, ps, i);
    }
  }

  /** `r` with `pre` put in front of what it read. */
  function ConsWords(pre: seq<u16>, r: Result<seq<u16>>): Result<seq<u16>>
  {
    if r.Ok? then Ok(pre + r.value) else r
  }

  function ConsPalettes(pre: seq<seq<u16>>, r: Result<(seq<seq<u16>>, int)>): Result<(seq<seq<u16>>, int)>
  {
    if r.Ok? then Ok((pre + r.value.0, r.value.1)) else r
  }

  /** The loop `for j in range(colornum): palette.append(readUShort())` from `pos` on. */
  method ReadPalette(file: seq<byte>, pos: int, colornum: nat) returns (r: Result<seq<u16>>, next: int)
    ensures r == Words(file, pos, colornum)
    ensures next == pos + 2 * colornum
  {
    var palette: seq<u16> := [];
    next := pos;
    assert Words(file, pos, colornum).Ok? ==> [] + Words(file, pos, colornum).value == Words(file, pos, colornum).value;
    for j := 0 to colornum
      invariant Words(file, pos, colornum) == ConsWords(palette, Words(file, next, colornum - j))
      invariant next == pos + 2 * j
    {
      var w := U16At(file, next);
      if w.Err? {
        return Err(w.error), pos + 2 * colornum;
      }
      if Words(file, next + 2, colornum - j - 1).Ok? {
        assert palette + [w.value] + Words(file, next + 2, colornum - j - 1).value
            == palette + ([w.value] + Words(file, next + 2, colornum - j - 1).value);
      }
      palette := palette + [w.value];
      next := next + 2;
    }
    assert Words(file, next, 0) == Ok([]);
    assert palette + [] == palette;
    return Ok(palette), next;
  }

  /** The loop over `range(count)` palettes from `pos` on. */
  method ReadPalettes(file: seq<byte>, pos: int, count: nat, colornum: nat) returns (r: Result<(seq<seq<u16>>, int)>)
    ensures r == Palettes(file, pos, count, colornum)
  {
    var palettes: seq<seq<u16>> := [];
    var at := pos;
    ghost var all := Palettes(file, pos, count, colornum);
    assert all.Ok? ==> [] + all.value.0 == all.value.0;
    for i := 0 to count
      invariant all == ConsPalettes(palettes, Palettes(file, at, count - i, colornum))
    {
      var palette, next := ReadPalette(file, at, colornum);
      if palette.Err? {
        return Err(palette.error);
      }
      if Palettes(file, next, count - i - 1, colornum).Ok? {
        assert palettes + [palette.value] + Palettes(file, next, count - i - 1, colornum).value.0
            == palettes + ([palette.value] + Palettes(file, next, count - i - 1, colornum).value.0);
      }
      palettes := palettes + [palette.value];
      at := next;
    }
    assert palettes + [] == palettes;
    return Ok((palettes, at));
  }

  /** The index section's outcome: one id per palette from `pos` on. */
  function IndexedPalettes(file: seq<byte>, pos: int, palettes: seq<seq<u16>>): (r: Result<map<int, seq<u16>>>)
  {
    var ids :- Words(file, pos, |palettes|);
    Ok(IndexMap(ids, palettes))
  }

  /** What the index loop has done after `i` palettes: read `ids` and numbered the
      first `i` palettes by them. */
  ghost predicate IndexLoop(file: seq<byte>, pos: int, palettes: seq<seq<u16>>, i: nat, at: int, ids: seq<u16>, m: map<int, seq<u16>>)
  {
    i <= |palettes| && |ids| == i &&
    Words(file, pos, |palettes|) == ConsWords(ids, Words(file, at, |palettes| - i)) &&
    m == IndexMap(ids, palettes[..i])
  }

  lemma IndexLoopStart(file: seq<byte>, pos: int, palettes: seq<seq<u16>>)
    ensures IndexLoop(file, pos, palettes, 0, pos, [], map[])
  {
    var all := Words(file, pos, |palettes|);
    assert all.Ok? ==> [] + all.value == all.value;
  }

  lemma IndexLoopStep(file: seq<byte>, pos: int, palettes: seq<seq<u16>>, i: nat, at: int, ids: seq<u16>, m: map<int, seq<u16>>)
    requires IndexLoop(file, pos, palettes, i, at, ids, m) && i < |palettes| && U16At(file, at).Ok?
    ensures var id := U16At(file, at).value;
            IndexLoop(file, pos, palettes, i + 1, at + 2, ids + [id], m[id := palettes[i]])
  {
    var id := U16At(file, at).value;
    var rest := Words(file, at + 2, |palettes| - i - 1);
    if rest.Ok? {
      assert ids + [id] + rest.value == ids + ([id] + rest.value);
    }
    assert palettes[..i + 1] == palettes[..i] + [palettes[i]];
    IndexMapSnoc(ids, palettes[..i], id, palettes[i]);
  }

  lemma IndexLoopShort(file: seq<byte>, pos: int, palettes: seq<seq<u16>>, i: nat, at: int, ids: seq<u16>, m: map<int, seq<u16>>)
    requires IndexLoop(file, pos, palettes, i, at, ids, m) && i < |palettes| && U16At(file, at).Err?
    ensures IndexedPalettes(file, pos, palettes) == Err(U16At(file, at).error)
  {
  }

  lemma IndexLoopDone(file: seq<byte>, pos: int, palettes: seq<seq<u16>>, at: int, ids: seq<u16>, m: map<int, seq<u16>>)
    requires IndexLoop(file, pos, palettes, |palettes|, at, ids, m)
    ensures IndexedPalettes(file, pos, palettes) == Ok(m)
  {
    assert ids + [] == ids && palettes[..|palettes|] == palettes;
  }

  /** `indexedpalettes[f.readUShort()] = palettes[i]` for each palette in turn. */
  method ReadIndex(file: seq<byte>, pos: int, palettes: seq<seq<u16>>) returns (r: Result<map<int, seq<u16>>>)
    ensures r == IndexedPalettes(file, pos, palettes)
  {
    var m: map<int, seq<u16>> := map[];
    var at := pos;
    ghost var ids: seq<u16> := [];
    IndexLoopStart(file, pos, palettes);
    for i := 0 to |palettes|
      invariant IndexLoop(file, pos, palettes, i, at, ids, m)
    {
      var id := U16At(file, at);
      if id.Err? {
        IndexLoopShort(file, pos, palettes, i, at, ids, m);
        return Err(id.error);
      }
      IndexLoopStep(file, pos, palettes, i, at, ids, m);
      m := m[id.value := palettes[i]];
      ids := ids + [id.value];
      at := at + 2;
    }
    IndexLoopDone(file, pos, palettes, at, ids, m);
    return Ok(m);
  }

  /** `{i: palettes[i] for i in range(len(palettes))}`. */
  method NumberPalettes(palettes: seq<seq<u16>>) returns (m: map<int, seq<u16>>)
    ensures m == IndexMap(Iota(|palettes|), palettes)
  {
    m := map[];
    for i := 0 to |palettes|
      invariant m == IndexMap(Iota(i), palettes[..i])
    {
      assert palettes[..i + 1] == palettes[..i] + [palettes[i]];
      IndexMapSnoc(Iota(i), palettes[..i], i, palettes[i]);
      m := m[i := palettes[i]];
    }
    assert palettes[..|palettes|] == palettes;
  }

  /** readNCLR: header, then the palettes word by word, then the index section. */
  method ReadNclr(file: seq<byte>) returns (r: Result<map<int, seq<u16>>>)
    ensures r == NclrPalettes(file)
  {
    var h :- ReadHeader(file);
    var colornum := ColorNum(h.bpp, h.pallen);
    var count :- PaletteCount(h.pallen, colornum);
    var read :- ReadPalettes(file, DataBase + h.offset, count, Count(colornum));
    var (palettes, end) := read;
    if h.sections == 2 {
      r := ReadIndex(file, end + 16, palettes);
    } else {
      var m := NumberPalettes(palettes);
      r := Ok(m);
    }
  }
}
