/** The glyph table of a font (getFontGlyphs, codeToChar): the metrics list of the
    width section, then the chain of code-map sections, each mapping a range of
    character codes to metrics, directly (type 0) or through a table (type 1). */
module Font {
  import opened Bytes

  /** One width entry: the glyph's left edge (signed), its width and its advance. */
  datatype Metric = Metric(start: int, width: byte, length: byte)

  /** A glyph of the table: its metrics and the character code it came from. */
  datatype Glyph = Glyph(start: int, width: byte, length: byte, code: nat)

  type Glyphs = map<string, Glyph>

  /** Shift-JIS decoding of a big-endian code word, `None` when it does not decode. */
  type Sjis = u16 -> Option<string>

  function Entry(m: Metric, code: nat): Glyph
  {
    Glyph(m.start, m.width, m.length, code)
  }

  // ---------------------------------------------------------------------------
  // Codes

  /** A code below 256 is one byte of ASCII, which fails from 128 on; a wider code is
      two bytes of Shift-JIS. A code that does not decode is the empty string. */
  function CodeToChar(code: u16, sjis: Sjis): string
  {
    if code < 128 then [code as char]
    else if code < 256 then ""
    else if sjis(code).Some? then sjis(code).value
    else ""
  }

  /** Two one-byte codes give the same character exactly when they are equal or both
      fail to decode. */
  lemma OneByteCodes(a: u16, b: u16, sjis: Sjis)
    requires a < 256 && b < 256
    ensures CodeToChar(a, sjis) == CodeToChar(b, sjis) <==> a == b || (a >= 128 && b >= 128)
    ensures a < 128 ==> |CodeToChar(a, sjis)| == 1 && CodeToChar(a, sjis)[0] as int == a
    ensures a >= 128 ==> CodeToChar(a, sjis) == ""
  {
    if CodeToChar(a, sjis) == CodeToChar(b, sjis) && a < 128 {
      assert CodeToChar(b, sjis)[0] == a as char;
    }
  }

  /** The character of the `k`-th code of a section whose first code is `first`. */
  function CodeAt(first: u16, k: nat, sjis: Sjis): string
    requires first + k < 0x10000
  {
    CodeToChar(first + k, sjis)
  }

  // ---------------------------------------------------------------------------
  // Width section

  function Metrics(file: seq<byte>, p: int, n: int): (r: Result<seq<Metric>>)
    ensures r.Ok? <==> n <= 0 || (0 <= p && p + 3 * n <= |file|)
    ensures r.Ok? ==> |r.value| == Count(n)
    ensures r.Ok? ==> forall k :: 0 <= k < Count(n) ==>
                        r.value[k] == Metric(Signed8(file[p + 3 * k]), file[p + 3 * k + 1], file[p + 3 * k + 2])
    decreases Count(n)
  {
    if n <= 0 then Ok([])
    else
      var s :- ByteAt(file, p);
      var w :- ByteAt(file, p + 1);
      var l :- ByteAt(file, p + 2);
      var rest :- Metrics(file, p + 3, n - 1);
      var m := [Metric(Signed8(s), w, l)] + rest;
      assert forall k :: 0 <= k < n ==>
               m[k] == Metric(Signed8(file[p + 3 * k]), file[p + 3 * k + 1], file[p + 3 * k + 2]) by {
        forall k | 0 <= k < n
          ensures m[k] == Metric(Signed8(file[p + 3 * k]), file[p + 3 * k + 1], file[p + 3 * k + 2])
        {
          if k > 0 {
            assert p + 3 * k == (p + 3) + 3 * (k - 1);
            assert m[k] == rest[k - 1];
          }
        }
      }
      Ok(m)
  }

  function ConsMetrics(pre: seq<Metric>, r: Result<seq<Metric>>): Result<seq<Metric>>
  {
    if r.Ok? then Ok(pre + r.value) else r
  }

  /** The width-entry loop: three bytes per entry. */
  method ReadMetrics(file: seq<byte>, p: int, n: int) returns (r: Result<seq<Metric>>)
    ensures r == Metrics(file, p, n)
  {
    var hdwc: seq<Metric> := [];
    var at := p;
    assert Metrics(file, p, n).Ok? ==> [] + Metrics(file, p, n).value == Metrics(file, p, n).value;
    for i := 0 to Count(n)
      invariant at == p + 3 * i
      invariant Metrics(file, p, n) == ConsMetrics(hdwc, Metrics(file, at, n - i))
    {
      var s := ByteAt(file, at);
      var w := ByteAt(file, at + 1);
      var l := ByteAt(file, at + 2);
      if s.Err? {
        return Err(s.error);
      }
      if w.Err? {
        return Err(w.error);
      }
      if l.Err? {
        return Err(l.error);
      }
      var m := Metric(Signed8(s.value), w.value, l.value);
      var rest := Metrics(file, at + 3, n - i - 1);
      if rest.Ok? {
        assert hdwc + ([m] + rest.value) == hdwc + [m] + rest.value;
      }
      hdwc := hdwc + [m];
      at := at + 3;
    }
    assert hdwc + [] == hdwc;
    return Ok(hdwc);
  }

  // ---------------------------------------------------------------------------
  // Code-map sections

  /** A type-0 section from its `i`-th code on: code `first + k` takes width entry
      `firstcode + k`, and an entry past the list is an error. */
  function Direct(hdwc: seq<Metric>, first: u16, last: u16, firstcode: nat, sjis: Sjis, i: nat, g: Glyphs): (r: Result<Glyphs>)
    decreases last - first - i + 1
  {
    if first + i > last then Ok(g)
    else if firstcode + i >= |hdwc| then Err(IndexOutOfRange(firstcode + i))
    else Direct(hdwc, first, last, firstcode, sjis, i + 1, g[CodeAt(first, i, sjis) := Entry(hdwc[firstcode + i], first + i)])
  }

  /** A type-1 section from its `i`-th code on: code `first + k` takes the width entry
      the table word `k` names, unless the word is 0xFFFF or past the list. */
  function Table(file: seq<byte>, at: int, hdwc: seq<Metric>, first: u16, last: u16, sjis: Sjis, i: nat, g: Glyphs): (r: Result<Glyphs>)
    decreases last - first - i + 1
  {
    if first + i > last then Ok(g)
    else
      var charcode :- U16At(file, at + 2 * i);
      if charcode == 0xFFFF || charcode >= |hdwc| then Table(file, at, hdwc, first, last, sjis, i + 1, g)
      else Table(file, at, hdwc, first, last, sjis, i + 1, g[CodeAt(first, i, sjis) := Entry(hdwc[charcode], first + i)])
  }

  /** A type-0 section succeeds exactly when its last code still has a width entry. */
  lemma {:induction false} DirectOk(hdwc: seq<Metric>, first: u16, last: u16, firstcode: nat, sjis: Sjis, i: nat, g: Glyphs)
    ensures Direct(hdwc, first, last, firstcode, sjis, i, g).Ok? <==> first + i > last || firstcode + (last - first) < |hdwc|
    decreases last - first - i + 1
  {
    if first + i <= last && firstcode + i < |hdwc| {
      DirectOk(hdwc, first, last, firstcode, sjis, i + 1, g[CodeAt(first, i, sjis) := Entry(hdwc[firstcode + i], first + i)]);
    }
  }

  /** A character that no code from the `i`-th on decodes to keeps its glyph, or its
      absence. */
  lemma {:induction false} DirectKeeps(hdwc: seq<Metric>, first: u16, last: u16, firstcode: nat, sjis: Sjis, i: nat, g: Glyphs, c: string)
    requires Direct(hdwc, first, last, firstcode, sjis, i, g).Ok?
    requires forall k :: i <= k && first + k <= last ==> CodeAt(first, k, sjis) != c
    ensures var r := Direct(hdwc, first, last, firstcode, sjis, i, g).value;
            (c in r <==> c in g) && (c in g ==> r[c] == g[c])
    decreases last - first - i + 1
  {
    if first + i <= last {
      DirectKeeps(hdwc, first, last, firstcode, sjis, i + 1, g[CodeAt(first, i, sjis) := Entry(hdwc[firstcode + i], first + i)], c);
    }
  }

  /** Code `first + k` ends with width entry `firstcode + k` when no later code of the
      section decodes to the same character: the last code to a character wins. */
  lemma {:induction false} DirectGlyph(hdwc: seq<Metric>, first: u16, last: u16, firstcode: nat, sjis: Sjis, i: nat, g: Glyphs, k: nat)
    requires Direct(hdwc, first, last, firstcode, sjis, i, g).Ok?
    requires i <= k && first + k <= last
    requires forall k' :: k < k' && first + k' <= last ==> CodeAt(first, k', sjis) != CodeAt(first, k, sjis)
    ensures firstcode + k < |hdwc|
    ensures var r := Direct(hdwc, first, last, firstcode, sjis, i, g).value;
            CodeAt(first, k, sjis) in r && r[CodeAt(first, k, sjis)] == Entry(hdwc[firstcode + k], first + k)
    decreases last - first - i + 1
  {
    var g' := g[CodeAt(first, i, sjis) := Entry(hdwc[firstcode + i], first + i)];
    if i == k {
      DirectKeeps(hdwc, first, last, firstcode, sjis, i + 1, g', CodeAt(first, k, sjis));
    } else {
      DirectGlyph(hdwc, first, last, firstcode, sjis, i + 1, g', k);
    }
  }

  /** The type-0 loop. */
  method ApplyDirect(hdwc: seq<Metric>, first: u16, last: u16, firstcode: nat, sjis: Sjis, g: Glyphs) returns (r: Result<Glyphs>)
    ensures r == Direct(hdwc, first, last, firstcode, sjis, 0, g)
  {
    var glyphs := g;
    for i := 0 to Count(last - first + 1)
      invariant Direct(hdwc, first, last, firstcode, sjis, 0, g) == Direct(hdwc, first, last, firstcode, sjis, i, glyphs)
    {
      if firstcode + i >= |hdwc| {
        return Err(IndexOutOfRange(firstcode + i));
      }
      glyphs := glyphs[CodeAt(first, i, sjis) := Entry(hdwc[firstcode + i], first + i)];
    }
    return Ok(glyphs);
  }

  /** Table word `k` of a type-1 section names a width entry. */
  predicate Mapped(file: seq<byte>, at: int, hdwc: seq<Metric>, k: nat)
  {
    var w := U16At(file, at + 2 * k);
    w.Ok? && w.value != 0xFFFF && w.value < |hdwc|
  }

  /** A type-1 section succeeds exactly when its whole table can be read. */
  lemma {:induction false} TableOk(file: seq<byte>, at: int, hdwc: seq<Metric>, first: u16, last: u16, sjis: Sjis, i: nat, g: Glyphs)
    ensures Table(file, at, hdwc, first, last, sjis, i, g).Ok? <==>
            first + i > last || (0 <= at + 2 * i && at + 2 * (last - first) + 2 <= |file|)
    decreases last - first - i + 1
  {
    if first + i <= last {
      var w := U16At(file, at + 2 * i);
      if w.Ok? {
        var g' := if w.value == 0xFFFF || w.value >= |hdwc| then g
                  else g[CodeAt(first, i, sjis) := Entry(hdwc[w.value], first + i)];
        TableOk(file, at, hdwc, first, last, sjis, i + 1, g');
      }
    }
  }

  /** A character that no mapped code from the `i`-th on decodes to keeps its glyph,
      or its absence: a code whose word is 0xFFFF or past the width list is skipped. */
  lemma {:induction false} TableKeeps(file: seq<byte>, at: int, hdwc: seq<Metric>, first: u16, last: u16, sjis: Sjis, i: nat, g: Glyphs, c: string)
    requires Table(file, at, hdwc, first, last, sjis, i, g).Ok?
    requires forall k :: i <= k && first + k <= last && Mapped(file, at, hdwc, k) ==> CodeAt(first, k, sjis) != c
    ensures var r := Table(file, at, hdwc, first, last, sjis, i, g).value;
            (c in r <==> c in g) && (c in g ==> r[c] == g[c])
    decreases last - first - i + 1
  {
    if first + i <= last {
      var w := U16At(file, at + 2 * i).value;
      var g' := if w == 0xFFFF || w >= |hdwc| then g
                else g[CodeAt(first, i, sjis) := Entry(hdwc[w], first + i)];
      TableKeeps(file, at, hdwc, first, last, sjis, i + 1, g', c);
    }
  }

  /** A mapped code `first + k` ends with the width entry its word names when no later
      mapped code decodes to the same character. */
  lemma {:induction false} TableGlyph(file: seq<byte>, at: int, hdwc: seq<Metric>, first: u16, last: u16, sjis: Sjis, i: nat, g: Glyphs, k: nat)
    requires Table(file, at, hdwc, first, last, sjis, i, g).Ok?
    requires i <= k && first + k <= last && Mapped(file, at, hdwc, k)
    requires forall k' :: k < k' && first + k' <= last && Mapped(file, at, hdwc, k') ==>
               CodeAt(first, k', sjis) != CodeAt(first, k, sjis)
    ensures var r := Table(file, at, hdwc, first, last, sjis, i, g).value;
            CodeAt(first, k, sjis) in r &&
            r[CodeAt(first, k, sjis)] == Entry(hdwc[U16At(file, at + 2 * k).value], first + k)
    decreases last - first - i + 1
  {
    var w := U16At(file, at + 2 * i).value;
    var g' := if w == 0xFFFF || w >= |hdwc| then g
              else g[CodeAt(first, i, sjis) := Entry(hdwc[w], first + i)];
    if i == k {
      TableKeeps(file, at, hdwc, first, last, sjis, i + 1, g', CodeAt(first, k, sjis));
    } else {
      TableGlyph(file, at, hdwc, first, last, sjis, i + 1, g', k);
    }
  }

  /** The type-1 loop. */
  method ApplyTable(file: seq<byte>, at: int, hdwc: seq<Metric>, first: u16, last: u16, sjis: Sjis, g: Glyphs) returns (r: Result<Glyphs>)
    ensures r == Table(file, at, hdwc, first, last, sjis, 0, g)
  {
    var glyphs := g;
    for i := 0 to Count(last - first + 1)
      invariant Table(file, at, hdwc, first, last, sjis, 0, g) == Table(file, at, hdwc, first, last, sjis, i, glyphs)
    {
      var charcode := U16At(file, at + 2 * i);
      if charcode.Err? {
        return Err(charcode.error);
      }
      if charcode.value == 0xFFFF || charcode.value >= |hdwc| {
        continue;
      }
      glyphs := glyphs[CodeAt(first, i, sjis) := Entry(hdwc[charcode.value], first + i)];
    }
    return Ok(glyphs);
  }

  /** The section at `off`, whose header is read: type 0 reads its first width entry
      at 12, type 1 its table from 12 on, and any other type adds nothing. */
  function Section(file: seq<byte>, off: int, hdwc: seq<Metric>, sjis: Sjis, first: u16, last: u16, kind: u32, g: Glyphs): Result<Glyphs>
  {
    if kind == 0 then
      var firstcode :- U16At(file, off + 12);
      Direct(hdwc, first, last, firstcode, sjis, 0, g)
    else if kind == 1 then Table(file, off + 12, hdwc, first, last, sjis, 0, g)
    else Ok(g)
  }

  method ApplySection(file: seq<byte>, off: int, hdwc: seq<Metric>, sjis: Sjis, first: u16, last: u16, kind: u32, g: Glyphs) returns (r: Result<Glyphs>)
    ensures r == Section(file, off, hdwc, sjis, first, last, kind, g)
  {
    if kind == 0 {
      var firstcode := U16At(file, off + 12);
      if firstcode.Err? {
        return Err(firstcode.error);
      }
      r := ApplyDirect(hdwc, first, last, firstcode.value, sjis, g);
    } else if kind == 1 {
      r := ApplyTable(file, off + 12, hdwc, first, last, sjis, g);
    } else {
      r := Ok(g);
    }
  }

  lemma BoundedSet(s: set<int>, n: nat)
    requires forall x :: x in s ==> 0 <= x < n
    ensures |s| <= n
    decreases n
  {
    if n > 0 {
      BoundedSet(s - {n - 1}, n - 1);
    } else {
      assert forall x :: x !in s;
      assert s == {};
    }
  }

  /** The section chain from `off` on, the sections in `seen` already applied. A zero
      offset ends it; coming back to a section already read is a loop that never
      ends. */
  function Chain(file: seq<byte>, off: int, seen: set<int>, hdwc: seq<Metric>, sjis: Sjis, g: Glyphs): (r: Result<Glyphs>)
    requires forall s :: s in seen ==> 0 <= s < |file|
    decreases |file| - |seen|
  {
    if off == 0 then Ok(g)
    else if off in seen then Err(EndlessChain(off))
    else
      var first :- U16At(file, off);
      var last :- U16At(file, off + 2);
      var kind :- U32At(file, off + 4);
      var next :- U32At(file, off + 8);
      var g' :- Section(file, off, hdwc, sjis, first, last, kind, g);
      BoundedSet(seen, |file|);
      BoundedSet(seen + {off}, |file|);
      Chain(file, next, seen + {off}, hdwc, sjis, g')
  }

  /** A chain whose section at `off` links to itself never ends. */
  lemma SelfLinkedSection(file: seq<byte>, off: int, seen: set<int>, hdwc: seq<Metric>, sjis: Sjis, g: Glyphs)
    requires forall s :: s in seen ==> 0 <= s < |file|
    requires off != 0 && off !in seen
    requires U16At(file, off).Ok? && U16At(file, off + 2).Ok? && U32At(file, off + 4).Ok?
    requires U32At(file, off + 8) == Ok(off)
    requires Section(file, off, hdwc, sjis, U16At(file, off).value, U16At(file, off + 2).value, U32At(file, off + 4).value, g).Ok?
    ensures Chain(file, off, seen, hdwc, sjis, g) == Err(EndlessChain(off))
  {
    var g' := Section(file, off, hdwc, sjis, U16At(file, off).value, U16At(file, off + 2).value, U32At(file, off + 4).value, g).value;
    assert Chain(file, off, seen + {off}, hdwc, sjis, g') == Err(EndlessChain(off));
  }

  /** Every glyph sits under the character of its own code, with metrics from the
      width list. */
  ghost predicate Keyed(g: Glyphs, hdwc: seq<Metric>, sjis: Sjis)
  {
    forall c :: c in g ==>
      g[c].code < 0x10000 && CodeToChar(g[c].code, sjis) == c && Metric(g[c].start, g[c].width, g[c].length) in hdwc
  }

  lemma {:induction false} DirectKeyed(hdwc: seq<Metric>, first: u16, last: u16, firstcode: nat, sjis: Sjis, i: nat, g: Glyphs)
    requires Keyed(g, hdwc, sjis)
    requires Direct(hdwc, first, last, firstcode, sjis, i, g).Ok?
    ensures Keyed(Direct(hdwc, first, last, firstcode, sjis, i, g).value, hdwc, sjis)
    decreases last - first - i + 1
  {
    if first + i <= last {
      var g' := g[CodeAt(first, i, sjis) := Entry(hdwc[firstcode + i], first + i)];
      assert Keyed(g', hdwc, sjis);
      DirectKeyed(hdwc, first, last, firstcode, sjis, i + 1, g');
    }
  }

  lemma {:induction false} TableKeyed(file: seq<byte>, at: int, hdwc: seq<Metric>, first: u16, last: u16, sjis: Sjis, i: nat, g: Glyphs)
    requires Keyed(g, hdwc, sjis)
    requires Table(file, at, hdwc, first, last, sjis, i, g).Ok?
    ensures Keyed(Table(file, at, hdwc, first, last, sjis, i, g).value, hdwc, sjis)
    decreases last - first - i + 1
  {
    if first + i <= last {
      var w := U16At(file, at + 2 * i).value;
      if w == 0xFFFF || w >= |hdwc| {
        TableKeyed(file, at, hdwc, first, last, sjis, i + 1, g);
      } else {
        var g' := g[CodeAt(first, i, sjis) := Entry(hdwc[w], first + i)];
        assert Keyed(g', hdwc, sjis);
        TableKeyed(file, at, hdwc, first, last, sjis, i + 1, g');
      }
    }
  }

  lemma {:induction false} ChainKeyed(file: seq<byte>, off: int, seen: set<int>, hdwc: seq<Metric>, sjis: Sjis, g: Glyphs)
    requires forall s :: s in seen ==> 0 <= s < |file|
    requires Keyed(g, hdwc, sjis)
    requires Chain(file, off, seen, hdwc, sjis, g).Ok?
    ensures Keyed(Chain(file, off, seen, hdwc, sjis, g).value, hdwc, sjis)
    decreases |file| - |seen|
  {
    if off != 0 {
      var first := U16At(file, off).value;
      var last := U16At(file, off + 2).value;
      var kind := U32At(file, off + 4).value;
      var next := U32At(file, off + 8).value;
      if kind == 0 {
        DirectKeyed(hdwc, first, last, U16At(file, off + 12).value, sjis, 0, g);
      } else if kind == 1 {
        TableKeyed(file, off + 12, hdwc, first, last, sjis, 0, g);
      }
      var g' := Section(file, off, hdwc, sjis, first, last, kind, g).value;
      BoundedSet(seen, |file|);
      BoundedSet(seen + {off}, |file|);
      ChainKeyed(file, next, seen + {off}, hdwc, sjis, g');
    }
  }

  /** Entry `k` of `ms` is the signed start, the width and the length in the three
      bytes at `at + 3k`. */
  ghost predicate MetricsAt(file: seq<byte>, at: int, ms: seq<Metric>)
  {
    forall k :: 0 <= k < |ms| ==>
      0 <= at + 3 * k && at + 3 * k + 2 < |file| &&
      ms[k] == Metric(Signed8(file[at + 3 * k]), file[at + 3 * k + 1], file[at + 3 * k + 2])
  }

  /** The header of a font: the width entries and the offset of the first code-map
      section. The three section offsets are at 32, 36 and 40; the number of glyphs
      comes from the glyph section's size and tile length, and the width entries start
      8 bytes into the width section. */
  function Widths(file: seq<byte>): (r: Result<(seq<Metric>, u32)>)
    ensures 44 <= |file| && U32At(file, 32).value < 4 ==> r == Err(NegativeSeek(U32At(file, 32).value - 4))
    ensures r.Ok? ==>
              44 <= |file| && 4 <= U32At(file, 32).value &&
              U32At(file, U32At(file, 32).value - 4).Ok? && U16At(file, U32At(file, 32).value + 2).Ok? &&
              U16At(file, U32At(file, 32).value + 2).value > 0
    ensures r.Ok? ==> r.value.1 == U32At(file, 40).value
    ensures r.Ok? ==>
              var plgc, at := U32At(file, 32).value, U32At(file, 36).value + 8;
              var n := FloorDiv(U32At(file, plgc - 4).value - 0x10, U16At(file, plgc + 2).value);
              |r.value.0| == Count(n) && MetricsAt(file, at, r.value.0)
  {
    var _ :- ByteAt(file, 25);
    var _ :- ByteAt(file, 29);
    var plgcoffset :- U32At(file, 32);
    var hdwcoffset :- U32At(file, 36);
    var pamcoffset :- U32At(file, 40);
    if plgcoffset < 4 then Err(NegativeSeek(plgcoffset as int - 4))
    else
      var plgcsize :- U32At(file, plgcoffset as int - 4);
      var tilelength :- U16At(file, plgcoffset as int + 2);
      if tilelength == 0 then Err(ZeroDivision)
      else
        var tilenum := FloorDiv(plgcsize as int - 0x10, tilelength);
        var _ :- U16At(file, hdwcoffset);
        var _ :- U16At(file, hdwcoffset as int + 2);
        var hdwc :- Metrics(file, hdwcoffset as int + 8, tilenum);
        Ok((hdwc, pamcoffset))
  }

  /** getFontGlyphs: the code-map chain over the header's width entries. Every
      character maps to a glyph of its own code. */
  function FontGlyphs(file: seq<byte>, sjis: Sjis): (r: Result<Glyphs>)
    ensures r.Ok? ==> forall c :: c in r.value ==> r.value[c].code < 0x10000 && CodeToChar(r.value[c].code, sjis) == c
  {
    match Widths(file)
    case Err(e) => Err(e)
    case Ok((hdwc, pamcoffset)) =>
      var glyphs := Chain(file, pamcoffset, {}, hdwc, sjis, map[]);
      if glyphs.Ok? then ChainKeyed(file, pamcoffset, {}, hdwc, sjis, map[]); glyphs else glyphs
  }

  /** The header reads and the width-entry loop. */
  method ReadWidths(file: seq<byte>) returns (r: Result<(seq<Metric>, u32)>)
    ensures r == Widths(file)
  {
    var fontheight := ByteAt(file, 25);
    var fontwidth := ByteAt(file, 29);
    var plgcoffset := U32At(file, 32);
    var hdwcoffset := U32At(file, 36);
    var pamcoffset := U32At(file, 40);
    if fontheight.Err? || fontwidth.Err? || plgcoffset.Err? || hdwcoffset.Err? || pamcoffset.Err? {
      return Widths(file);
    }
    if plgcoffset.value < 4 {
      return Err(NegativeSeek(plgcoffset.value as int - 4));
    }
    var plgcsize := U32At(file, plgcoffset.value as int - 4);
    var tilelength := U16At(file, plgcoffset.value as int + 2);
    if plgcsize.Err? || tilelength.Err? {
      return Widths(file);
    }
    if tilelength.value == 0 {
      return Err(ZeroDivision);
    }
    var tilenum := FloorDiv(plgcsize.value as int - 0x10, tilelength.value);
    var firstcode := U16At(file, hdwcoffset.value);
    var lastcode := U16At(file, hdwcoffset.value as int + 2);
    if firstcode.Err? || lastcode.Err? {
      return Widths(file);
    }
    var hdwc := ReadMetrics(file, hdwcoffset.value as int + 8, tilenum);
    if hdwc.Err? {
      return Err(hdwc.error);
    }
    return Ok((hdwc.value, pamcoffset.value));
  }

  /** getFontGlyphs as the source runs it: the header, then the section loop, which
      stops at a section it has read before. */
  method GetFontGlyphs(file: seq<byte>, sjis: Sjis) returns (r: Result<Glyphs>)
    ensures r == FontGlyphs(file, sjis)
  {
    var widths := ReadWidths(file);
    if widths.Err? {
      return Err(widths.error);
    }
    var hdwc := widths.value.0;
    var glyphs: Glyphs := map[];
    var next: int := widths.value.1;
    var seen: set<int> := {};
    while next != 0
      invariant forall s :: s in seen ==> 0 <= s < |file|
      invariant FontGlyphs(file, sjis) == Chain(file, next, seen, hdwc, sjis, glyphs)
      decreases |file| - |seen|
    {
      if next in seen {
        return Err(EndlessChain(next));
      }
      var firstchar := U16At(file, next);
      var lastchar := U16At(file, next + 2);
      var sectiontype := U32At(file, next + 4);
      var nextoffset := U32At(file, next + 8);
      if firstchar.Err? {
        return Err(firstchar.error);
      }
      if lastchar.Err? {
        return Err(lastchar.error);
      }
      if sectiontype.Err? {
        return Err(sectiontype.error);
      }
      if nextoffset.Err? {
        return Err(nextoffset.error);
      }
      var section := ApplySection(file, next, hdwc, sjis, firstchar.value, lastchar.value, sectiontype.value, glyphs);
      if section.Err? {
        return Err(section.error);
      }
      BoundedSet(seen, |file|);
      BoundedSet(seen + {next}, |file|);
      glyphs := section.value;
      seen := seen + {next};
      next := nextoffset.value;
    }
    return Ok(glyphs);
  }
}
