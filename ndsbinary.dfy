/** Two byte-level patches of the ARM9 binary: the code-size word compressBinary
    writes after compression, and the pointer rewrite of repackBinaryStrings, which
    redirects every pointer to a moved string. */
module NdsBinary {
  import opened Bytes

  /** `p` sits at `j` in `s`. */
  predicate Occurs(s: seq<byte>, p: seq<byte>, j: int)
  {
    0 <= j && j + |p| <= |s| && s[j..j + |p|] == p
  }

  /** The four little-endian bytes of `v` go to `p` in place. */
  method WriteU32(a: array<byte>, p: nat, v: u32)
    requires p + 4 <= a.Length
    modifies a
    ensures a[..] == Splice(old(a[..]), p, LeU32(v))
  {
    ghost var before := a[..];
    var w := LeU32(v);
    a[p] := w[0];
    a[p + 1] := w[1];
    a[p + 2] := w[2];
    a[p + 3] := w[3];
    forall k | 0 <= k < a.Length
      ensures a[..][k] == Splice(before, p, w)[k]
    {
      SpliceAt(before, p, w, k);
    }
  }

  /** The word a splice of `LeU32(v)` leaves at its position reads back as `v`. */
  lemma SpliceReads(s: seq<byte>, p: nat, v: u32)
    requires p + 4 <= |s|
    ensures U32At(Splice(s, p, LeU32(v)), p) == Ok(v)
  {
    var t := Splice(s, p, LeU32(v));
    SpliceAt(s, p, LeU32(v), p);
    SpliceAt(s, p, LeU32(v), p + 1);
    SpliceAt(s, p, LeU32(v), p + 2);
    SpliceAt(s, p, LeU32(v), p + 3);
    LeU32RoundTrip(v);
  }

  // ---------------------------------------------------------------------------
  // compressBinary

  /** The eight bytes that mark the module parameters in a compressed ARM9 binary. */
  const Magic: seq<byte> := [0x21, 0x06, 0xC0, 0xDE, 0xDE, 0xC0, 0x06, 0x21]

  /** The first 4-aligned position from `i` on, below 0x8000, where the magic bytes sit. */
  function FirstMagic(s: seq<byte>, i: nat): (r: Option<nat>)
    requires i % 4 == 0
    ensures r.Some? ==> i <= r.value < 0x8000 && r.value % 4 == 0 && Occurs(s, Magic, r.value)
    ensures forall j :: i <= j < (if r.Some? then r.value else 0x8000) && j % 4 == 0 ==> !Occurs(s, Magic, j)
    decreases 0x8000 - i
  {
    if i >= 0x8000 then None
    else if Occurs(s, Magic, i) then Some(i)
    else
      var r := FirstMagic(s, i + 4);
      assert forall j :: i < j < i + 4 ==> j % 4 != 0 by {
        forall j | i < j < i + 4 ensures j % 4 != 0 {
          DivModUnique(i, 4, i / 4, 0);
          DivModUnique(j, 4, i / 4, j - i);
        }
      }
      r
  }

  /** The offset of the module parameters: 0x1C before the magic, 0 without one. */
  function CodeOffset(s: seq<byte>): int
  {
    match FirstMagic(s, 0)
    case Some(i) => i - 0x1C
    case None => 0
  }

  /** compressBinary's patch: when the module parameters start past 0, their word at
      0x14 becomes `0x02000000 + len(compdata)`, the binary's end address in memory.
      The word overflows 32 bits for a binary of 0xFE000000 bytes or more. */
  function Patched(s: seq<byte>): (r: Result<seq<byte>>)
    ensures r.Err? <==> CodeOffset(s) > 0 && 0x0200_0000 + |s| >= 0x1_0000_0000
    ensures r.Ok? ==> |r.value| == |s|
    ensures r.Ok? && CodeOffset(s) <= 0 ==> r.value == s
    ensures r.Ok? && CodeOffset(s) > 0 ==>
              U32At(r.value, CodeOffset(s) + 0x14) == Ok(0x0200_0000 + |s|) &&
              forall k :: 0 <= k < |s| && !(CodeOffset(s) + 0x14 <= k < CodeOffset(s) + 0x18) ==> r.value[k] == s[k]
  {
    var off := CodeOffset(s);
    if off <= 0 then Ok(s)
    else if 0x0200_0000 + |s| >= 0x1_0000_0000 then Err(ValueTooLarge(0x0200_0000 + |s|))
    else
      var t := Splice(s, off + 0x14, LeU32(0x0200_0000 + |s|));
      SpliceReads(s, off + 0x14, 0x0200_0000 + |s|);
      assert forall k :: 0 <= k < |s| && !(off + 0x14 <= k < off + 0x18) ==> t[k] == s[k] by {
        forall k | 0 <= k < |s| && !(off + 0x14 <= k < off + 0x18) ensures t[k] == s[k] {
          SpliceAt(s, off + 0x14, LeU32(0x0200_0000 + |s|), k);
        }
      }
      Ok(t)
  }

  /** The search loop over `range(0, 0x8000, 4)`. */
  method FindCodeOffset(compdata: array<byte>) returns (codeoffset: int)
    ensures codeoffset == CodeOffset(compdata[..])
  {
    codeoffset := 0;
    var i := 0;
    while i < 0x8000
      invariant 0 <= i <= 0x8000 && i % 4 == 0
      invariant FirstMagic(compdata[..], 0) == FirstMagic(compdata[..], i)
      decreases 0x8000 - i
    {
      if i + 8 <= compdata.Length && compdata[i..i + 8] == Magic {
        assert Occurs(compdata[..], Magic, i);
        codeoffset := i - 0x1C;
        return;
      }
      i := i + 4;
    }
  }

  /** compressBinary on the compressed binary: the search, then the patch in place.
      The patch fails, and changes nothing, when the end address does not fit 32
      bits. */
  method CompressBinary(compdata: array<byte>) returns (r: Result<int>)
    modifies compdata
    ensures r.Ok? <==> Patched(old(compdata[..])).Ok?
    ensures r.Ok? ==> r.value == CodeOffset(old(compdata[..])) && compdata[..] == Patched(old(compdata[..])).value
    ensures r.Err? ==> compdata[..] == old(compdata[..])
  {
    var codeoffset := FindCodeOffset(compdata);
    if codeoffset > 0 {
      var v := 0x0200_0000 + compdata.Length;
      if v >= 0x1_0000_0000 {
        return Err(ValueTooLarge(v));
      }
      WriteU32(compdata, codeoffset + 0x14, v);
    }
    return Ok(codeoffset);
  }

  // ---------------------------------------------------------------------------
  // Pointer rewrite

  /** `bytes.find(p, start)`: the first position from `start` on where `p` sits, or -1. */
  function Find(s: seq<byte>, p: seq<byte>, start: nat): (r: int)
    ensures r == -1 || (start <= r && Occurs(s, p, r))
    ensures forall j :: start <= j && (r == -1 || j < r) ==> !Occurs(s, p, j)
    decreases |s| - start + 1
  {
    if start > |s| then -1
    else if Occurs(s, p, start) then start
    else Find(s, p, start + 1)
  }

  /** The positions the rewrite loop hits from `index` on: every find resumes four
      bytes after the last hit, so hits are increasing and never overlap. */
  function Scan(s: seq<byte>, pointer: u32, index: nat): (r: seq<int>)
    ensures forall a :: 0 <= a < |r| ==> index <= r[a] && Occurs(s, LeU32(pointer), r[a])
    ensures forall a, b :: 0 <= a < b < |r| ==> r[a] + 4 <= r[b]
    decreases |s| - index
  {
    if index >= |s| then []
    else
      var j := Find(s, LeU32(pointer), index);
      if j < 0 then [] else [j] + Scan(s, pointer, j + 4)
  }

  /** Some hit covers position `j`. */
  predicate Covered(hits: seq<int>, j: int)
  {
    exists a :: 0 <= a < |hits| && hits[a] <= j < hits[a] + 4
  }

  /** Every occurrence of the pointer from `index` on is hit or overlaps a hit. */
  lemma {:induction false} ScanCovers(s: seq<byte>, pointer: u32, index: nat, j: int)
    requires index <= j && Occurs(s, LeU32(pointer), j)
    ensures Covered(Scan(s, pointer, index), j)
    decreases |s| - index
  {
    var r := Scan(s, pointer, index);
    var h := Find(s, LeU32(pointer), index);
    assert h != -1 && h <= j;
    if j < h + 4 {
      assert r[0] == h;
    } else {
      ScanCovers(s, pointer, h + 4, j);
      var a :| 0 <= a < |Scan(s, pointer, h + 4)| && Scan(s, pointer, h + 4)[a] <= j < Scan(s, pointer, h + 4)[a] + 4;
      assert r[a + 1] == Scan(s, pointer, h + 4)[a];
    }
  }

  /** The output with the new pointer's bytes written at each hit in turn. */
  function Rewrite(out: seq<byte>, hits: seq<int>, w: seq<byte>): (r: seq<byte>)
    requires forall a :: 0 <= a < |hits| ==> 0 <= hits[a] && hits[a] + |w| <= |out|
    ensures |r| == |out|
    decreases |hits|
  {
    if hits == [] then out else Rewrite(Splice(out, hits[0], w), hits[1..], w)
  }

  /** With hits that do not overlap, each hit ends holding the new bytes and every
      position outside the hits keeps its byte. */
  lemma {:induction false} RewriteAt(out: seq<byte>, hits: seq<int>, w: seq<byte>, k: nat)
    requires forall a :: 0 <= a < |hits| ==> 0 <= hits[a] && hits[a] + |w| <= |out|
    requires forall a, b :: 0 <= a < b < |hits| ==> hits[a] + |w| <= hits[b]
    requires k < |out|
    ensures forall a :: 0 <= a < |hits| && hits[a] <= k < hits[a] + |w| ==> Rewrite(out, hits, w)[k] == w[k - hits[a]]
    ensures (forall a :: 0 <= a < |hits| ==> !(hits[a] <= k < hits[a] + |w|)) ==> Rewrite(out, hits, w)[k] == out[k]
    decreases |hits|
  {
    if hits != [] {
      var out' := Splice(out, hits[0], w);
      var rest := hits[1..];
      SpliceAt(out, hits[0], w, k);
      RewriteAt(out', rest, w, k);
      forall a | 0 <= a < |hits| && hits[a] <= k < hits[a] + |w|
        ensures Rewrite(out, hits, w)[k] == w[k - hits[a]]
      {
        if a > 0 {
          assert rest[a - 1] == hits[a];
        }
      }
    }
  }

  /** Every occurrence of the old pointer in the original is hit or overlaps a hit. */
  lemma ScanFindsAll(allbin: seq<byte>, pointer: u32)
    ensures forall j :: Occurs(allbin, LeU32(pointer), j) ==> Covered(Scan(allbin, pointer, 0), j)
  {
    forall j | Occurs(allbin, LeU32(pointer), j) ensures Covered(Scan(allbin, pointer, 0), j) {
      ScanCovers(allbin, pointer, 0, j);
    }
  }

  /** After the rewrite every hit holds the new pointer's four bytes. */
  lemma HitReads(allbin: seq<byte>, before: seq<byte>, pointer: u32, newpointer: u32, a: nat, d: nat)
    requires |allbin| <= |before| && a < |Scan(allbin, pointer, 0)| && d < 4
    ensures Scan(allbin, pointer, 0)[a] + d < |before|
    ensures Rewrite(before, Scan(allbin, pointer, 0), LeU32(newpointer))[Scan(allbin, pointer, 0)[a] + d] == LeU32(newpointer)[d]
  {
    RewriteHit(before, Scan(allbin, pointer, 0), LeU32(newpointer), a, d);
  }

  lemma RewriteHit(out: seq<byte>, hits: seq<int>, w: seq<byte>, a: nat, d: nat)
    requires forall a :: 0 <= a < |hits| ==> 0 <= hits[a] && hits[a] + |w| <= |out|
    requires forall a, b :: 0 <= a < b < |hits| ==> hits[a] + |w| <= hits[b]
    requires a < |hits| && d < |w|
    ensures Rewrite(out, hits, w)[hits[a] + d] == w[d]
  {
    RewriteAt(out, hits, w, hits[a] + d);
  }

  /** The rewrite changes no byte outside the hits. */
  lemma OthersKept(allbin: seq<byte>, before: seq<byte>, pointer: u32, newpointer: u32, k: nat)
    requires |allbin| <= |before| && k < |before| && !Covered(Scan(allbin, pointer, 0), k)
    ensures Rewrite(before, Scan(allbin, pointer, 0), LeU32(newpointer))[k] == before[k]
  {
    RewriteAt(before, Scan(allbin, pointer, 0), LeU32(newpointer), k);
  }

  /** The loop of repackBinaryStrings that redirects a moved string: it scans the
      original binary `allbin` for the old pointer and writes the new pointer over
      every hit in the output, resuming four bytes on. The output is a copy of the
      binary, so every hit falls inside it. */
  method RewritePointer(allbin: seq<byte>, out: array<byte>, pointer: u32, newpointer: u32)
    requires |allbin| <= out.Length
    modifies out
    ensures out[..] == Rewrite(old(out[..]), Scan(allbin, pointer, 0), LeU32(newpointer))
  {
    var w := LeU32(newpointer);
    var index := 0;
    while index < |allbin|
      invariant Rewrite(old(out[..]), Scan(allbin, pointer, 0), w) == Rewrite(out[..], Scan(allbin, pointer, index), w)
      decreases |allbin| - index
    {
      var found := Find(allbin, LeU32(pointer), index);
      if found < 0 {
        break;
      }
      ghost var before := out[..];
      WriteU32(out, found, newpointer);
      ghost var hits := Scan(allbin, pointer, index);
      assert hits == [found] + Scan(allbin, pointer, found + 4);
      assert hits[1..] == Scan(allbin, pointer, found + 4);
      index := found + 4;
    }
  }
}
