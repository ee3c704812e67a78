/** The framing of compressed files (compress, decompress, compressFile,
    decompressFile): a four-byte header holding the compression type and the
    uncompressed length, then the payload. The LZ codecs themselves are parameters. */
module NdsCompression {
  import opened Bytes

  /** The compression types the header can name. */
  datatype CompressionType = LZ10 | LZ11 | Huff4 | Huff8 | RLE | LZ40 | LZ60

  function Value(t: CompressionType): (r: byte)
  {
    match t
    case LZ10 => 0x10
    case LZ11 => 0x11
    case Huff4 => 0x24
    case Huff8 => 0x28
    case RLE => 0x30
    case LZ40 => 0x40
    case LZ60 => 0x60
  }

  lemma ValueInjective(s: CompressionType, t: CompressionType)
    ensures Value(s) == Value(t) <==> s == t
  {
  }

  /** The two LZ codecs: `encode(data)` and `decode(payload, complength, decomplength)`. */
  datatype Codec = Codec(encode: seq<byte> -> seq<byte>, decode: (seq<byte>, int, int) -> seq<byte>)
  datatype Codecs = Codecs(lz10: Codec, lz11: Codec)

  // ---------------------------------------------------------------------------
  // compress

  /** The header `compress` writes: the type byte, then the length's three low bytes,
      least significant first. */
  function Header(kind: byte, length: nat): (r: seq<byte>)
  {
    [kind, length % 0x100, length / 0x100 % 0x100, length / 0x1_0000 % 0x100]
  }

  /** What follows the header: the LZ output, or the data itself for a type that has no
      codec. */
  function Payload(data: seq<byte>, kind: CompressionType, codecs: Codecs): seq<byte>
  {
    if kind == LZ10 then codecs.lz10.encode(data)
    else if kind == LZ11 then codecs.lz11.encode(data)
    else data
  }

  function Compressed(data: seq<byte>, kind: CompressionType, codecs: Codecs): seq<byte>
  {
    Header(Value(kind), |data|) + Payload(data, kind, codecs)
  }

  /** compress: four header bytes written one by one, then the payload. */
  method Compress(data: seq<byte>, kind: CompressionType, codecs: Codecs) returns (out: seq<byte>)
    ensures out == Compressed(data, kind, codecs)
  {
    var length := |data|;
    out := [];
    out := out + [Value(kind)];
    out := out + [length % 0x100];
    out := out + [length / 0x100 % 0x100];
    out := out + [length / 0x100 / 0x100 % 0x100];
    assert length / 0x100 / 0x100 == length / 0x1_0000;
    if kind == LZ10 {
      out := out + codecs.lz10.encode(data);
    } else if kind == LZ11 {
      out := out + codecs.lz11.encode(data);
    } else {
      out := out + data;
    }
  }

  // ---------------------------------------------------------------------------
  // decompress

  /** The header word split as `decompress` splits it: `header & 0xFF` and
      `(header & 0xFFFFFF00) >> 8`. */
  function HeaderFields(header: u32): (r: (int, int))
    ensures r.0 < 0x100 && r.1 < 0x100_0000
    ensures header == r.0 + 0x100 * r.1
  {
    var low := header % 0x100;
    ((low), (header - low) / 0x100)
  }

  /** decompress on a stream whose next bytes are `f`: the header word, then
      `complength - 4` bytes of payload (all of the rest when that is negative, what
      is left when the stream is shorter), decoded by the codec the type names. An
      unknown type gives the payload back. */
  function Decompress(f: seq<byte>, complength: int, codecs: Codecs): (r: Result<seq<byte>>)
    ensures r.Err? <==> |f| < 4
  {
    var header :- U32At(f, 0);
    var (kind, decomplength) := HeaderFields(header);
    var data := ReadBytes(f, 4, complength - 4);
    if kind == 0x10 then Ok(codecs.lz10.decode(data, complength, decomplength))
    else if kind == 0x11 then Ok(codecs.lz11.decode(data, complength, decomplength))
    else Ok(data)
  }

  /** Reading back the header `compress` wrote gives its type and the length modulo
      2^24: a longer input's length is cut to three bytes. */
  lemma HeaderRoundTrip(kind: byte, length: nat, rest: seq<byte>)
    ensures U32At(Header(kind, length) + rest, 0).Ok?
    ensures HeaderFields(U32At(Header(kind, length) + rest, 0).value) == (kind as int, length % 0x100_0000)
  {
    var h := Header(kind, length) + rest;
    var q := length / 0x100;
    var q2 := q / 0x100;
    DivModUnique(length, 0x100, q, length % 0x100);
    DivModUnique(q, 0x100, q2, q % 0x100);
    assert length / 0x1_0000 == q2;
    var low := length % 0x100_0000;
    assert low == length % 0x100 + 0x100 * (q % 0x100) + 0x1_0000 * (q2 % 0x100) by {
      DivModUnique(q2, 0x100, q2 / 0x100, q2 % 0x100);
      assert length == (length % 0x100 + 0x100 * (q % 0x100) + 0x1_0000 * (q2 % 0x100)) + 0x100_0000 * (q2 / 0x100);
      DivModUnique(length, 0x100_0000, q2 / 0x100, length % 0x100 + 0x100 * (q % 0x100) + 0x1_0000 * (q2 % 0x100));
    }
    var header := U32At(h, 0).value;
    assert header == kind as int + 0x100 * low;
    DivModUnique(header, 0x100, low, kind as int);
  }

  /** A codec that undoes its encoder on `data`, given the lengths the header carries. */
  predicate Undoes(c: Codec, data: seq<byte>)
  {
    c.decode(c.encode(data), 4 + |c.encode(data)|, |data|) == data
  }

  /** Decompressing the whole of what `compress` wrote gives the data back: unchanged
      for a type without a codec, and through the codec for LZ10 and LZ11 when it
      undoes itself. The length must fit the header's three bytes. */
  lemma CompressRoundTrip(data: seq<byte>, kind: CompressionType, codecs: Codecs)
    requires |data| < 0x100_0000
    requires kind == LZ10 ==> Undoes(codecs.lz10, data)
    requires kind == LZ11 ==> Undoes(codecs.lz11, data)
    ensures Decompress(Compressed(data, kind, codecs), |Compressed(data, kind, codecs)|, codecs) == Ok(data)
  {
    var c := Compressed(data, kind, codecs);
    var payload := Payload(data, kind, codecs);
    HeaderRoundTrip(Value(kind), |data|, payload);
    assert ReadBytes(c, 4, |c| - 4) == payload by {
      assert c[4..] == payload;
    }
  }

  // ---------------------------------------------------------------------------
  // compressFile and decompressFile

  function CompressFile(file: seq<byte>, kind: CompressionType, codecs: Codecs): seq<byte>
  {
    Compressed(file, kind, codecs)
  }

  /** decompressFile as written: it passes the file size less four as the compressed
      length, and `decompress` takes four more off for the header. */
  function DecompressFileAsWritten(file: seq<byte>, codecs: Codecs): (r: Result<seq<byte>>)
  {
    Decompress(file, |file| - 4, codecs)
  }

  /** For a type without a codec, the written decompressFile loses the last four bytes
      of any data of four bytes or more that compressFile wrote. */
  lemma DecompressFileDropsTail(data: seq<byte>, kind: CompressionType, codecs: Codecs)
    requires 4 <= |data| < 0x100_0000
    requires kind != LZ10 && kind != LZ11
    ensures DecompressFileAsWritten(CompressFile(data, kind, codecs), codecs) == Ok(data[..|data| - 4])
    ensures DecompressFileAsWritten(CompressFile(data, kind, codecs), codecs) != Ok(data)
  {
    var c := CompressFile(data, kind, codecs);
    HeaderRoundTrip(Value(kind), |data|, data);
    assert ReadBytes(c, 4, |c| - 8) == data[..|data| - 4] by {
      assert c[4..|c| - 4] == data[..|data| - 4];
    }
  }

  /** Data of fewer than four bytes survives the written decompressFile: the count
      `f.read` is given is negative, so it reads to the end of the file. */
  lemma DecompressFileKeepsShort(data: seq<byte>, kind: CompressionType, codecs: Codecs)
    requires |data| < 4
    requires kind != LZ10 && kind != LZ11
    ensures DecompressFileAsWritten(CompressFile(data, kind, codecs), codecs) == Ok(data)
  {
    var c := CompressFile(data, kind, codecs);
    HeaderRoundTrip(Value(kind), |data|, data);
    assert c[4..] == data;
  }

  /** decompressFile with the whole file as the compressed length. */
  function DecompressFile(file: seq<byte>, codecs: Codecs): (r: Result<seq<byte>>)
  {
    Decompress(file, |file|, codecs)
  }

  /** The corrected decompressFile undoes compressFile. */
  lemma FileRoundTrip(data: seq<byte>, kind: CompressionType, codecs: Codecs)
    requires |data| < 0x100_0000
    requires kind == LZ10 ==> Undoes(codecs.lz10, data)
    requires kind == LZ11 ==> Undoes(codecs.lz11, data)
    ensures DecompressFile(CompressFile(data, kind, codecs), codecs) == Ok(data)
  {
    CompressRoundTrip(data, kind, codecs);
  }
}
