/** Byte buffers, little-endian fields and the Python integer operators
    the codecs rely on (floor division, `|`, `read(n)`). */
module Bytes {

  type byte = b: int | 0 <= b < 0x100
  type u16 = w: int | 0 <= w < 0x1_0000
  type u32 = w: int | 0 <= w < 0x1_0000_0000

  /** Why a decode or an encode stops: the Python code raises in each case. */
  datatype Error =
    | ShortRead(pos: int)          // a fixed-width read past the end of the buffer
    | ZeroDivision                 // `//` or `%` by zero
    | IndexOutOfRange(index: int)  // a list index past the end
    | KeyMissing(key: int)         // a dict lookup of an absent key
    | UnboundCellSize              // cell shape 3 before any cell set `cellsize`
    | ValueTooLarge(value: int)    // struct.pack of a value that does not fit
    | NegativeSeek(pos: int)       // a seek to a position before the start
    | EndlessChain(offset: int)    // a linked list of sections came back to `offset`: the loop never ends

  datatype Result<+T> = Ok(value: T) | Err(error: Error) {
    predicate IsFailure() { Err? }
    function PropagateFailure<U>(): Result<U>
      requires Err?
    {
      Err(error)
    }
    function Extract(): T
      requires Ok?
    {
      value
    }
  }

  datatype Option<+T> = None | Some(value: T)

  /** The byte at `p` (Python `readByte`). */
  function ByteAt(s: seq<byte>, p: int): (r: Result<byte>)
    ensures r.Ok? <==> 0 <= p < |s|
    ensures r.Ok? ==> r.value == s[p]
  {
    if 0 <= p < |s| then Ok(s[p]) else Err(ShortRead(p))
  }

  /** Little-endian unsigned 16-bit field at `p`. */
  function U16At(s: seq<byte>, p: int): (r: Result<u16>)
    ensures r.Ok? <==> 0 <= p && p + 2 <= |s|
    ensures r.Ok? ==> r.value == s[p] as int + 0x100 * s[p + 1] as int
  {
    if 0 <= p && p + 2 <= |s| then Ok(s[p] as int + 0x100 * s[p + 1] as int) else Err(ShortRead(p))
  }

  /** Little-endian unsigned 32-bit field at `p`. */
  function U32At(s: seq<byte>, p: int): (r: Result<u32>)
    ensures r.Ok? <==> 0 <= p && p + 4 <= |s|
  {
    if 0 <= p && p + 4 <= |s| then
      Ok(s[p] as int + 0x100 * s[p + 1] as int + 0x1_0000 * s[p + 2] as int + 0x100_0000 * s[p + 3] as int)
    else Err(ShortRead(p))
  }

  /** Two's-complement reading of a 16-bit word (Python `readShort`, struct `<h`). */
  function Signed16(w: u16): (r: int)
    ensures -0x8000 <= r < 0x8000
    ensures (r - w) % 0x1_0000 == 0
  {
    if w >= 0x8000 then w - 0x1_0000 else w
  }

  /** Two's-complement reading of a byte (Python `readSByte`). */
  function Signed8(b: byte): (r: int)
    ensures -0x80 <= r < 0x80
    ensures (r - b) % 0x100 == 0
  {
    if b >= 0x80 then b - 0x100 else b
  }

  /** The four little-endian bytes of a 32-bit value (struct `<I`). */
  function LeU32(v: u32): (r: seq<byte>)
    ensures |r| == 4
  {
    [v % 0x100, v / 0x100 % 0x100, v / 0x100 / 0x100 % 0x100, v / 0x100 / 0x100 / 0x100]
  }

  lemma LeU32RoundTrip(v: u32)
    ensures U32At(LeU32(v), 0) == Ok(v)
  {
    var v1 := v / 0x100;
    var v2 := v1 / 0x100;
    assert v == v % 0x100 + 0x100 * v1;
    assert v1 == v1 % 0x100 + 0x100 * v2;
    assert v2 == v2 % 0x100 + 0x100 * (v2 / 0x100);
  }

  lemma LeU32Injective(v: u32, w: u32)
    requires LeU32(v) == LeU32(w)
    ensures v == w
  {
    LeU32RoundTrip(v);
    LeU32RoundTrip(w);
  }

  function Pow2(k: nat): (r: nat)
    ensures r >= 1
  {
    if k == 0 then 1 else 2 * Pow2(k - 1)
  }

  /** Python `a | b` on non-negative integers. */
  function BitOr(a: nat, b: nat): (r: nat)
    decreases a + b
  {
    if a == 0 then b
    else if b == 0 then a
    else 2 * BitOr(a / 2, b / 2) + (if a % 2 == 1 || b % 2 == 1 then 1 else 0)
  }

  /** `(2 * h) | lo` is `h | (lo >> 1)` shifted back, with the low bit of `lo` below. */
  lemma BitOrHalve(h: nat, lo: nat)
    ensures BitOr(2 * h, lo) == 2 * BitOr(h, lo / 2) + lo % 2
  {
  }

  /** `(hi << 4) | lo`: the low nibble is that of `lo`, the rest is `hi | (lo >> 4)`. */
  lemma BitOrNibble(hi: nat, lo: nat)
    ensures BitOr(16 * hi, lo) == 16 * BitOr(hi, lo / 16) + lo % 16
  {
    var h1, h2, h4, h8 := hi, 2 * hi, 4 * hi, 8 * hi;
    var l1, l2, l4, l8 := lo, lo / 2, lo / 4, lo / 8;
    assert l2 / 2 == l4 && l4 / 2 == l8 && l8 / 2 == lo / 16;
    BitOrHalve(h8, l1);
    BitOrHalve(h4, l2);
    BitOrHalve(h2, l4);
    BitOrHalve(h1, l8);
    assert 2 * h8 == 16 * hi && 2 * h4 == h8 && 2 * h2 == h4 && 2 * h1 == h2;
  }

  /** `a | b` keeps every bit of both: it is at least either. */
  lemma {:induction false} BitOrAtLeast(a: nat, b: nat)
    ensures BitOr(a, b) >= a && BitOr(a, b) >= b
    decreases a + b
  {
    if a > 0 && b > 0 {
      BitOrAtLeast(a / 2, b / 2);
    }
  }

  /** `a | b` sets no bit above those of `a` and `b`. */
  lemma {:induction false} BitOrBelow(a: nat, b: nat, k: nat)
    requires a < Pow2(k) && b < Pow2(k)
    ensures BitOr(a, b) < Pow2(k)
    decreases k
  {
    if k > 0 && a > 0 && b > 0 {
      BitOrBelow(a / 2, b / 2, k - 1);
    }
  }

  /** Bits `[k, k + n)` of the non-negative word `w`, with `d = 2^k` and `m = 2^n`:
      `(w >> k) & (m - 1)`. */
  function Bits(w: nat, d: nat, m: nat): (r: nat)
    requires d > 0 && m > 0
    ensures r < m
  {
    w / d % m
  }

  /** `x // 2`, by repeated subtraction so that its definition stays linear. */
  function Half(x: nat): (r: nat)
    ensures 2 * r <= x <= 2 * r + 1
    decreases x
  {
    if x < 2 then 0 else Half(x - 2) + 1
  }

  /** `b >> 4`, by repeated subtraction so that its definition stays linear. */
  function Shr4(b: nat): (r: nat)
    ensures 16 * r <= b < 16 * r + 16
    decreases b
  {
    if b < 16 then 0 else Shr4(b - 16) + 1
  }

  /** Python `a // b`: the quotient rounded towards minus infinity. */
  function FloorDiv(a: int, b: int): (q: int)
    requires b != 0
    ensures b > 0 ==> b * q <= a < b * q + b
    ensures b < 0 ==> b * q >= a > b * q + b
  {
    if b > 0 then a / b else (-a) / (-b)
  }

  /** `n` made non-negative the way `range(n)` treats it: a negative count iterates nothing. */
  function Count(n: int): nat
  {
    if n < 0 then 0 else n
  }

  /** Python `f.read(n)` from position `p`: a negative `n` reads to the end, and a
      read that runs past the end returns what is left. */
  function ReadBytes(s: seq<byte>, p: nat, n: int): (r: seq<byte>)
    ensures p <= |s| ==> r == s[p..if n < 0 || p + n > |s| then |s| else p + n]
    ensures p > |s| ==> r == []
  {
    if p > |s| then []
    else if n < 0 || p + n > |s| then s[p..]
    else s[p..p + n]
  }

  /** `s` with `d` written over it from position `p` on, one element at a time. */
  function Splice<T>(s: seq<T>, p: nat, d: seq<T>): (r: seq<T>)
    requires p + |d| <= |s|
    ensures |r| == |s|
    decreases |d|
  {
    if d == [] then s else Splice(s[p := d[0]], p + 1, d[1..])
  }

  /** What a splice holds at each position: `d` inside the written range, `s` elsewhere. */
  lemma {:induction false} SpliceAt<T>(s: seq<T>, p: nat, d: seq<T>, k: nat)
    requires p + |d| <= |s| && k < |s|
    ensures Splice(s, p, d)[k] == if p <= k < p + |d| then d[k - p] else s[k]
    decreases |d|
  {
    if d != [] {
      SpliceAt(s[p := d[0]], p + 1, d[1..], k);
    }
  }

  /** Two writes side by side are one write of the concatenation. */
  lemma {:induction false} SpliceAppend<T>(s: seq<T>, p: nat, d: seq<T>, e: seq<T>)
    requires p + |d| + |e| <= |s|
    ensures Splice(Splice(s, p, d), p + |d|, e) == Splice(s, p, d + e)
    decreases |d|
  {
    if d != [] {
      assert (d + e)[0] == d[0] && (d + e)[1..] == d[1..] + e;
      SpliceAppend(s[p := d[0]], p + 1, d[1..], e);
    } else {
      assert d + e == e;
    }
  }

  lemma MulAtLeast(a: int, d: int)
    requires a >= 1 && d > 0
    ensures a * d >= d
  {
  }

  lemma MulMono(a: nat, b: nat, c: nat)
    requires a <= b
    ensures a * c <= b * c
  {
  }

  /** Quotient and remainder are unique: `q * d + r` with `0 <= r < d` divides back. */
  lemma DivModUnique(m: int, d: int, q: int, r: int)
    requires 0 <= r < d && m == q * d + r
    ensures m / d == q && m % d == r
  {
    var q', r' := m / d, m % d;
    assert m == q' * d + r' && 0 <= r' < d;
    assert (q' - q) * d == r - r' by {
      assert (q' - q) * d == q' * d - q * d;
    }
    if q' > q {
      MulAtLeast(q' - q, d);
    } else if q' < q {
      MulAtLeast(q - q', d);
    }
  }

  /** A slice is the join of its two halves at any point between its ends. */
  lemma SliceJoin<T>(s: seq<T>, a: nat, b: nat, c: nat)
    requires a <= b <= c <= |s|
    ensures s[a..c] == s[a..b] + s[b..c]
  {
  }
}
