/** Bytes, the little-endian field decoding done with `struct.unpack`, the
    slicing and reading of Python `bytes` and streams, and UTF-8 encoding. */
module Bytes {

  type byte = b: int | 0 <= b < 0x100

  const TWO_8: int := 0x100
  const TWO_15: int := 0x8000
  const TWO_16: int := 0x1_0000
  const TWO_31: int := 0x8000_0000
  const TWO_32: int := 0x1_0000_0000
  const TWO_63: int := 0x8000_0000_0000_0000
  const TWO_64: int := 0x1_0000_0000_0000_0000

  /** What `struct.unpack` raises when the buffer is shorter than the format. */
  const STRUCT_ERROR: string := "struct.error"

  /** `struct.unpack('<H')`, `'<I'` and `'<Q'` on the bytes at `i`. */
  function U16At(s: seq<byte>, i: nat): (r: nat)
    requires i + 2 <= |s|
    ensures r < TWO_16
  {
    s[i] + TWO_8 * s[i + 1]
  }

  function U32At(s: seq<byte>, i: nat): (r: nat)
    requires i + 4 <= |s|
    ensures r < TWO_32
  {
    U16At(s, i) + TWO_16 * U16At(s, i + 2)
  }

  /** A field read from a slice is the field read at the shifted position. */
  lemma U32AtSlice(s: seq<byte>, pos: nat, n: nat, i: nat)
    requires pos + n <= |s| && i + 4 <= n
    ensures U32At(s[pos..pos + n], i) == U32At(s, pos + i)
  {
    var t := s[pos..pos + n];
    assert t[i] == s[pos + i] && t[i + 1] == s[pos + i + 1];
    assert t[i + 2] == s[pos + i + 2] && t[i + 3] == s[pos + i + 3];
  }

  function U64At(s: seq<byte>, i: nat): (r: nat)
    requires i + 8 <= |s|
    ensures r < TWO_64
  {
    U32At(s, i) + TWO_32 * U32At(s, i + 4)
  }

  /** Two's-complement reading of an unsigned value of the given width. */
  function Signed(u: nat, half: int): (r: int)
    requires 0 < half && u < 2 * half
    ensures -half <= r < half
    ensures r >= 0 <==> u < half
  {
    if u < half then u else u - 2 * half
  }

  /** `struct.unpack('<b')`, `'<h'`, `'<i'` and `'<q'`. */
  function I8At(s: seq<byte>, i: nat): int
    requires i + 1 <= |s|
  {
    Signed(s[i], 0x80)
  }

  function I16At(s: seq<byte>, i: nat): int
    requires i + 2 <= |s|
  {
    Signed(U16At(s, i), TWO_15)
  }

  function I32At(s: seq<byte>, i: nat): int
    requires i + 4 <= |s|
  {
    Signed(U32At(s, i), TWO_31)
  }

  function I64At(s: seq<byte>, i: nat): int
    requires i + 8 <= |s|
  {
    Signed(U64At(s, i), TWO_63)
  }

  /** The `n` little-endian bytes of `v`, lowest first. */
  function LittleEndian(v: nat, n: nat): (r: seq<byte>)
    ensures |r| == n
  {
    if n == 0 then [] else [v % TWO_8] + LittleEndian(v / TWO_8, n - 1)
  }

  lemma {:induction false} U32OfLittleEndian(v: nat)
    requires v < TWO_32
    ensures U32At(LittleEndian(v, 4), 0) == v
  {
    var q1 := v / 0x100;
    var q2 := q1 / 0x100;
    var q3 := q2 / 0x100;
    assert LittleEndian(v, 4) == [v % 0x100] + LittleEndian(q1, 3);
    assert LittleEndian(q1, 3) == [q1 % 0x100] + LittleEndian(q2, 2);
    assert LittleEndian(q2, 2) == [q2 % 0x100] + LittleEndian(q3, 1);
    assert LittleEndian(q3, 1) == [q3 % 0x100];
    assert v == v % 0x100 + 0x100 * q1;
    assert q1 == q1 % 0x100 + 0x100 * q2;
    assert q2 == q2 % 0x100 + 0x100 * q3;
    assert q3 < 0x100;
  }

  lemma U32OfLittleEndianAt(s: seq<byte>, i: nat, v: nat)
    requires v < TWO_32 && i + 4 <= |s| && s[i..i + 4] == LittleEndian(v, 4)
    ensures U32At(s, i) == v
  {
    U32OfLittleEndian(v);
    assert U32At(s, i) == U32At(s[i..i + 4], 0);
  }

  /** Python's `data[a:b]` for non-negative bounds. */
  function Slice(s: seq<byte>, a: nat, b: int): (r: seq<byte>)
    ensures |r| <= |s|
    ensures a + |r| <= |s| || r == []
    ensures r == [] || r == s[a..a + |r|]
    ensures |r| == if a >= |s| || b <= a then 0 else if b >= |s| then |s| - a else b - a
  {
    if a >= |s| || b <= a then [] else if b >= |s| then s[a..] else s[a..b]
  }

  /** Two reads in a row from a stream at `a`: `n` bytes, then `k` more from
      where the first stopped, read what one read of `n + k` bytes would. */
  lemma ReadOn(s: seq<byte>, a: nat, n: nat, k: nat)
    ensures var first := Slice(s, a, a + n);
      var next := Slice(s, a + |first|, a + |first| + k);
      && first + next == Slice(s, a, a + n + k)
      && first + next == Slice(s, a, a + n + |next|)
  {
    var first := Slice(s, a, a + n);
    var next := Slice(s, a + |first|, a + |first| + k);
    if a < |s| && a + n < |s| {
      assert |first| == n;
    }
  }

  /** `ReadOn` with the bytes read so far named: reading on from where they
      end extends them. */
  lemma ReadNext(s: seq<byte>, a: nat, done: seq<byte>, m: nat, pos: nat, k: nat)
    requires done == Slice(s, a, a + m) && pos == a + |done|
    ensures done + Slice(s, pos, pos + k) == Slice(s, a, a + m + k)
    ensures done + Slice(s, pos, pos + k) == Slice(s, a, a + m + |Slice(s, pos, pos + k)|)
  {
    ReadOn(s, a, m, k);
  }

  /** The bytes read so far and the next read, named, make up one read of
      `total` bytes. */
  lemma ReadJoin(s: seq<byte>, a: nat, done: seq<byte>, m: nat, pos: nat, next: seq<byte>, k: nat, total: int)
    requires done == Slice(s, a, a + m) && pos == a + |done|
    requires next == Slice(s, pos, pos + k) && total == m + k
    ensures done + next == Slice(s, a, a + total)
  {
    ReadOn(s, a, m, k);
  }

  /** A read that reached the end of the stream is not lengthened by asking for more. */
  lemma ReadAtEnd(s: seq<byte>, a: nat, n: nat, m: nat)
    requires n <= m
    requires a + |Slice(s, a, a + n)| >= |s|
    ensures Slice(s, a, a + n) == Slice(s, a, a + m)
  {
  }

  /** `f.read(n)` on a byte stream positioned at `pos`: a negative size reads
      to the end, otherwise at most `n` bytes are returned. */
  function ReadAt(s: seq<byte>, pos: nat, n: int): (r: seq<byte>)
    requires pos <= |s|
    ensures pos + |r| <= |s| && r == s[pos..pos + |r|]
    ensures n >= 0 ==> |r| == if pos + n <= |s| then n else |s| - pos
    ensures n < 0 ==> |r| == |s| - pos
  {
    if n < 0 || pos + n > |s| then s[pos..] else s[pos..pos + n]
  }

  // ---------------------------------------------------------------------------
  // UTF-8 encoding (`str.encode('utf-8')`)

  function Utf8Char(c: char): (r: seq<byte>)
    ensures 1 <= |r| <= 4
    ensures c != '\0' ==> forall i :: 0 <= i < |r| ==> r[i] != 0
  {
    var n := c as int;
    if n < 0x80 then [n]
    else if n < 0x800 then [0xC0 + n / 0x40, 0x80 + n % 0x40]
    else if n < 0x1_0000 then [0xE0 + n / 0x1000, 0x80 + (n / 0x40) % 0x40, 0x80 + n % 0x40]
    else [0xF0 + n / 0x4_0000, 0x80 + (n / 0x1000) % 0x40, 0x80 + (n / 0x40) % 0x40, 0x80 + n % 0x40]
  }

  function Utf8(s: string): (r: seq<byte>)
    ensures |s| <= |r| <= 4 * |s|
  {
    if s == [] then [] else Utf8Char(s[0]) + Utf8(s[1..])
  }

  lemma {:induction false} Utf8Append(s: string, t: string)
    ensures Utf8(s + t) == Utf8(s) + Utf8(t)
    decreases |s|
  {
    if s != [] {
      assert (s + t)[1..] == s[1..] + t;
      Utf8Append(s[1..], t);
    } else {
      assert s + t == t;
    }
  }

  /** A string without NUL characters encodes to bytes without zero bytes. */
  lemma {:induction false} Utf8NoZero(s: string)
    requires '\0' !in s
    ensures 0 !in Utf8(s)
    decreases |s|
  {
    if s != [] {
      Utf8NoZero(s[1..]);
      var h := Utf8Char(s[0]);
      assert 0 !in h by {
        forall i | 0 <= i < |h| ensures h[i] != 0 {}
      }
    }
  }

  /** An ASCII string encodes to its own code points. */
  lemma {:induction false} Utf8Ascii(s: string)
    requires forall i :: 0 <= i < |s| ==> s[i] as int < 0x80
    ensures |Utf8(s)| == |s|
    ensures forall i :: 0 <= i < |s| ==> Utf8(s)[i] == s[i] as int
    decreases |s|
  {
    if s != [] {
      Utf8Ascii(s[1..]);
    }
  }
}
