/** What both variants of the WDF path hash share: the constants of the
    mixing rounds and the packing of the path's UTF-8 bytes into the
    little-endian word array `m`. */
module HashWords {

  import opened Bytes

  const WORD_SLOTS: nat := 70      // `m = [0] * 70`
  const MAX_BYTES: nat := 256      // `s.encode('utf-8')[:256]`

  /** A value `& 0xFFFFFFFF` keeps: Python's integers masked to 32 bits,
      so `+`, `<<` and `*` wrap around. */
  type u32 = bv32

  const TRAILER_0: u32 := 0x9BE7_4448
  const TRAILER_1: u32 := 0x66F4_2C48
  const V_INIT: u32 := 0xF4FA_8928
  const X_INIT: u32 := 0x37A8_470E
  const Y_INIT: u32 := 0x7758_B42B
  const W_XOR: u32 := 0x267B_0B11
  const OR_1: u32 := 0x0204_0801
  const OR_2: u32 := 0x0080_4021
  const AND_1: u32 := 0xBFEF_7FDF
  const AND_2: u32 := 0x7DFE_FBFF

  /** `((v << 1) | (v >> 31)) & 0xFFFFFFFF`. */
  function RotateLeft1(v: u32): u32
  {
    (v << 1) | (v >> 31)
  }

  function RotateLeftN(v: u32, n: nat): u32
  {
    if n == 0 then v else RotateLeft1(RotateLeftN(v, n - 1))
  }

  /** `(a * b) & 0xFFFFFFFF`: the product of the two 32-bit values, wrapped. */
  function Mul(a: u32, b: u32): (r: u32)
  {
    ((a as int * b as int) % TWO_32) as bv32
  }

  /** The first 256 bytes (`b[:256]`). */
  function Truncated(b: seq<byte>): (r: seq<byte>)
    ensures |r| <= MAX_BYTES && |r| <= |b|
    ensures r == b[..|r|]
    ensures |b| <= MAX_BYTES ==> r == b
  {
    if |b| <= MAX_BYTES then b else b[..MAX_BYTES]
  }

  /** Byte `j` of `b`, or the zero padding of `ljust(4, b'\0')` past its end. */
  function ByteOrZero(b: seq<byte>, j: nat): byte
  {
    if j < |b| then b[j] else 0
  }

  /** The value of word `k`: bytes `4k .. 4k+3` read little-endian. */
  function WordValue(b: seq<byte>, k: nat): (r: nat)
    ensures r < TWO_32
  {
    ByteOrZero(b, 4 * k) + 0x100 * ByteOrZero(b, 4 * k + 1) +
    0x1_0000 * ByteOrZero(b, 4 * k + 2) + 0x100_0000 * ByteOrZero(b, 4 * k + 3)
  }

  function Word(b: seq<byte>, k: nat): u32
  {
    WordValue(b, k) as bv32
  }

  /** Bytes past the end pad with zeros, so their word is zero. */
  lemma WordPastEnd(b: seq<byte>, k: nat)
    requires |b| <= 4 * k
    ensures Word(b, k) == 0
  {
  }

  /** The words `0 .. n)` of the bytes. */
  function Words(b: seq<byte>, n: nat): (ws: seq<u32>)
    ensures |ws| == n
    ensures forall k :: 0 <= k < n ==> ws[k] == Word(b, k)
  {
    seq(n, k requires 0 <= k => Word(b, k))
  }

  /** The number of words the bytes fill: `(len(b) + 3) // 4`. */
  function WordCount(b: seq<byte>): nat
  {
    (|b| + 3) / 4
  }

  /** The words `m[0 .. WordCount(b))` written by the packing loop. */
  function PackedWords(b: seq<byte>): (ws: seq<u32>)
    ensures |ws| == WordCount(b)
    ensures forall k :: 0 <= k < |ws| ==> ws[k] == Word(b, k)
  {
    Words(b, WordCount(b))
  }

  /** `m = [0] * 70` followed by the packing loop `m[i // 4] = ...`: every
      slot holds the word of its bytes, zero past the end. */
  method FillWords(b: seq<byte>) returns (m: array<u32>)
    requires |b| <= MAX_BYTES
    ensures fresh(m) && m.Length == WORD_SLOTS
    ensures forall j :: 0 <= j < WORD_SLOTS ==> m[j] == Word(b, j)
  {
    m := new u32[WORD_SLOTS](_ => 0);
    var k := 0;
    while 4 * k < |b|
      invariant 0 <= k <= WordCount(b) && WordCount(b) <= 64
      invariant forall j :: 0 <= j < k ==> m[j] == Word(b, j)
      invariant forall j :: k <= j < WORD_SLOTS ==> m[j] == 0
    {
      m[k] := Word(b, k);
      k := k + 1;
    }
    forall j | k <= j < WORD_SLOTS ensures Word(b, j) == 0 {
      WordPastEnd(b, j);
    }
  }

  /** The loop registers `v`, `esi` (x) and `edi` (y). */
  datatype Registers = Registers(v: u32, x: u32, y: u32)

  const INITIAL: Registers := Registers(V_INIT, X_INIT, Y_INIT)

  /** At most 256 bytes fill at most 64 words, so the two trailer words
      `m[i]` and `m[i + 1]` lie inside the 70 slots. */
  lemma WordCountBound(b: seq<byte>)
    requires |b| <= MAX_BYTES
    ensures WordCount(b) <= 64 && WordCount(b) + 2 <= WORD_SLOTS
  {
  }

  lemma BvZero(v: nat)
    requires v < TWO_32 && v as bv32 == 0
    ensures v == 0
  {
  }

  /** Every packed word of bytes without a zero byte is non-zero. */
  lemma PackedWordsNonZero(b: seq<byte>, k: nat)
    requires 0 !in b
    requires k < WordCount(b)
    ensures Word(b, k) != 0
  {
    var v := WordValue(b, k);
    assert b[4 * k] in b;
    assert v >= 1;
    if Word(b, k) == 0 {
      BvZero(v);
    }
  }
}
