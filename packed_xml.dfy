/** What the lenient codec `packedxml_codec.py` and the strict reader
    `packedxml_reader.py` share: the element tree they build, a byte stream
    with a cursor, the reads of little-endian integers, the 32-bit data
    descriptor, the NUL-terminated dictionary words and the float groups.

    The specification functions take the bytes that remain in the stream and
    give back, with the value read, the bytes that remain after the read. */
module PackedXml {

  import opened Options
  import opened Bytes
  import opened Numerals

  /** An `xml.etree.ElementTree.Element`: tag, text and children in order. */
  datatype Element = Element(tag: string, text: Option<string>, children: seq<Element>)

  /** A new element `ET.Element(tag)`. */
  function NewElement(tag: string): Element
  {
    Element(tag, None, [])
  }

  /** `parent.append(child)`. */
  function Append(parent: Element, child: Element): (r: Element)
    ensures r.tag == parent.tag && r.text == parent.text
    ensures r.children == parent.children + [child]
  {
    parent.(children := parent.children + [child])
  }

  /** The element with its text set. */
  function WithText(el: Element, text: string): (r: Element)
    ensures r.tag == el.tag && r.children == el.children && r.text == Some(text)
  {
    el.(text := Some(text))
  }

  const INDEX_ERROR: string := "IndexError"
  const UNICODE_ERROR: string := "UnicodeDecodeError"

  /** The functions the decoders call that are not part of this model. */
  datatype Codecs = Codecs(
    utf8: seq<byte> -> Option<string>,    // `.decode('utf-8')`, `None` where it raises
    utf8Replace: seq<byte> -> string,     // `.decode('utf-8', errors='replace')`
    floatText: seq<seq<byte>> -> string,  // `' '.join(f'{x:.6f}' ...)` of `'<f'` groups
    base64: seq<byte> -> string)          // `base64.b64encode(...).decode('ascii')`

  /** Strict UTF-8 decoding; the empty byte string decodes to the empty text. */
  function DecodeUtf8(codecs: Codecs, b: seq<byte>): Option<string>
  {
    if b == [] then Some("") else codecs.utf8(b)
  }

  // ---------------------------------------------------------------------------
  // Reads from the bytes that remain

  /** `rest` is what remains of `s` after some bytes were read. */
  predicate Suffix(rest: seq<byte>, s: seq<byte>)
  {
    |rest| <= |s| && rest == s[|s| - |rest|..]
  }

  lemma SuffixTrans(a: seq<byte>, b: seq<byte>, c: seq<byte>)
    requires Suffix(a, b) && Suffix(b, c)
    ensures Suffix(a, c)
  {
    assert c[|c| - |b|..][|b| - |a|..] == c[|c| - |a|..];
  }

  /** `f.read(n)`: at most `n` bytes, or all of them when `n` is negative. */
  function ReadOf(s: seq<byte>, n: int): (r: (seq<byte>, seq<byte>))
    ensures r.0 + r.1 == s && r.1 == s[|r.0|..]
    ensures n >= 0 ==> |r.0| == if n <= |s| then n else |s|
    ensures n < 0 ==> r.1 == []
  {
    if n < 0 || n >= |s| then (s, []) else (s[..n], s[n..])
  }

  function Pow256(n: nat): (r: nat)
    ensures r >= 1
  {
    if n == 0 then 1 else 256 * Pow256(n - 1)
  }

  /** Half the range of `n` bytes: the bound of their signed values. */
  function Half(n: nat): int
  {
    Pow256(n) / 2
  }

  /** The unsigned value of bytes, lowest first. */
  function UnsignedLittleEndian(b: seq<byte>): (r: nat)
    ensures r < Pow256(|b|)
  {
    if b == [] then 0 else b[0] + 256 * UnsignedLittleEndian(b[1..])
  }

  /** The two's-complement value of bytes, lowest first. */
  function SignedLittleEndian(b: seq<byte>): (r: int)
    requires b != []
    ensures -Half(|b|) <= r < Half(|b|)
  {
    Signed(UnsignedLittleEndian(b), Half(|b|))
  }

  /** `struct.unpack('<b' / '<h' / '<i' / '<q', f.read(width))[0]`: the
      signed integer in the next `width` bytes, or `struct.error` when fewer
      remain. */
  function IntOf(s: seq<byte>, width: nat): (r: Result<(int, seq<byte>)>)
    requires 1 <= width
    ensures r.Ok? <==> width <= |s|
    ensures r.Ok? ==> r.value.1 == s[width..]
    ensures r.Err? ==> r.error == STRUCT_ERROR
  {
    if |s| < width then Err(STRUCT_ERROR) else Ok((SignedLittleEndian(s[..width]), s[width..]))
  }

  /** The two's-complement bytes of `v` over `n` bytes. */
  function TwosComplement(v: int, n: nat): (r: seq<byte>)
    requires -Half(n) <= v < Half(n)
    ensures |r| == n
  {
    LittleEndian(if v < 0 then v + Pow256(n) else v, n)
  }

  lemma {:induction false} UnsignedOfLittleEndian(v: nat, n: nat)
    requires v < Pow256(n)
    ensures UnsignedLittleEndian(LittleEndian(v, n)) == v
    decreases n
  {
    if n > 0 {
      UnsignedOfLittleEndian(v / TWO_8, n - 1);
      assert LittleEndian(v, n)[1..] == LittleEndian(v / TWO_8, n - 1);
    }
  }

  /** Writing `v` in two's complement and reading it back gives `v`. */
  lemma SignedRoundTrip(v: int, n: nat)
    requires n >= 1 && -Half(n) <= v < Half(n)
    ensures SignedLittleEndian(TwosComplement(v, n)) == v
  {
    var u: nat := if v < 0 then v + Pow256(n) else v;
    assert Pow256(n) == 2 * Half(n) by {
      assert Pow256(n) == 256 * Pow256(n - 1);
    }
    UnsignedOfLittleEndian(u, n);
  }

  /** An integer written in `n` bytes is read back, and the bytes after it
      remain. */
  lemma IntRoundTrip(v: int, n: nat, rest: seq<byte>)
    requires n >= 1 && -Half(n) <= v < Half(n)
    ensures IntOf(TwosComplement(v, n) + rest, n) == Ok((v, rest))
  {
    var w := TwosComplement(v, n);
    assert (w + rest)[..n] == w && (w + rest)[n..] == rest;
    SignedRoundTrip(v, n);
  }

  // ---------------------------------------------------------------------------
  // Data descriptors

  const TWO_28: int := 0x1000_0000

  /** `end`, the low 28 bits, and `type`, the rest shifted down. */
  datatype DataDescriptor = DataDescriptor(end: int, typ: int)

  /** `encoded & 0xFFFFFFF` and `encoded >> 28` on a Python int. */
  function DescriptorOfInt(encoded: int): DataDescriptor
  {
    DataDescriptor(encoded % TWO_28, encoded / TWO_28)
  }

  /** On the signed 32-bit value `struct.unpack('<i')` returns, `end` is the
      low 28 bits of the word and `type` its top 4 bits read as a signed
      nibble, so a set top bit gives a type from -8 to -1. */
  lemma DescriptorBits(encoded: int)
    requires -TWO_31 <= encoded < TWO_31
    ensures var d := DescriptorOfInt(encoded);
      var word := if encoded < 0 then encoded + TWO_32 else encoded;
      && 0 <= d.end < TWO_28
      && d.end == word % TWO_28
      && d.typ == Signed(word / TWO_28, 8)
      && -8 <= d.typ < 8
      && (d.typ < 0 <==> word >= TWO_31)
  {
    var word := if encoded < 0 then encoded + TWO_32 else encoded;
    var q, r := encoded / TWO_28, encoded % TWO_28;
    assert encoded == q * TWO_28 + r && 0 <= r < TWO_28;
    if encoded < 0 {
      assert word == (q + 16) * TWO_28 + r;
      assert -8 <= q < 0;
    } else {
      assert 0 <= q < 8;
    }
  }

  /** The descriptor in the next four bytes. */
  function DescriptorOf(s: seq<byte>): (r: Result<(DataDescriptor, seq<byte>)>)
    ensures r.Ok? <==> 4 <= |s|
    ensures r.Ok? ==> r.value.1 == s[4..] && 0 <= r.value.0.end < TWO_28 && -8 <= r.value.0.typ < 8
  {
    match IntOf(s, 4)
    case Ok((v, rest)) =>
      assert Half(4) == TWO_31;
      DescriptorBits(v);
      Ok((DescriptorOfInt(v), rest))
    case Err(e) => Err(e)
  }

  // ---------------------------------------------------------------------------
  // Dictionary words

  /** The inner loop of the dictionary reads: the bytes up to the first NUL or
      the end of the stream, and what remains after that NUL. */
  function TokenOf(s: seq<byte>): (r: (seq<byte>, seq<byte>))
    ensures |r.0| <= |s| && r.0 == s[..|r.0|] && 0 !in r.0
    ensures || (|r.0| < |s| && s[|r.0|] == 0 && r.1 == s[|r.0| + 1..])
            || (r.0 == s && r.1 == [])
  {
    if s == [] then ([], [])
    else if s[0] == 0 then ([], s[1..])
    else
      var t := TokenOf(s[1..]);
      assert [s[0]] + t.0 == s[..|t.0| + 1];
      ([s[0]] + t.0, t.1)
  }

  lemma AppendAssoc(a: seq<byte>, b: seq<byte>, c: seq<byte>)
    ensures a + (b + c) == (a + b) + c
  {
  }

  /** One `f.read(1)` of the inner dictionary loop: it ends the word on a NUL
      or at the end, or adds the byte to it. */
  lemma TokenStep(before: seq<byte>, b: seq<byte>, after: seq<byte>)
    requires (b, after) == ReadOf(before, 1)
    ensures b == [] || b == [0] ==> TokenOf(before) == ([], after)
    ensures b != [] && b != [0] ==>
      TokenOf(before).0 == b + TokenOf(after).0 && TokenOf(before).1 == TokenOf(after).1
  {
    if before != [] {
      assert b == [before[0]] && after == before[1..];
    }
  }

  /** A word without NUL bytes is read back whole, up to its NUL. */
  lemma {:induction false} TokenOfWord(w: seq<byte>, rest: seq<byte>)
    requires 0 !in w
    ensures TokenOf(w + ([0] + rest)) == (w, rest)
    decreases |w|
  {
    var s := w + ([0] + rest);
    if w == [] {
      assert s[0] == 0 && s[1..] == rest;
    } else {
      assert s[0] == w[0] != 0 by {
        assert w[0] in w;
      }
      assert s[1..] == w[1..] + ([0] + rest);
      TokenOfWord(w[1..], rest);
      assert [w[0]] + w[1..] == w;
    }
  }

  /** Python `lst[i]`: negative indexes count from the end. */
  function PyIndex<T>(lst: seq<T>, i: int): (r: Result<T>)
    ensures r.Ok? <==> -|lst| <= i < |lst|
    ensures r.Ok? ==> r.value == lst[if i < 0 then |lst| + i else i]
    ensures r.Err? ==> r.error == INDEX_ERROR
  {
    if 0 <= i < |lst| then Ok(lst[i])
    else if -|lst| <= i < 0 then Ok(lst[|lst| + i])
    else Err(INDEX_ERROR)
  }

  // ---------------------------------------------------------------------------
  // Numbers and floats

  /** `read_number(length)`: a signed integer of 1, 2, 4 or 8 bytes as its
      decimal text; any other length gives `"0"` and reads nothing. */
  function NumberOf(s: seq<byte>, length: int): Result<(string, seq<byte>)>
  {
    if length == 1 || length == 2 || length == 4 || length == 8 then
      match IntOf(s, length)
      case Ok((v, rest)) => Ok((Decimal(v), rest))
      case Err(e) => Err(e)
    else Ok(("0", s))
  }

  /** `read_number` of a value written in `length` bytes gives its decimal
      text and consumes exactly those bytes. */
  lemma NumberRoundTrip(v: int, length: nat, rest: seq<byte>)
    requires length == 1 || length == 2 || length == 4 || length == 8
    requires -Half(length) <= v < Half(length)
    ensures NumberOf(TwosComplement(v, length) + rest, length) == Ok((Decimal(v), rest))
  {
    IntRoundTrip(v, length, rest);
  }

  /** A number whose bytes are cut short raises `struct.error`. */
  lemma NumberShort(s: seq<byte>, length: int)
    requires length == 1 || length == 2 || length == 4 || length == 8
    requires |s| < length
    ensures NumberOf(s, length) == Err(STRUCT_ERROR)
  {
  }

  /** One reading of `'<f'`: the next four bytes, kept undecoded. */
  function FloatOf(s: seq<byte>): (r: Result<(seq<byte>, seq<byte>)>)
    ensures r.Ok? <==> 4 <= |s|
    ensures r.Ok? ==> r.value == (s[..4], s[4..])
    ensures r.Err? ==> r.error == STRUCT_ERROR
  {
    if |s| < 4 then Err(STRUCT_ERROR) else Ok((s[..4], s[4..]))
  }

  /** `n` readings of `'<f'`: the 4-byte groups, in order. */
  function FloatGroupsOf(s: seq<byte>, n: int): (r: Result<(seq<seq<byte>>, seq<byte>)>)
    ensures r.Ok? ==> |r.value.0| == (if n < 0 then 0 else n)
    ensures r.Ok? ==> |r.value.1| <= |s|
    ensures r.Err? ==> r.error == STRUCT_ERROR
    decreases n
  {
    if n <= 0 then Ok(([], s))
    else
      match FloatOf(s)
      case Err(e) => Err(e)
      case Ok((g, s1)) =>
        match FloatGroupsOf(s1, n - 1)
        case Ok((gs, rest)) => Ok(([g] + gs, rest))
        case Err(e) => Err(e)
  }

  /** The groups are the `k`-th four bytes each, and what follows them
      remains. */
  lemma {:induction false} FloatGroupsContents(s: seq<byte>, n: int)
    ensures var r := FloatGroupsOf(s, n);
      r.Ok? ==>
        && 4 * |r.value.0| <= |s| && r.value.1 == s[4 * |r.value.0|..]
        && forall k :: 0 <= k < |r.value.0| ==> r.value.0[k] == s[4 * k..4 * k + 4]
    decreases n
  {
    var r := FloatGroupsOf(s, n);
    if n > 0 && |s| >= 4 && r.Ok? {
      FloatGroupsContents(s[4..], n - 1);
      assert s[4..][4 * (n - 1)..] == s[4 * n..];
      var gs := r.value.0;
      forall k | 0 <= k < |gs|
        ensures gs[k] == s[4 * k..4 * k + 4]
      {
        if k > 0 {
          assert gs[k] == FloatGroupsOf(s[4..], n - 1).value.0[k - 1];
          assert s[4..][4 * (k - 1)..4 * (k - 1) + 4] == s[4 * k..4 * k + 4];
        }
      }
    }
  }

  /** The groups read so far in front of what the rest of the loop reads. */
  function FloatsAfter(done: seq<seq<byte>>, r: Result<(seq<seq<byte>>, seq<byte>)>): Result<(seq<seq<byte>>, seq<byte>)>
  {
    match r
    case Ok((gs, rest)) => Ok((done + gs, rest))
    case Err(e) => Err(e)
  }

  lemma FloatsAfterEmpty(r: Result<(seq<seq<byte>>, seq<byte>)>)
    ensures FloatsAfter([], r) == r
  {
    if r.Ok? {
      assert [] + r.value.0 == r.value.0;
    }
  }

  lemma FloatsAfterNext(done: seq<seq<byte>>, g: seq<byte>, r: Result<(seq<seq<byte>>, seq<byte>)>)
    ensures FloatsAfter(done, FloatsAfter([g], r)) == FloatsAfter(done + [g], r)
  {
    if r.Ok? {
      assert done + ([g] + r.value.0) == (done + [g]) + r.value.0;
    }
  }

  /** `n` groups are read exactly when `4 n` bytes remain. */
  lemma {:induction false} FloatGroupsEnough(s: seq<byte>, n: nat)
    ensures FloatGroupsOf(s, n).Ok? <==> 4 * n <= |s|
    decreases n
  {
    if n > 0 && |s| >= 4 {
      FloatGroupsEnough(s[4..], n - 1);
    }
  }

  // ---------------------------------------------------------------------------
  // A byte stream with a cursor

  /** An `io.BytesIO` over fixed bytes; the cursor is its only state. */
  class ByteStream {

    const data: seq<byte>
    var pos: nat

    predicate Valid()
      reads this
    {
      pos <= |data|
    }

    /** The bytes not read yet. */
    function Remaining(): (r: seq<byte>)
      requires Valid()
      reads this
      ensures Suffix(r, data)
    {
      data[pos..]
    }

    /** A read gave `r` and left the stream where the specification `spec`
        says; after an exception the stream is not used again. */
    predicate Matches<T(==)>(r: Result<T>, spec: Result<(T, seq<byte>)>)
      requires Valid()
      reads this
    {
      match spec
      case Ok((v, rest)) => r == Ok(v) && Remaining() == rest
      case Err(e) => r == Err(e)
    }

    constructor (data: seq<byte>)
      ensures this.data == data && Valid() && Remaining() == data
    {
      this.data := data;
      pos := 0;
    }

    /** `f.read(n)`. */
    method Read(n: int) returns (r: seq<byte>)
      requires Valid()
      modifies this
      ensures Valid()
      ensures (r, Remaining()) == ReadOf(old(Remaining()), n)
    {
      var s := data[pos..];
      r := ReadOf(s, n).0;
      assert data[pos + |r|..] == s[|r|..];
      pos := pos + |r|;
    }

    /** `struct.unpack(fmt, f.read(width))[0]` for a signed format. */
    method ReadInt(width: nat) returns (r: Result<int>)
      requires Valid() && 1 <= width
      modifies this
      ensures Valid()
      ensures Matches(r, IntOf(old(Remaining()), width))
    {
      var b := Read(width);
      if |b| < width {
        return Err(STRUCT_ERROR);
      }
      return Ok(SignedLittleEndian(b));
    }

    /** Bytes up to the next NUL or the end, one `f.read(1)` at a time; the
        NUL is consumed and not returned. */
    method ReadToken() returns (chars: seq<byte>)
      requires Valid()
      modifies this
      ensures Valid()
      ensures (chars, Remaining()) == TokenOf(old(Remaining()))
    {
      ghost var start := Remaining();
      chars := [];
      while true
        invariant Valid()
        invariant TokenOf(start).0 == chars + TokenOf(Remaining()).0
        invariant TokenOf(start).1 == TokenOf(Remaining()).1
        decreases |data| - pos
      {
        ghost var before := Remaining();
        var b := Read(1);
        TokenStep(before, b, Remaining());
        if b == [] || b == [0] {
          assert chars + [] == chars;
          return;
        }
        AppendAssoc(chars, b, TokenOf(Remaining()).0);
        chars := chars + b;
      }
    }

    /** `struct.unpack('<f', f.read(4))`, the bytes kept undecoded. */
    method ReadFloat() returns (r: Result<seq<byte>>)
      requires Valid()
      modifies this
      ensures Valid()
      ensures Matches(r, FloatOf(old(Remaining())))
    {
      var b := Read(4);
      if |b| < 4 {
        return Err(STRUCT_ERROR);
      }
      return Ok(b);
    }

    /** `n` readings of `struct.unpack('<f', f.read(4))`. */
    method ReadFloats(n: int) returns (r: Result<seq<seq<byte>>>)
      requires Valid()
      modifies this
      ensures Valid()
      ensures Matches(r, FloatGroupsOf(old(Remaining()), n))
    {
      ghost var start := Remaining();
      var floats := [];
      var k := 0;
      FloatsAfterEmpty(FloatGroupsOf(start, n));
      while k < n
        invariant Valid() && 0 <= k
        invariant FloatGroupsOf(start, n) == FloatsAfter(floats, FloatGroupsOf(Remaining(), n - k))
      {
        var b := ReadFloat();
        if b.Err? {
          return Err(b.error);
        }
        FloatsAfterNext(floats, b.value, FloatGroupsOf(Remaining(), n - k - 1));
        floats := floats + [b.value];
        k := k + 1;
      }
      assert floats + [] == floats;
      return Ok(floats);
    }
  }
}
