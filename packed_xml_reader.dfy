/** `packedxml_reader.py`: the strict packed-XML reader. Unlike the codec it
    checks the header magic, decodes text strictly, looks each child's name
    up as soon as its index is read, turns twelve floats into four rows,
    checks Booleans, writes Base64 as base64 and rejects unknown types. */
module PackedXmlReader {

  import opened Options
  import opened Bytes
  import opened Numerals
  import opened PackedXml
  import PackedXmlCodec

  /** `PackedXmlReader.Packed_Header`. */
  const PACKED_HEADER: int := 0x62A1_4E45

  const NOT_PACKED_XML: string := "File is not packed xml"
  const BOOLEAN_ERROR: string := "Boolean error"

  /** `f'Unknown type of element {element.tag}: {t}'`. */
  function UnknownTypeError(tag: string, t: int): string
  {
    "Unknown type of element " + tag + ": " + Decimal(t)
  }

  // ---------------------------------------------------------------------------
  // Specification

  /** `read_header`: the magic, then one skipped signed byte. */
  function HeaderOf(s: seq<byte>): (r: Result<((), seq<byte>)>)
    ensures r.Ok? ==> 5 <= |s| && r.value.1 == s[5..]
  {
    match IntOf(s, 4)
    case Err(e) => Err(e)
    case Ok((head, s1)) =>
      if head != PACKED_HEADER then Err(NOT_PACKED_XML)
      else
        match IntOf(s1, 1)
        case Err(e) => Err(e)
        case Ok((_, s2)) => Ok(((), s2))
  }

  /** `read_string_till_zero`: the word up to a NUL or the end, decoded
      strictly. */
  function StringTillZeroOf(s: seq<byte>, codecs: Codecs): (r: Result<(string, seq<byte>)>)
    ensures r.Ok? && r.value.0 != [] ==> |r.value.1| < |s|
    ensures r.Err? ==> r.error == UNICODE_ERROR
  {
    var (chars, rest) := TokenOf(s);
    match DecodeUtf8(codecs, chars)
    case None => Err(UNICODE_ERROR)
    case Some(text) => Ok((text, rest))
  }

  /** `read_dictionary`: words until one decodes to the empty text; `words`
      holds those read so far. */
  function DictionaryOf(s: seq<byte>, codecs: Codecs, words: seq<string>): (r: Result<(seq<string>, seq<byte>)>)
    ensures r.Ok? ==> |r.value.1| <= |s|
    decreases |s|
  {
    match StringTillZeroOf(s, codecs)
    case Err(e) => Err(e)
    case Ok((text, rest)) =>
      if |text| == 0 then Ok((words, rest))
      else DictionaryOf(rest, codecs, words + [text])
  }

  /** `PackedXmlElementDescriptor`: the name index, the name it selects and
      the child's data descriptor. */
  datatype ElementDescriptor = ElementDescriptor(nameIndex: int, name: string, desc: DataDescriptor)

  /** The descriptor loop of `read_element`: each name is looked up right
      after its index is read, before the descriptor's own four bytes. */
  function DescriptorsOf(s: seq<byte>, dict: seq<string>, count: int, acc: seq<ElementDescriptor>)
    : (r: Result<(seq<ElementDescriptor>, seq<byte>)>)
    ensures r.Ok? ==> |r.value.1| <= |s|
    ensures r.Ok? ==> |r.value.0| == |acc| + (if count < 0 then 0 else count)
    decreases count
  {
    if count <= 0 then Ok((acc, s))
    else
      match IntOf(s, 2)
      case Err(e) => Err(e)
      case Ok((nameIndex, s1)) =>
        match PyIndex(dict, nameIndex)
        case Err(e) => Err(e)
        case Ok(name) =>
          match DescriptorOf(s1)
          case Err(e) => Err(e)
          case Ok((desc, s2)) =>
            DescriptorsOf(s2, dict, count - 1, acc + [ElementDescriptor(nameIndex, name, desc)])
  }

  /** What `read_element` reads before any data. */
  datatype Head = Head(count: int, self: DataDescriptor, descs: seq<ElementDescriptor>)

  function HeadOf(s: seq<byte>, dict: seq<string>): (r: Result<(Head, seq<byte>)>)
    ensures r.Ok? ==> |r.value.1| <= |s| - 6
  {
    match IntOf(s, 2)
    case Err(e) => Err(e)
    case Ok((count, s1)) =>
      match DescriptorOf(s1)
      case Err(e) => Err(e)
      case Ok((self, s2)) =>
        match DescriptorsOf(s2, dict, count, [])
        case Err(e) => Err(e)
        case Ok((descs, s3)) => Ok((Head(count, self, descs), s3))
  }

  /** Row `i` of a matrix of twelve floats: `row{i}` with its three floats. */
  function Row(gs: seq<seq<byte>>, i: nat, codecs: Codecs): (r: Element)
    requires 3 * i + 3 <= |gs|
    ensures r.children == []
  {
    Element("row" + Decimal(i), Some(codecs.floatText(gs[3 * i..3 * i + 3])), [])
  }

  /** The element with rows `0` to `n - 1` appended. */
  function WithRows(el: Element, gs: seq<seq<byte>>, n: nat, codecs: Codecs): (r: Element)
    requires 3 * n <= |gs|
    ensures r.tag == el.tag && r.text == el.text
    ensures |r.children| == |el.children| + n
  {
    if n == 0 then el else Append(WithRows(el, gs, n - 1, codecs), Row(gs, n - 1, codecs))
  }

  /** The data branches of `read_element_data` other than a nested element. */
  function ValueOf(s: seq<byte>, el: Element, typ: int, length: int, codecs: Codecs): (r: Result<(Element, seq<byte>)>)
    requires typ != 0
    ensures r.Ok? ==> |r.value.1| <= |s| && r.value.0.tag == el.tag
  {
    if typ == 1 then
      var (b, rest) := ReadOf(s, length);
      match DecodeUtf8(codecs, b)
      case None => Err(UNICODE_ERROR)
      case Some(text) => Ok((WithText(el, text), rest))
    else if typ == 2 then
      match NumberOf(s, length)
      case Err(e) => Err(e)
      case Ok((text, rest)) => Ok((WithText(el, text), rest))
    else if typ == 3 then
      match FloatGroupsOf(s, length / 4)
      case Err(e) => Err(e)
      case Ok((gs, rest)) =>
        if |gs| == 12 then Ok((WithRows(el, gs, 4, codecs), rest))
        else Ok((WithText(el, codecs.floatText(gs)), rest))
    else if typ == 4 then
      if length != 1 then Ok((WithText(el, "false"), s))
      else
        match IntOf(s, 1)
        case Err(e) => Err(e)
        case Ok((v, rest)) =>
          if v != 1 then Err(BOOLEAN_ERROR) else Ok((WithText(el, "true"), rest))
    else if typ == 5 then
      var (b, rest) := ReadOf(s, length);
      Ok((WithText(el, codecs.base64(b)), rest))
    else Err(UnknownTypeError(el.tag, typ))
  }

  /** `read_element_data(element, dictionary, descriptor, offset)`. */
  function DataOf(s: seq<byte>, dict: seq<string>, el: Element, offset: int, desc: DataDescriptor, codecs: Codecs)
    : (r: Result<(Element, seq<byte>)>)
    ensures r.Ok? ==> |r.value.1| <= |s| && r.value.0.tag == el.tag
    decreases |s|, 1, 0
  {
    if desc.typ == 0 then ElementOf(s, dict, el, codecs)
    else ValueOf(s, el, desc.typ, desc.end - offset, codecs)
  }

  /** `read_element(element, dictionary)`. */
  function ElementOf(s: seq<byte>, dict: seq<string>, el: Element, codecs: Codecs): (r: Result<(Element, seq<byte>)>)
    ensures r.Ok? ==> |r.value.1| <= |s| && r.value.0.tag == el.tag
    decreases |s|, 0, 0
  {
    match HeadOf(s, dict)
    case Err(e) => Err(e)
    case Ok((head, s3)) =>
      match DataOf(s3, dict, el, 0, head.self, codecs)
      case Err(e) => Err(e)
      case Ok((el1, s4)) => ChildrenOf(s4, dict, el1, head.self.end, head.descs, codecs)
  }

  /** The loop over the children of `read_element`. */
  function ChildrenOf(s: seq<byte>, dict: seq<string>, parent: Element, offset: int, descs: seq<ElementDescriptor>, codecs: Codecs)
    : (r: Result<(Element, seq<byte>)>)
    ensures r.Ok? ==> |r.value.1| <= |s| && r.value.0.tag == parent.tag
    decreases |s|, 2, |descs|
  {
    if descs == [] then Ok((parent, s))
    else
      match PyIndex(dict, descs[0].nameIndex)
      case Err(e) => Err(e)
      case Ok(name) =>
        match DataOf(s, dict, NewElement(name), offset, descs[0].desc, codecs)
        case Err(e) => Err(e)
        case Ok((child, rest)) => ChildrenOf(rest, dict, Append(parent, child), descs[0].desc.end, descs[1..], codecs)
  }

  /** `PackedXmlReader(io.BytesIO(bin_data), root_name).decode()`, up to the
      serialisation. */
  function DecodeOf(data: seq<byte>, rootName: string, codecs: Codecs): Result<Element>
  {
    match HeaderOf(data)
    case Err(e) => Err(e)
    case Ok((_, s1)) =>
      match DictionaryOf(s1, codecs, [])
      case Err(e) => Err(e)
      case Ok((dict, s2)) =>
        match ElementOf(s2, dict, NewElement(rootName), codecs)
        case Err(e) => Err(e)
        case Ok((root, _)) => Ok(root)
  }

  // ---------------------------------------------------------------------------
  // Properties

  /** Any header word other than the magic is rejected. */
  lemma WrongMagicRejected(s: seq<byte>, rootName: string, codecs: Codecs)
    requires IntOf(s, 4).Ok? && IntOf(s, 4).value.0 != PACKED_HEADER
    ensures HeaderOf(s) == Err(NOT_PACKED_XML)
    ensures DecodeOf(s, rootName, codecs) == Err(NOT_PACKED_XML)
  {
  }

  /** The magic `45 4E A1 62` and one more byte make a header, whatever that
      byte is. */
  lemma MagicAccepted(b: byte, rest: seq<byte>)
    ensures HeaderOf([0x45, 0x4E, 0xA1, 0x62, b] + rest) == Ok(((), rest))
  {
    var s := [0x45, 0x4E, 0xA1, 0x62, b] + rest;
    var w: seq<byte> := [0x45, 0x4E, 0xA1, 0x62];
    assert s[..4] == w && s[4..] == [b] + rest;
    assert UnsignedLittleEndian(w[3..]) == 0x62;
    assert UnsignedLittleEndian(w[2..]) == 0xA1 + 256 * 0x62;
    assert UnsignedLittleEndian(w[1..]) == 0x4E + 256 * (0xA1 + 256 * 0x62);
    assert UnsignedLittleEndian(w) == PACKED_HEADER;
    assert Half(4) == 0x8000_0000 by {
      assert Pow256(4) == 256 * Pow256(3);
      assert Pow256(3) == 256 * Pow256(2);
    }
    assert ([b] + rest)[..1] == [b] && ([b] + rest)[1..] == rest;
  }

  /** When the decoder never turns bytes into the empty text, checking the
      decoded text for emptiness (as here) and checking the bytes (as the
      codec does) read the same dictionary. */
  lemma {:induction false} DictionaryAgrees(s: seq<byte>, codecs: Codecs, words: seq<string>)
    requires forall b :: b != [] && codecs.utf8(b).Some? ==> codecs.utf8(b).value != []
    ensures DictionaryOf(s, codecs, words) == PackedXmlCodec.DictionaryOf(s, codecs, words)
    decreases |s|
  {
    var (chars, rest) := TokenOf(s);
    if chars != [] && codecs.utf8(chars).Some? {
      DictionaryAgrees(rest, codecs, words + [codecs.utf8(chars).value]);
    }
  }

  /** Names are looked up as soon as their index is read: an index outside
      the dictionary raises `IndexError` even when the descriptor after it is
      cut short, where the codec raises `struct.error`. */
  lemma NameLookedUpFirst(s: seq<byte>, dict: seq<string>, count: int, nameIndex: int, s1: seq<byte>)
    requires count > 0 && IntOf(s, 2) == Ok((nameIndex, s1))
    requires !(-|dict| <= nameIndex < |dict|)
    ensures DescriptorsOf(s, dict, count, []) == Err(INDEX_ERROR)
    ensures |s1| < 4 ==> PackedXmlCodec.DescriptorsOf(s, count, []) == Err(STRUCT_ERROR)
  {
  }

  /** Every descriptor read carries the name its index selects, so the
      second lookup in the children loop cannot fail. */
  lemma {:induction false} NamesResolve(s: seq<byte>, dict: seq<string>, count: int, acc: seq<ElementDescriptor>)
    requires forall k :: 0 <= k < |acc| ==> PyIndex(dict, acc[k].nameIndex) == Ok(acc[k].name)
    ensures var r := DescriptorsOf(s, dict, count, acc);
      r.Ok? ==> forall k :: 0 <= k < |r.value.0| ==> PyIndex(dict, r.value.0[k].nameIndex) == Ok(r.value.0[k].name)
    decreases count
  {
    if count > 0 && DescriptorsOf(s, dict, count, acc).Ok? {
      var (nameIndex, s1) := IntOf(s, 2).value;
      var name := PyIndex(dict, nameIndex).value;
      var (desc, s2) := DescriptorOf(s1).value;
      var acc1 := acc + [ElementDescriptor(nameIndex, name, desc)];
      assert DescriptorsOf(s, dict, count, acc) == DescriptorsOf(s2, dict, count - 1, acc1);
      assert forall k :: 0 <= k < |acc1| ==> PyIndex(dict, acc1[k].nameIndex) == Ok(acc1[k].name) by {
        forall k | 0 <= k < |acc1|
          ensures PyIndex(dict, acc1[k].nameIndex) == Ok(acc1[k].name)
        {
          if k < |acc| {
            assert acc1[k] == acc[k];
          }
        }
      }
      NamesResolve(s2, dict, count - 1, acc1);
    }
  }

  /** A non-positive child count reads no child descriptors: the element is
      its own data alone. */
  lemma NoChildren(s: seq<byte>, dict: seq<string>, el: Element, codecs: Codecs, count: int, s1: seq<byte>, self: DataDescriptor, s2: seq<byte>)
    requires IntOf(s, 2) == Ok((count, s1)) && count <= 0
    requires DescriptorOf(s1) == Ok((self, s2))
    ensures ElementOf(s, dict, el, codecs) == DataOf(s2, dict, el, 0, self, codecs)
  {
    assert HeadOf(s, dict) == Ok((Head(count, self, []), s2));
    match DataOf(s2, dict, el, 0, self, codecs)
    case Ok((el1, s4)) =>
      assert ChildrenOf(s4, dict, el1, self.end, [], codecs) == Ok((el1, s4));
    case Err(_) =>
  }

  /** Rows are appended after the element's own children, in order. */
  lemma {:induction false} RowsInOrder(el: Element, gs: seq<seq<byte>>, n: nat, codecs: Codecs)
    requires 3 * n <= |gs|
    ensures WithRows(el, gs, n, codecs).children[..|el.children|] == el.children
    ensures forall i :: 0 <= i < n ==> WithRows(el, gs, n, codecs).children[|el.children| + i] == Row(gs, i, codecs)
  {
    if n > 0 {
      RowsInOrder(el, gs, n - 1, codecs);
      var e0 := WithRows(el, gs, n - 1, codecs);
      assert WithRows(el, gs, n, codecs).children == e0.children + [Row(gs, n - 1, codecs)];
    }
  }

  /** Row `i` of twelve groups read from `s` holds the `i`-th twelve bytes. */
  lemma RowOfFloats(s: seq<byte>, gs: seq<seq<byte>>, i: nat, codecs: Codecs)
    requires |gs| == 12 && |s| >= 48 && i < 4
    requires forall k :: 0 <= k < |gs| ==> gs[k] == s[4 * k..4 * k + 4]
    ensures Row(gs, i, codecs).text == Some(codecs.floatText([s[12 * i..12 * i + 4], s[12 * i + 4..12 * i + 8], s[12 * i + 8..12 * i + 12]]))
  {
    assert gs[3 * i] == s[12 * i..12 * i + 4] by {
      assert 4 * (3 * i) == 12 * i;
    }
    assert gs[3 * i + 1] == s[12 * i + 4..12 * i + 8] by {
      assert 4 * (3 * i + 1) == 12 * i + 4;
    }
    assert gs[3 * i + 2] == s[12 * i + 8..12 * i + 12] by {
      assert 4 * (3 * i + 2) == 12 * i + 8;
    }
    assert gs[3 * i..3 * i + 3] == [gs[3 * i], gs[3 * i + 1], gs[3 * i + 2]];
  }

  /** Exactly twelve floats become four children `row0` to `row3` of three
      floats each, in order, and leave the text alone. */
  lemma TwelveFloatsAsRows(s: seq<byte>, el: Element, length: int, codecs: Codecs)
    requires length / 4 == 12 && |s| >= 48
    ensures var r := ValueOf(s, el, 3, length, codecs);
      && r.Ok? && r.value.1 == s[48..]
      && r.value.0.text == el.text
      && |r.value.0.children| == |el.children| + 4
      && r.value.0.children[..|el.children|] == el.children
      && forall i :: 0 <= i < 4 ==>
           var row := r.value.0.children[|el.children| + i];
           && row.tag == "row" + Decimal(i) && row.children == []
           && row.text == Some(codecs.floatText([s[12 * i..12 * i + 4], s[12 * i + 4..12 * i + 8], s[12 * i + 8..12 * i + 12]]))
  {
    FloatGroupsEnough(s, 12);
    FloatGroupsContents(s, 12);
    var gs := FloatGroupsOf(s, 12).value.0;
    var e := WithRows(el, gs, 4, codecs);
    assert ValueOf(s, el, 3, length, codecs) == Ok((e, s[48..]));
    RowsInOrder(el, gs, 4, codecs);
    forall i | 0 <= i < 4
      ensures var row := e.children[|el.children| + i];
        && row.tag == "row" + Decimal(i) && row.children == []
        && row.text == Some(codecs.floatText([s[12 * i..12 * i + 4], s[12 * i + 4..12 * i + 8], s[12 * i + 8..12 * i + 12]]))
    {
      RowOfFloats(s, gs, i, codecs);
    }
  }

  /** The four row tags are `row0`, `row1`, `row2` and `row3`. */
  lemma RowNames()
    ensures ["row" + Decimal(0), "row" + Decimal(1), "row" + Decimal(2), "row" + Decimal(3)] == ["row0", "row1", "row2", "row3"]
  {
    assert DecimalDigits(0) == [DigitChar(0, true)] == "0";
    assert DecimalDigits(1) == [DigitChar(1, true)] == "1";
    assert DecimalDigits(2) == [DigitChar(2, true)] == "2";
    assert DecimalDigits(3) == [DigitChar(3, true)] == "3";
    assert "row" + "0" == "row0" && "row" + "1" == "row1" && "row" + "2" == "row2" && "row" + "3" == "row3";
  }

  /** Any other number of floats is joined into the text, and no child is
      added. */
  lemma OtherFloatsAsText(s: seq<byte>, el: Element, length: int, codecs: Codecs)
    requires length / 4 != 12
    ensures var r := ValueOf(s, el, 3, length, codecs);
      r.Ok? ==> r.value.0.children == el.children && r.value.0.text.Some?
  {
  }

  /** A Boolean whose length is not 1 is `false` and reads nothing; of
      length 1 its byte must be 1, which gives `true`, and any other byte
      raises. */
  lemma BooleanRules(s: seq<byte>, el: Element, length: int, codecs: Codecs)
    ensures var r := ValueOf(s, el, 4, length, codecs);
      && (length != 1 ==> r == Ok((WithText(el, "false"), s)))
      && (length == 1 && s == [] ==> r == Err(STRUCT_ERROR))
      && (length == 1 && s != [] && s[0] == 1 ==> r == Ok((WithText(el, "true"), s[1..])))
      && (length == 1 && s != [] && s[0] != 1 ==> r == Err(BOOLEAN_ERROR))
  {
    if length == 1 && s != [] {
      assert Half(1) == 128 by {
        assert Pow256(1) == 256 * Pow256(0);
      }
      assert s[..1] == [s[0]];
      assert UnsignedLittleEndian([s[0]]) == s[0] by {
        assert [s[0]][1..] == [];
      }
    }
  }

  /** Types outside 0 to 5, the negative ones included, raise an error that
      names the element's tag and the type. */
  lemma UnknownTypeRaises(s: seq<byte>, dict: seq<string>, el: Element, offset: int, desc: DataDescriptor, codecs: Codecs)
    requires desc.typ < 0 || desc.typ > 5
    ensures DataOf(s, dict, el, offset, desc, codecs) == Err(UnknownTypeError(el.tag, desc.typ))
  {
  }

  /** The children keep the parent's own children first, then one child per
      descriptor, in descriptor order, each tagged with its descriptor's
      name. */
  lemma {:induction false} ChildrenInOrder(s: seq<byte>, dict: seq<string>, parent: Element, offset: int, descs: seq<ElementDescriptor>, codecs: Codecs)
    requires forall k :: 0 <= k < |descs| ==> PyIndex(dict, descs[k].nameIndex) == Ok(descs[k].name)
    ensures var r := ChildrenOf(s, dict, parent, offset, descs, codecs);
      r.Ok? ==>
        && r.value.0.text == parent.text
        && |r.value.0.children| == |parent.children| + |descs|
        && r.value.0.children[..|parent.children|] == parent.children
        && forall k :: 0 <= k < |descs| ==> r.value.0.children[|parent.children| + k].tag == descs[k].name
    decreases |descs|
  {
    var r := ChildrenOf(s, dict, parent, offset, descs, codecs);
    if descs != [] && r.Ok? {
      var name := descs[0].name;
      var (child, rest) := DataOf(s, dict, NewElement(name), offset, descs[0].desc, codecs).value;
      var p1 := Append(parent, child);
      assert forall k :: 0 <= k < |descs[1..]| ==> PyIndex(dict, descs[1..][k].nameIndex) == Ok(descs[1..][k].name) by {
        forall k | 0 <= k < |descs[1..]|
          ensures PyIndex(dict, descs[1..][k].nameIndex) == Ok(descs[1..][k].name)
        {
          assert descs[1..][k] == descs[k + 1];
        }
      }
      ChildrenInOrder(rest, dict, p1, descs[0].desc.end, descs[1..], codecs);
      assert r == ChildrenOf(rest, dict, p1, descs[0].desc.end, descs[1..], codecs);
      var cs := r.value.0.children;
      assert cs[..|parent.children| + 1] == p1.children;
      assert cs[..|parent.children|] == parent.children by {
        assert cs[..|parent.children|] == p1.children[..|parent.children|];
      }
      forall k | 0 <= k < |descs|
        ensures cs[|parent.children| + k].tag == descs[k].name
      {
        if k == 0 {
          assert cs[|parent.children|] == p1.children[|parent.children|] == child;
        } else {
          assert descs[k] == descs[1..][k - 1];
          assert |parent.children| + k == |p1.children| + (k - 1);
        }
      }
    }
  }

  // ---------------------------------------------------------------------------
  // The reader

  /** `PackedXmlReader`: `stream` and `reader` name the same stream. */
  class PackedXmlReader {

    const reader: ByteStream
    const rootName: string
    const codecs: Codecs

    predicate Valid()
      reads this, reader
    {
      reader.Valid()
    }

    constructor (stream: ByteStream, rootName: string, codecs: Codecs)
      ensures reader == stream && this.rootName == rootName && this.codecs == codecs
    {
      reader := stream;
      this.rootName := rootName;
      this.codecs := codecs;
    }

    method ReadInt32() returns (r: Result<int>)
      requires Valid()
      modifies reader
      ensures Valid()
      ensures reader.Matches(r, IntOf(old(reader.Remaining()), 4))
    {
      r := reader.ReadInt(4);
    }

    method ReadInt16() returns (r: Result<int>)
      requires Valid()
      modifies reader
      ensures Valid()
      ensures reader.Matches(r, IntOf(old(reader.Remaining()), 2))
    {
      r := reader.ReadInt(2);
    }

    method ReadSByte() returns (r: Result<int>)
      requires Valid()
      modifies reader
      ensures Valid()
      ensures reader.Matches(r, IntOf(old(reader.Remaining()), 1))
    {
      r := reader.ReadInt(1);
    }

    method ReadBytes(n: int) returns (r: seq<byte>)
      requires Valid()
      modifies reader
      ensures Valid()
      ensures (r, reader.Remaining()) == ReadOf(old(reader.Remaining()), n)
    {
      r := reader.Read(n);
    }

    method ReadStringTillZero() returns (r: Result<string>)
      requires Valid()
      modifies reader
      ensures Valid()
      ensures reader.Matches(r, StringTillZeroOf(old(reader.Remaining()), codecs))
    {
      var chars := reader.ReadToken();
      var text := DecodeUtf8(codecs, chars);
      if text.None? {
        return Err(UNICODE_ERROR);
      }
      return Ok(text.value);
    }

    method ReadDictionary() returns (r: Result<seq<string>>)
      requires Valid()
      modifies reader
      ensures Valid()
      ensures reader.Matches(r, DictionaryOf(old(reader.Remaining()), codecs, []))
    {
      ghost var start := reader.Remaining();
      var dictionary := [];
      while true
        invariant Valid()
        invariant DictionaryOf(start, codecs, []) == DictionaryOf(reader.Remaining(), codecs, dictionary)
        decreases |reader.data| - reader.pos
      {
        var text := ReadStringTillZero();
        if text.Err? {
          return Err(text.error);
        }
        if |text.value| == 0 {
          return Ok(dictionary);
        }
        dictionary := dictionary + [text.value];
      }
    }

    /** `read_string(length)`: strict decoding. */
    method ReadString(length: int) returns (r: Result<string>)
      requires Valid()
      modifies reader
      ensures Valid()
      ensures var (b, rest) := ReadOf(old(reader.Remaining()), length);
        match DecodeUtf8(codecs, b)
        case None => r == Err(UNICODE_ERROR)
        case Some(text) => r == Ok(text) && reader.Remaining() == rest
    {
      var b := ReadBytes(length);
      var text := DecodeUtf8(codecs, b);
      if text.None? {
        return Err(UNICODE_ERROR);
      }
      return Ok(text.value);
    }

    method ReadNumber(length: int) returns (r: Result<string>)
      requires Valid()
      modifies reader
      ensures Valid()
      ensures reader.Matches(r, NumberOf(old(reader.Remaining()), length))
    {
      if length == 1 || length == 2 || length == 4 || length == 8 {
        var v := reader.ReadInt(length);
        if v.Err? {
          return Err(v.error);
        }
        return Ok(Decimal(v.value));
      }
      return Ok("0");
    }

    method ReadFloats(n: int) returns (r: Result<seq<seq<byte>>>)
      requires Valid()
      modifies reader
      ensures Valid()
      ensures reader.Matches(r, FloatGroupsOf(old(reader.Remaining()), n))
    {
      r := reader.ReadFloats(n);
    }

    method ReadBase64AsText(length: int) returns (r: string)
      requires Valid()
      modifies reader
      ensures Valid()
      ensures var (b, rest) := ReadOf(old(reader.Remaining()), length);
        r == codecs.base64(b) && reader.Remaining() == rest
    {
      var b := ReadBytes(length);
      r := codecs.base64(b);
    }

    method ReadHeader() returns (r: Result<()>)
      requires Valid()
      modifies reader
      ensures Valid()
      ensures reader.Matches(r, HeaderOf(old(reader.Remaining())))
    {
      var head := ReadInt32();
      if head.Err? {
        return Err(head.error);
      }
      if head.value != PACKED_HEADER {
        return Err(NOT_PACKED_XML);
      }
      var b := ReadSByte();
      if b.Err? {
        return Err(b.error);
      }
      return Ok(());
    }

    /** `decode()`, returning the tree that is then serialised. */
    method Decode() returns (r: Result<Element>)
      requires Valid()
      modifies reader
      ensures r == DecodeOf(old(reader.Remaining()), rootName, codecs)
    {
      var xmlroot := NewElement(rootName);
      var header := ReadHeader();
      if header.Err? {
        return Err(header.error);
      }
      var dictionary := ReadDictionary();
      if dictionary.Err? {
        return Err(dictionary.error);
      }
      var root := ReadElement(xmlroot, dictionary.value);
      if root.Err? {
        return Err(root.error);
      }
      return Ok(root.value);
    }

    /** The child count, the descriptor, then the children's descriptors. */
    method ReadHead(dict: seq<string>) returns (r: Result<Head>)
      requires Valid()
      modifies reader
      ensures Valid()
      ensures reader.Matches(r, HeadOf(old(reader.Remaining()), dict))
      ensures r.Ok? ==> reader.pos >= old(reader.pos) + 6
    {
      var count := ReadInt16();
      if count.Err? {
        return Err(count.error);
      }
      var descriptor := ReadInt32();
      if descriptor.Err? {
        return Err(descriptor.error);
      }
      var descs := ReadDescriptors(dict, count.value);
      if descs.Err? {
        return Err(descs.error);
      }
      return Ok(Head(count.value, DescriptorOfInt(descriptor.value), descs.value));
    }

    /** The `for _ in range(child_count)` loop of `read_element`. */
    method ReadDescriptors(dict: seq<string>, count: int) returns (r: Result<seq<ElementDescriptor>>)
      requires Valid()
      modifies reader
      ensures Valid()
      ensures reader.Matches(r, DescriptorsOf(old(reader.Remaining()), dict, count, []))
    {
      ghost var start := reader.Remaining();
      var elements := [];
      var k := 0;
      while k < count
        invariant Valid()
        invariant DescriptorsOf(start, dict, count, []) == DescriptorsOf(reader.Remaining(), dict, count - k, elements)
      {
        var nameIndex := ReadInt16();
        if nameIndex.Err? {
          return Err(nameIndex.error);
        }
        var name := PyIndex(dict, nameIndex.value);
        if name.Err? {
          return Err(name.error);
        }
        var encoded := ReadInt32();
        if encoded.Err? {
          return Err(encoded.error);
        }
        elements := elements + [ElementDescriptor(nameIndex.value, name.value, DescriptorOfInt(encoded.value))];
        k := k + 1;
      }
      return Ok(elements);
    }

    /** `read_element(element, dictionary)`. */
    method ReadElement(element: Element, dict: seq<string>) returns (r: Result<Element>)
      requires Valid()
      modifies reader
      ensures Valid()
      ensures reader.Matches(r, ElementOf(old(reader.Remaining()), dict, element, codecs))
      decreases |reader.data| - reader.pos, 1
    {
      ghost var pos0 := reader.pos;
      var head := ReadHead(dict);
      if head.Err? {
        return Err(head.error);
      }
      var el, offset := ReadElementData(element, dict, head.value.self, 0);
      if el.Err? {
        return Err(el.error);
      }
      r := ReadChildren(el.value, dict, offset, head.value.descs, pos0);
    }

    /** The loop over the children of `read_element`. */
    method ReadChildren(parent: Element, dict: seq<string>, offset: int, descs: seq<ElementDescriptor>, ghost pos0: nat)
      returns (r: Result<Element>)
      requires Valid() && reader.pos >= pos0 + 6
      modifies reader
      ensures Valid()
      ensures reader.Matches(r, ChildrenOf(old(reader.Remaining()), dict, parent, offset, descs, codecs))
      decreases |reader.data| - pos0, 0
    {
      ghost var start := reader.Remaining();
      var element := parent;
      var off := offset;
      var k := 0;
      while k < |descs|
        invariant Valid() && reader.pos >= pos0 + 6 && k <= |descs|
        invariant ChildrenOf(start, dict, parent, offset, descs, codecs)
               == ChildrenOf(reader.Remaining(), dict, element, off, descs[k..], codecs)
      {
        assert descs[k..][0] == descs[k] && descs[k..][1..] == descs[k + 1..];
        var elementName := PyIndex(dict, descs[k].nameIndex);
        if elementName.Err? {
          return Err(elementName.error);
        }
        var child, next := ReadElementData(NewElement(elementName.value), dict, descs[k].desc, off);
        if child.Err? {
          return Err(child.error);
        }
        element := Append(element, child.value);
        off := next;
        k := k + 1;
      }
      return Ok(element);
    }

    /** `read_element_data(element, dictionary, descriptor, offset)`; `next`
        is the offset it returns, the descriptor's end. */
    method ReadElementData(element: Element, dict: seq<string>, descriptor: DataDescriptor, offset: int)
      returns (r: Result<Element>, next: int)
      requires Valid()
      modifies reader
      ensures Valid() && next == descriptor.end
      ensures reader.Matches(r, DataOf(old(reader.Remaining()), dict, element, offset, descriptor, codecs))
      decreases |reader.data| - reader.pos, 2
    {
      next := descriptor.end;
      if descriptor.typ == 0 {
        r := ReadElement(element, dict);
      } else {
        r := ReadValue(element, descriptor.typ, descriptor.end - offset);
      }
    }

    /** The branches of `read_element_data` other than a nested element. */
    method ReadValue(element: Element, t: int, lengthInBytes: int) returns (r: Result<Element>)
      requires Valid() && t != 0
      modifies reader
      ensures Valid()
      ensures reader.Matches(r, ValueOf(old(reader.Remaining()), element, t, lengthInBytes, codecs))
    {
      if t == 1 {
        var text := ReadString(lengthInBytes);
        if text.Err? {
          return Err(text.error);
        }
        return Ok(WithText(element, text.value));
      } else if t == 2 {
        var text := ReadNumber(lengthInBytes);
        if text.Err? {
          return Err(text.error);
        }
        return Ok(WithText(element, text.value));
      } else if t == 3 {
        var floats := ReadFloats(lengthInBytes / 4);
        if floats.Err? {
          return Err(floats.error);
        }
        if |floats.value| == 12 {
          var el := AppendRows(element, floats.value);
          return Ok(el);
        }
        return Ok(WithText(element, codecs.floatText(floats.value)));
      } else if t == 4 {
        if lengthInBytes != 1 {
          return Ok(WithText(element, "false"));
        }
        var b := ReadSByte();
        if b.Err? {
          return Err(b.error);
        }
        if b.value != 1 {
          return Err(BOOLEAN_ERROR);
        }
        return Ok(WithText(element, "true"));
      } else if t == 5 {
        var text := ReadBase64AsText(lengthInBytes);
        return Ok(WithText(element, text));
      } else {
        return Err(UnknownTypeError(element.tag, t));
      }
    }

    /** The `for i in range(4)` loop over the rows of twelve floats. */
    method AppendRows(element: Element, floats: seq<seq<byte>>) returns (r: Element)
      requires |floats| == 12
      ensures r == WithRows(element, floats, 4, codecs)
    {
      r := element;
      var i := 0;
      while i < 4
        invariant 0 <= i <= 4
        invariant r == WithRows(element, floats, i, codecs)
      {
        var row := NewElement("row" + Decimal(i));
        row := WithText(row, codecs.floatText(floats[i * 3..(i + 1) * 3]));
        r := Append(r, row);
        i := i + 1;
      }
    }
  }

  /** `decode_packedxml_strict(bin_data, root_name)`. */
  method DecodePackedXmlStrict(binData: seq<byte>, rootName: string, codecs: Codecs) returns (r: Result<Element>)
    ensures r == DecodeOf(binData, rootName, codecs)
  {
    var stream := new ByteStream(binData);
    var reader := new PackedXmlReader(stream, rootName, codecs);
    r := reader.Decode();
  }
}
