/** `packedxml_codec.py`: the lenient packed-XML codec. It writes and reads
    the NUL-separated dictionary of tag names and decodes the element tree,
    turning text it cannot decode into replacement characters and bytes of an
    unknown type into hex. */
module PackedXmlCodec {

  import opened Options
  import opened Bytes
  import opened Numerals
  import opened PackedXml

  // ---------------------------------------------------------------------------
  // Writing the dictionary

  /** A binary output stream; what was written so far is its only state. */
  class ByteSink {

    var written: seq<byte>

    constructor ()
      ensures written == []
    {
      written := [];
    }

    /** `f.write(b)`. */
    method Write(b: seq<byte>)
      modifies this
      ensures written == old(written) + b
    {
      written := written + b;
    }
  }

  /** Each word in UTF-8 followed by a NUL byte. */
  function WordsBytes(words: seq<string>): (r: seq<byte>)
    ensures |r| >= |words|
  {
    if words == [] then [] else Utf8(words[0]) + [0] + WordsBytes(words[1..])
  }

  /** What `write_dictionary` writes: the words, then one more NUL. */
  function DictionaryBytes(words: seq<string>): seq<byte>
  {
    WordsBytes(words) + [0]
  }

  /** The bytes the words take in the dictionary: each word's UTF-8 and its NUL. */
  function EncodedLength(words: seq<string>): nat
  {
    if words == [] then 0 else |Utf8(words[0])| + 1 + EncodedLength(words[1..])
  }

  /** `write_dictionary` writes the sum of `len(w.encode('utf-8')) + 1` over the
      words, plus one byte for the final NUL. */
  lemma {:induction false} DictionaryBytesLength(words: seq<string>)
    ensures |DictionaryBytes(words)| == EncodedLength(words) + 1
    decreases |words|
  {
    if words != [] {
      DictionaryBytesLength(words[1..]);
    }
  }

  lemma {:induction false} WordsBytesSnoc(words: seq<string>, w: string)
    ensures WordsBytes(words + [w]) == WordsBytes(words) + Utf8(w) + [0]
    decreases |words|
  {
    if words == [] {
      assert [] + [w] == [w];
    } else {
      assert (words + [w])[1..] == words[1..] + [w];
      WordsBytesSnoc(words[1..], w);
    }
  }

  lemma Regroup(a: seq<byte>, b: seq<byte>, c: seq<byte>, d: seq<byte>)
    ensures ((a + b) + c) + d == a + ((b + c) + d)
  {
  }

  /** `write_dictionary(f, dictionary)`. */
  method WriteDictionary(f: ByteSink, dictionary: seq<string>)
    modifies f
    ensures f.written == old(f.written) + DictionaryBytes(dictionary)
  {
    ghost var start := f.written;
    var k := 0;
    while k < |dictionary|
      invariant 0 <= k <= |dictionary|
      invariant f.written == start + WordsBytes(dictionary[..k])
    {
      f.Write(Utf8(dictionary[k]));
      f.Write([0]);
      assert f.written == start + WordsBytes(dictionary[..k + 1]) by {
        WordsBytesSnoc(dictionary[..k], dictionary[k]);
        assert dictionary[..k + 1] == dictionary[..k] + [dictionary[k]];
        Regroup(start, WordsBytes(dictionary[..k]), Utf8(dictionary[k]), [0]);
      }
      k := k + 1;
    }
    assert dictionary[..k] == dictionary;
    f.Write([0]);
  }

  // ---------------------------------------------------------------------------
  // Reading the dictionary

  /** `read_dictionary`, and the same loop inlined in `decode_packedxml`:
      words up to an empty one, each decoded strictly; `words` holds those
      read so far. */
  function DictionaryOf(s: seq<byte>, codecs: Codecs, words: seq<string>): (r: Result<(seq<string>, seq<byte>)>)
    ensures r.Ok? ==> |r.value.1| <= |s| && |r.value.0| >= |words| && r.value.0[..|words|] == words
    ensures r.Err? ==> r.error == UNICODE_ERROR
    decreases |s|
  {
    var (chars, rest) := TokenOf(s);
    if chars == [] then Ok((words, rest))
    else
      match codecs.utf8(chars)
      case None => Err(UNICODE_ERROR)
      case Some(w) =>
        var r := DictionaryOf(rest, codecs, words + [w]);
        assert r.Ok? ==> r.value.0[..|words|] == (words + [w])[..|words|];
        r
  }

  /** `read_dictionary(f)`. */
  method ReadDictionary(f: ByteStream, codecs: Codecs) returns (r: Result<seq<string>>)
    requires f.Valid()
    modifies f
    ensures f.Valid()
    ensures f.Matches(r, DictionaryOf(old(f.Remaining()), codecs, []))
  {
    ghost var start := f.Remaining();
    var dictionary := [];
    while true
      invariant f.Valid()
      invariant DictionaryOf(start, codecs, []) == DictionaryOf(f.Remaining(), codecs, dictionary)
      decreases |f.data| - f.pos
    {
      ghost var before := f.Remaining();
      var chars := f.ReadToken();
      if chars == [] {
        return Ok(dictionary);
      }
      var w := codecs.utf8(chars);
      if w.None? {
        return Err(UNICODE_ERROR);
      }
      assert |f.Remaining()| < |before|;
      dictionary := dictionary + [w.value];
    }
  }

  /** Words that are not empty, hold no NUL and decode back to themselves
      are read back in order, and the bytes after the dictionary remain. */
  lemma {:induction false} DictionaryRoundTrip(words: seq<string>, rest: seq<byte>, codecs: Codecs, acc: seq<string>)
    requires forall k :: 0 <= k < |words| ==> words[k] != [] && '\0' !in words[k]
    requires forall k :: 0 <= k < |words| ==> codecs.utf8(Utf8(words[k])) == Some(words[k])
    ensures DictionaryOf(DictionaryBytes(words) + rest, codecs, acc) == Ok((acc + words, rest))
    decreases |words|
  {
    if words == [] {
      assert DictionaryBytes(words) + rest == [0] + rest;
      assert acc + [] == acc;
    } else {
      var w := words[0];
      var tail := DictionaryBytes(words[1..]) + rest;
      calc {
        DictionaryOf(DictionaryBytes(words) + rest, codecs, acc);
        { DictionaryBytesCons(words, rest); }
        DictionaryOf(Utf8(w) + ([0] + tail), codecs, acc);
        { DictionaryStep(Utf8(w), tail, w, codecs, acc); }
        DictionaryOf(tail, codecs, acc + [w]);
        { DictionaryRoundTrip(words[1..], rest, codecs, acc + [w]); }
        Ok(((acc + [w]) + words[1..], rest));
        { assert (acc + [w]) + words[1..] == acc + words; }
        Ok((acc + words, rest));
      }
    }
  }

  lemma DictionaryBytesCons(words: seq<string>, rest: seq<byte>)
    requires words != []
    ensures DictionaryBytes(words) + rest == Utf8(words[0]) + ([0] + (DictionaryBytes(words[1..]) + rest))
  {
  }

  /** One word of the dictionary loop. */
  lemma DictionaryStep(b: seq<byte>, tail: seq<byte>, w: string, codecs: Codecs, acc: seq<string>)
    requires '\0' !in w && w != [] && b == Utf8(w) && codecs.utf8(b) == Some(w)
    ensures DictionaryOf(b + ([0] + tail), codecs, acc) == DictionaryOf(tail, codecs, acc + [w])
  {
    Utf8NoZero(w);
    TokenOfWord(b, tail);
  }

  /** An empty word ends the dictionary: the words after it are not read. */
  lemma DictionaryEmptyWordStops(words: seq<string>, later: seq<string>, rest: seq<byte>, codecs: Codecs)
    requires forall k :: 0 <= k < |words| ==> words[k] != [] && '\0' !in words[k]
    requires forall k :: 0 <= k < |words| ==> codecs.utf8(Utf8(words[k])) == Some(words[k])
    ensures DictionaryOf(DictionaryBytes(words + [""] + later) + rest, codecs, []) ==
            Ok((words, DictionaryBytes(later) + rest))
  {
    EmptyWordBytes(words, later, rest);
    DictionaryRoundTrip(words, DictionaryBytes(later) + rest, codecs, []);
  }

  lemma EmptyWordBytes(words: seq<string>, later: seq<string>, rest: seq<byte>)
    ensures DictionaryBytes(words + [""] + later) + rest == DictionaryBytes(words) + (DictionaryBytes(later) + rest)
  {
    var w1, w2 := WordsBytes(words), WordsBytes(later);
    WordsBytesAppend(words, [""] + later);
    assert WordsBytes([""] + later) == [0] + w2;
    assert words + [""] + later == words + ([""] + later);
    calc {
      DictionaryBytes(words + [""] + later) + rest;
      (w1 + ([0] + w2)) + [0] + rest;
      { assert (w1 + ([0] + w2)) + [0] == (w1 + [0]) + (w2 + [0]); }
      (w1 + [0]) + (w2 + [0]) + rest;
    }
  }

  lemma {:induction false} WordsBytesAppend(a: seq<string>, b: seq<string>)
    ensures WordsBytes(a + b) == WordsBytes(a) + WordsBytes(b)
    decreases |a|
  {
    if a == [] {
      assert a + b == b;
    } else {
      assert (a + b)[1..] == a[1..] + b;
      WordsBytesAppend(a[1..], b);
    }
  }

  /** The end of the stream ends the dictionary as a NUL would. */
  lemma DictionaryAtEnd(chars: seq<byte>, w: string, codecs: Codecs, acc: seq<string>)
    requires chars != [] && 0 !in chars && codecs.utf8(chars) == Some(w)
    ensures DictionaryOf(chars, codecs, acc) == Ok((acc + [w], []))
  {
    TokenOfEnd(chars);
  }

  lemma {:induction false} TokenOfEnd(chars: seq<byte>)
    requires 0 !in chars
    ensures TokenOf(chars) == (chars, [])
    decreases |chars|
  {
    if chars != [] {
      TokenOfEnd(chars[1..]);
      assert [chars[0]] + chars[1..] == chars;
    }
  }

  // ---------------------------------------------------------------------------
  // Descriptors

  /** `{'name_index': ..., 'data_desc': ...}`. */
  datatype ChildDescriptor = ChildDescriptor(nameIndex: int, desc: DataDescriptor)

  /** `read_data_descriptor(f)`. */
  method ReadDataDescriptor(f: ByteStream) returns (r: Result<DataDescriptor>)
    requires f.Valid()
    modifies f
    ensures f.Valid()
    ensures f.Matches(r, DescriptorOf(old(f.Remaining())))
  {
    var v := f.ReadInt(4);
    if v.Err? {
      return Err(v.error);
    }
    return Ok(DescriptorOfInt(v.value));
  }

  /** `read_element_descriptors(f, number)`: `number` pairs of a 16-bit name
      index and a descriptor, none when `number` is not positive; `acc` holds
      those read so far. */
  function DescriptorsOf(s: seq<byte>, number: int, acc: seq<ChildDescriptor>): (r: Result<(seq<ChildDescriptor>, seq<byte>)>)
    ensures r.Ok? ==> |r.value.1| <= |s|
    ensures r.Ok? ==> |r.value.0| == |acc| + (if number < 0 then 0 else number)
    ensures r.Err? ==> r.error == STRUCT_ERROR
    decreases number
  {
    if number <= 0 then Ok((acc, s))
    else
      match IntOf(s, 2)
      case Err(e) => Err(e)
      case Ok((nameIndex, s1)) =>
        match DescriptorOf(s1)
        case Err(e) => Err(e)
        case Ok((desc, s2)) => DescriptorsOf(s2, number - 1, acc + [ChildDescriptor(nameIndex, desc)])
  }

  /** `read_element_descriptors(f, number)`. */
  method ReadElementDescriptors(f: ByteStream, number: int) returns (r: Result<seq<ChildDescriptor>>)
    requires f.Valid()
    modifies f
    ensures f.Valid()
    ensures f.Matches(r, DescriptorsOf(old(f.Remaining()), number, []))
  {
    ghost var start := f.Remaining();
    var result := [];
    var k := 0;
    while k < number
      invariant f.Valid()
      invariant DescriptorsOf(start, number, []) == DescriptorsOf(f.Remaining(), number - k, result)
    {
      var nameIndex := f.ReadInt(2);
      if nameIndex.Err? {
        return Err(nameIndex.error);
      }
      var desc := ReadDataDescriptor(f);
      if desc.Err? {
        return Err(desc.error);
      }
      result := result + [ChildDescriptor(nameIndex.value, desc.value)];
      k := k + 1;
    }
    return Ok(result);
  }

  // ---------------------------------------------------------------------------
  // Element data

  /** `f.read(n).hex()`, for Base64 and every unknown type. */
  function HexOf(s: seq<byte>, n: int): (r: (string, seq<byte>))
    ensures |r.0| == 2 * |ReadOf(s, n).0| && r.1 == ReadOf(s, n).1
  {
    (HexBytes(ReadOf(s, n).0), ReadOf(s, n).1)
  }

  /** `read_boolean(f, length)`: one byte whatever the length; `IndexError`
      at the end of the stream. */
  function BooleanOf(s: seq<byte>): (r: Result<(bool, seq<byte>)>)
    ensures r.Ok? <==> s != []
    ensures r.Ok? ==> r.value == (s[0] == 1, s[1..])
    ensures r.Err? ==> r.error == INDEX_ERROR
  {
    if s == [] then Err(INDEX_ERROR) else Ok((s[0] == 1, s[1..]))
  }

  /** The text of one piece of data, for every type but 0; `Err` where it
      raises. The type and `length = end - offset` decide it. */
  function ValueOf(s: seq<byte>, typ: int, length: int, codecs: Codecs): (r: Result<(string, seq<byte>)>)
    requires typ != 0
    ensures r.Ok? ==> |r.value.1| <= |s|
  {
    if typ == 1 then
      var (b, rest) := ReadOf(s, length);
      Ok((codecs.utf8Replace(b), rest))
    else if typ == 2 then NumberOf(s, length)
    else if typ == 3 then
      match FloatGroupsOf(s, length / 4)
      case Ok((gs, rest)) => Ok((codecs.floatText(gs), rest))
      case Err(e) => Err(e)
    else if typ == 4 then
      match BooleanOf(s)
      case Ok((v, rest)) => Ok((if v then "true" else "false", rest))
      case Err(e) => Err(e)
    else Ok(HexOf(s, length))
  }

  /** `read_data(f, dictionary, element, offset, data_desc)`: type 0 reads a
      nested element into the same element, the others set its text. */
  function DataOf(s: seq<byte>, dict: seq<string>, el: Element, offset: int, desc: DataDescriptor, codecs: Codecs): (r: Result<(Element, seq<byte>)>)
    ensures r.Ok? ==> |r.value.1| <= |s| && r.value.0.tag == el.tag
    decreases |s|, 1, 0
  {
    if desc.typ == 0 then ElementOf(s, dict, el, codecs)
    else
      match ValueOf(s, desc.typ, desc.end - offset, codecs)
      case Ok((text, rest)) => Ok((WithText(el, text), rest))
      case Err(e) => Err(e)
  }

  /** `read_element(f, dictionary, parent)`: the child count, the element's
      own descriptor, the children's descriptors, the element's own data at
      offset 0, then each child's data from the previous end, appended in
      descriptor order. */
  function ElementOf(s: seq<byte>, dict: seq<string>, el: Element, codecs: Codecs): (r: Result<(Element, seq<byte>)>)
    ensures r.Ok? ==> |r.value.1| <= |s| && r.value.0.tag == el.tag
    decreases |s|, 0, 0
  {
    match HeadOf(s)
    case Err(e) => Err(e)
    case Ok((head, s3)) =>
      match DataOf(s3, dict, el, 0, head.self, codecs)
      case Err(e) => Err(e)
      case Ok((el1, s4)) => ChildrenOf(s4, dict, el1, head.self.end, head.descs, codecs)
  }

  /** What `read_element` reads before any data. */
  datatype Head = Head(count: int, self: DataDescriptor, descs: seq<ChildDescriptor>)

  /** The child count, the element's own descriptor and the children's
      descriptors: at least six bytes. */
  function HeadOf(s: seq<byte>): (r: Result<(Head, seq<byte>)>)
    ensures r.Ok? ==> |r.value.1| <= |s| - 6
    ensures r.Ok? ==> |r.value.0.descs| == if r.value.0.count < 0 then 0 else r.value.0.count
    ensures r.Err? ==> r.error == STRUCT_ERROR
  {
    match IntOf(s, 2)
    case Err(e) => Err(e)
    case Ok((count, s1)) =>
      match DescriptorOf(s1)
      case Err(e) => Err(e)
      case Ok((self, s2)) =>
        match DescriptorsOf(s2, count, [])
        case Err(e) => Err(e)
        case Ok((descs, s3)) => Ok((Head(count, self, descs), s3))
  }

  /** The loop over the children of `read_element`. */
  function ChildrenOf(s: seq<byte>, dict: seq<string>, parent: Element, offset: int, descs: seq<ChildDescriptor>, codecs: Codecs): (r: Result<(Element, seq<byte>)>)
    ensures r.Ok? ==> |r.value.1| <= |s| && r.value.0.tag == parent.tag
    decreases |s|, 2, |descs|
  {
    if descs == [] then Ok((parent, s))
    else
      match PyIndex(dict, descs[0].nameIndex)
      case Err(e) => Err(e)
      case Ok(name) =>
        match DataOf(s, dict, NewElement(name), offset, descs[0].desc, codecs)
        case Err(e) => Err(e)
        case Ok((child, rest)) => ChildrenOf(rest, dict, Append(parent, child), descs[0].desc.end, descs[1..], codecs)
  }

  /** `decode_packedxml(bin_data, root_name)`, up to the serialisation: the
      header integer, one skipped byte, the dictionary and the root. */
  function DecodeOf(data: seq<byte>, rootName: string, codecs: Codecs): Result<Element>
  {
    match IntOf(data, 4)
    case Err(e) => Err(e)
    case Ok((_, s1)) =>
      match DictionaryOf(ReadOf(s1, 1).1, codecs, [])
      case Err(e) => Err(e)
      case Ok((dict, s2)) =>
        match ElementOf(s2, dict, NewElement(rootName), codecs)
        case Err(e) => Err(e)
        case Ok((root, _)) => Ok(root)
  }

  // ---------------------------------------------------------------------------
  // The decoding methods

  /** `read_string(f, length)`. */
  method ReadString(f: ByteStream, length: int, codecs: Codecs) returns (r: string)
    requires f.Valid()
    modifies f
    ensures f.Valid()
    ensures Ok((r, f.Remaining())) == ValueOf(old(f.Remaining()), 1, length, codecs)
  {
    var b := f.Read(length);
    r := codecs.utf8Replace(b);
  }

  /** `read_number(f, length)`. */
  method ReadNumber(f: ByteStream, length: int) returns (r: Result<string>)
    requires f.Valid()
    modifies f
    ensures f.Valid()
    ensures f.Matches(r, NumberOf(old(f.Remaining()), length))
  {
    if length == 1 || length == 2 || length == 4 || length == 8 {
      var v := f.ReadInt(length);
      if v.Err? {
        return Err(v.error);
      }
      return Ok(Decimal(v.value));
    }
    return Ok("0");
  }

  /** `read_floats(f, length)`: `length // 4` groups of four bytes. */
  method ReadFloats(f: ByteStream, length: int) returns (r: Result<seq<seq<byte>>>)
    requires f.Valid()
    modifies f
    ensures f.Valid()
    ensures f.Matches(r, FloatGroupsOf(old(f.Remaining()), length / 4))
  {
    r := f.ReadFloats(length / 4);
  }

  /** `read_boolean(f, length)`. */
  method ReadBoolean(f: ByteStream) returns (r: Result<bool>)
    requires f.Valid()
    modifies f
    ensures f.Valid()
    ensures f.Matches(r, BooleanOf(old(f.Remaining())))
  {
    var b := f.Read(1);
    if b == [] {
      return Err(INDEX_ERROR);
    }
    return Ok(b[0] == 1);
  }

  /** The text branches of `read_data`. */
  method ReadValue(f: ByteStream, typ: int, length: int, codecs: Codecs) returns (r: Result<string>)
    requires f.Valid() && typ != 0
    modifies f
    ensures f.Valid()
    ensures f.Matches(r, ValueOf(old(f.Remaining()), typ, length, codecs))
  {
    if typ == 1 {
      var text := ReadString(f, length, codecs);
      return Ok(text);
    } else if typ == 2 {
      r := ReadNumber(f, length);
    } else if typ == 3 {
      var floats := ReadFloats(f, length);
      if floats.Err? {
        return Err(floats.error);
      }
      return Ok(codecs.floatText(floats.value));
    } else if typ == 4 {
      var v := ReadBoolean(f);
      if v.Err? {
        return Err(v.error);
      }
      return Ok(if v.value then "true" else "false");
    } else {
      var b := f.Read(length);
      return Ok(HexBytes(b));
    }
  }

  /** `read_data(f, dictionary, element, offset, data_desc)`; `next` is the
      offset it returns, the descriptor's end. */
  method ReadData(f: ByteStream, dict: seq<string>, el: Element, offset: int, desc: DataDescriptor, codecs: Codecs)
    returns (r: Result<Element>, next: int)
    requires f.Valid()
    modifies f
    ensures f.Valid() && next == desc.end
    ensures f.Matches(r, DataOf(old(f.Remaining()), dict, el, offset, desc, codecs))
    decreases |f.data| - f.pos, 2
  {
    next := desc.end;
    if desc.typ == 0 {
      r := ReadElement(f, dict, el, codecs);
    } else {
      var text := ReadValue(f, desc.typ, desc.end - offset, codecs);
      if text.Err? {
        return Err(text.error), next;
      }
      r := Ok(WithText(el, text.value));
    }
  }

  /** `read_element(f, dictionary, parent)`. */
  method ReadElement(f: ByteStream, dict: seq<string>, parent: Element, codecs: Codecs) returns (r: Result<Element>)
    requires f.Valid()
    modifies f
    ensures f.Valid()
    ensures f.Matches(r, ElementOf(old(f.Remaining()), dict, parent, codecs))
    decreases |f.data| - f.pos, 1
  {
    ghost var pos0 := f.pos;
    var head := ReadHead(f);
    if head.Err? {
      return Err(head.error);
    }
    var el, offset := ReadData(f, dict, parent, 0, head.value.self, codecs);
    if el.Err? {
      return Err(el.error);
    }
    r := ReadChildren(f, dict, el.value, offset, head.value.descs, codecs, pos0);
  }

  /** The reads of `read_element` before its data. */
  method ReadHead(f: ByteStream) returns (r: Result<Head>)
    requires f.Valid()
    modifies f
    ensures f.Valid()
    ensures f.Matches(r, HeadOf(old(f.Remaining())))
    ensures r.Ok? ==> f.pos >= old(f.pos) + 6
  {
    var count := f.ReadInt(2);
    if count.Err? {
      return Err(count.error);
    }
    var self := ReadDataDescriptor(f);
    if self.Err? {
      return Err(self.error);
    }
    var children := ReadElementDescriptors(f, count.value);
    if children.Err? {
      return Err(children.error);
    }
    return Ok(Head(count.value, self.value, children.value));
  }

  /** The loop over the children of `read_element`. */
  method ReadChildren(f: ByteStream, dict: seq<string>, parent: Element, offset: int, descs: seq<ChildDescriptor>, codecs: Codecs, ghost pos0: nat)
    returns (r: Result<Element>)
    requires f.Valid() && f.pos >= pos0 + 6
    modifies f
    ensures f.Valid()
    ensures f.Matches(r, ChildrenOf(old(f.Remaining()), dict, parent, offset, descs, codecs))
    decreases |f.data| - pos0, 0
  {
    ghost var start := f.Remaining();
    var element := parent;
    var off := offset;
    var k := 0;
    while k < |descs|
      invariant f.Valid() && f.pos >= pos0 + 6 && k <= |descs|
      invariant ChildrenOf(start, dict, parent, offset, descs, codecs)
             == ChildrenOf(f.Remaining(), dict, element, off, descs[k..], codecs)
    {
      assert descs[k..][0] == descs[k] && descs[k..][1..] == descs[k + 1..];
      var name := PyIndex(dict, descs[k].nameIndex);
      if name.Err? {
        return Err(name.error);
      }
      var child, next := ReadData(f, dict, NewElement(name.value), off, descs[k].desc, codecs);
      if child.Err? {
        return Err(child.error);
      }
      element := Append(element, child.value);
      off := next;
      k := k + 1;
    }
    return Ok(element);
  }

  /** `decode_packedxml(bin_data, root_name)`, returning the tree that is
      then serialised. */
  method DecodePackedXml(binData: seq<byte>, rootName: string, codecs: Codecs) returns (r: Result<Element>)
    ensures r == DecodeOf(binData, rootName, codecs)
  {
    var f := new ByteStream(binData);
    var header := f.ReadInt(4);
    if header.Err? {
      return Err(header.error);
    }
    var _ := f.Read(1);
    var dictionary := ReadDictionary(f, codecs);
    if dictionary.Err? {
      return Err(dictionary.error);
    }
    var root := NewElement(rootName);
    var tree := ReadElement(f, dictionary.value, root, codecs);
    if tree.Err? {
      return Err(tree.error);
    }
    return Ok(tree.value);
  }

  // ---------------------------------------------------------------------------
  // Properties

  /** The header integer is read but never checked: only the bytes after it
      decide the result. */
  lemma HeaderIgnored(h1: seq<byte>, h2: seq<byte>, rest: seq<byte>, rootName: string, codecs: Codecs)
    requires |h1| == 4 && |h2| == 4
    ensures DecodeOf(h1 + rest, rootName, codecs) == DecodeOf(h2 + rest, rootName, codecs)
  {
    assert (h1 + rest)[4..] == rest == (h2 + rest)[4..];
  }

  /** A Boolean is one byte, whatever the descriptor's length: `true`
      exactly when it is 1; at the end of the stream it raises `IndexError`. */
  lemma BooleanOneByte(s: seq<byte>, dict: seq<string>, el: Element, offset: int, end: int, codecs: Codecs)
    ensures var r := DataOf(s, dict, el, offset, DataDescriptor(end, 4), codecs);
      if s == [] then r == Err(INDEX_ERROR)
      else r == Ok((WithText(el, if s[0] == 1 then "true" else "false"), s[1..]))
  {
  }

  /** Type 5 and every unknown type, negative ones included, read
      `end - offset` bytes as hex. */
  lemma UnknownTypesAsHex(s: seq<byte>, dict: seq<string>, el: Element, offset: int, desc: DataDescriptor, codecs: Codecs)
    requires desc.typ < 0 || desc.typ >= 5
    ensures DataOf(s, dict, el, offset, desc, codecs)
         == DataOf(s, dict, el, offset, DataDescriptor(desc.end, 5), codecs)
    ensures var (hex, rest) := HexOf(s, desc.end - offset);
      DataOf(s, dict, el, offset, desc, codecs) == Ok((WithText(el, hex), rest))
  {
  }

  /** A string takes `end - offset` bytes, decoded with replacement; a
      negative length takes all the rest. */
  lemma StringLength(s: seq<byte>, dict: seq<string>, el: Element, offset: int, end: int, codecs: Codecs)
    ensures var n := end - offset;
      var r := DataOf(s, dict, el, offset, DataDescriptor(end, 1), codecs);
      && r.Ok?
      && (n < 0 || n >= |s| ==> r.value == (WithText(el, codecs.utf8Replace(s)), []))
      && (0 <= n < |s| ==> r.value == (WithText(el, codecs.utf8Replace(s[..n])), s[n..]))
  {
  }

  /** A non-positive child count reads no child descriptors: the element is
      its own data alone. */
  lemma NoChildren(s: seq<byte>, dict: seq<string>, el: Element, codecs: Codecs, count: int, s1: seq<byte>, self: DataDescriptor, s2: seq<byte>)
    requires IntOf(s, 2) == Ok((count, s1)) && count <= 0
    requires DescriptorOf(s1) == Ok((self, s2))
    ensures ElementOf(s, dict, el, codecs) == DataOf(s2, dict, el, 0, self, codecs)
  {
    assert HeadOf(s) == Ok((Head(count, self, []), s2));
    match DataOf(s2, dict, el, 0, self, codecs)
    case Ok((el1, s4)) =>
      assert ChildrenOf(s4, dict, el1, self.end, [], codecs) == Ok((el1, s4));
    case Err(_) =>
  }

  /** The children keep the parent's own children first, then one child per
      descriptor, in descriptor order, each tagged with the dictionary entry
      its name index selects (Python indexing, negative from the end). */
  lemma {:induction false} ChildrenInOrder(s: seq<byte>, dict: seq<string>, parent: Element, offset: int, descs: seq<ChildDescriptor>, codecs: Codecs)
    ensures var r := ChildrenOf(s, dict, parent, offset, descs, codecs);
      r.Ok? ==>
        && r.value.0.text == parent.text
        && |r.value.0.children| == |parent.children| + |descs|
        && r.value.0.children[..|parent.children|] == parent.children
        && forall k :: 0 <= k < |descs| ==>
             && PyIndex(dict, descs[k].nameIndex).Ok?
             && r.value.0.children[|parent.children| + k].tag == PyIndex(dict, descs[k].nameIndex).value
    decreases |descs|
  {
    var r := ChildrenOf(s, dict, parent, offset, descs, codecs);
    if descs != [] && r.Ok? {
      var name := PyIndex(dict, descs[0].nameIndex).value;
      var (child, rest) := DataOf(s, dict, NewElement(name), offset, descs[0].desc, codecs).value;
      var p1 := Append(parent, child);
      ChildrenInOrder(rest, dict, p1, descs[0].desc.end, descs[1..], codecs);
      assert r == ChildrenOf(rest, dict, p1, descs[0].desc.end, descs[1..], codecs);
      var cs := r.value.0.children;
      assert cs[..|parent.children| + 1] == p1.children;
      assert cs[..|parent.children|] == parent.children by {
        assert cs[..|parent.children|] == p1.children[..|parent.children|];
      }
      forall k | 0 <= k < |descs|
        ensures PyIndex(dict, descs[k].nameIndex).Ok?
        ensures cs[|parent.children| + k].tag == PyIndex(dict, descs[k].nameIndex).value
      {
        if k == 0 {
          assert cs[|parent.children|] == p1.children[|parent.children|] == child;
        } else {
          assert descs[k] == descs[1..][k - 1];
          assert |parent.children| + k == |p1.children| + (k - 1);
        }
      }
    }
  }
}
