/** `Hashtools/wdf_parser.py`: the index reader with 16-byte records and the
    loose magic test, and the text export of its entries. */
module WdfParser {

  import opened Options
  import opened Bytes
  import opened PyText
  import opened Numerals
  import opened WdfIndex
  import opened Seqs

  const RECORD_16: nat := 16

  /** The two `ValueError`s of `parse_wdf_index`. */
  const SHORT_HEADER: string := "ValueError: header shorter than 12 bytes"
  const NOT_WDF: string := "ValueError: not a WDF file"

  // ---------------------------------------------------------------------------
  // parse_wdf_index

  /** `f.read(16)` at position `pos`: short at the end, empty past it. */
  function Read16(data: seq<byte>, pos: nat): (r: seq<byte>)
    ensures |r| <= RECORD_16
  {
    Slice(data, pos, pos + RECORD_16)
  }

  /** The number of complete 16-byte records from `offset` to the end. */
  function FullRecords(data: seq<byte>, offset: nat): nat
  {
    if offset >= |data| then 0 else (|data| - offset) / RECORD_16
  }

  /** Record `k` is complete exactly when it is among the complete ones. */
  lemma Read16Full(data: seq<byte>, offset: nat, k: nat)
    ensures |Read16(data, offset + RECORD_16 * k)| == RECORD_16 <==> k < FullRecords(data, offset)
  {
    var pos := offset + RECORD_16 * k;
    if k < FullRecords(data, offset) {
      assert RECORD_16 * k + RECORD_16 <= |data| - offset;
    } else if offset < |data| {
      assert RECORD_16 * k + RECORD_16 > |data| - offset;
    }
  }

  /** The number of entries read: the declared count, cut at the first short read. */
  function EntriesRead(data: seq<byte>, offset: nat, count: nat): (n: nat)
    ensures n <= count && n <= FullRecords(data, offset)
    ensures n == count || n == FullRecords(data, offset)
  {
    if count <= FullRecords(data, offset) then count else FullRecords(data, offset)
  }

  /** The first `n` records from `offset`, decoded in file order. */
  function Entries16(data: seq<byte>, offset: nat, n: nat): (es: seq<Entry>)
    requires n <= FullRecords(data, offset)
    ensures |es| == n
  {
    seq(n, k requires 0 <= k < n =>
      Read16Full(data, offset, k);
      DecodeRecord(Read16(data, offset + RECORD_16 * k), false))
  }

  lemma Entries16Next(data: seq<byte>, offset: nat, k: nat)
    requires k < FullRecords(data, offset)
    ensures |Read16(data, offset + RECORD_16 * k)| == RECORD_16
    ensures Entries16(data, offset, k + 1) ==
      Entries16(data, offset, k) + [DecodeRecord(Read16(data, offset + RECORD_16 * k), false)]
  {
    Read16Full(data, offset, k);
    assert Entries16(data, offset, k + 1)[..k] == Entries16(data, offset, k);
  }

  /** The entries of an archive whose header was accepted. */
  function IndexEntries(data: seq<byte>): (es: seq<Entry>)
    requires |data| >= HEADER_SIZE
  {
    var h := ReadHeader(data, false).value;
    Entries16(data, h.indexOffset, EntriesRead(data, h.indexOffset, h.count))
  }

  /** `parse_wdf_index` on the file's bytes. */
  method ParseWdfIndex(data: seq<byte>) returns (r: Result<seq<Entry>>)
    ensures r.Err? <==> |data| < HEADER_SIZE || !LooseMagic(data[..4])
    ensures r.Err? ==> r.error == if |data| < HEADER_SIZE then SHORT_HEADER else NOT_WDF
    ensures r.Ok? ==> r.value == IndexEntries(data)
  {
    var header := ReadHeader(data, false);
    if header.None? {
      return Err(SHORT_HEADER);
    }
    var h := header.value;
    if !LooseMagic(h.magic) {
      return Err(NOT_WDF);
    }
    var entries := ReadEntries16(data, h.indexOffset, h.count);
    return Ok(entries);
  }

  /** The record loop of `parse_wdf_index`: up to `count` records from
      `offset`, stopping at the first one cut short. */
  method ReadEntries16(data: seq<byte>, offset: nat, count: nat) returns (entries: seq<Entry>)
    ensures entries == Entries16(data, offset, EntriesRead(data, offset, count))
  {
    var n := EntriesRead(data, offset, count);
    entries := [];
    var pos := offset;
    var k := 0;
    while k < count
      invariant 0 <= k <= n
      invariant pos == offset + RECORD_16 * k
      invariant entries == Entries16(data, offset, k)
    {
      var entry := Read16(data, pos);
      Read16Full(data, offset, k);
      if |entry| < RECORD_16 {
        break;
      }
      Entries16Next(data, offset, k);
      entries := entries + [DecodeRecord(entry, false)];
      pos := pos + RECORD_16;
      k := k + 1;
    }
  }

  /** Entry `k` holds the four little-endian u32 fields of record `k`, the
      one at `index_offset + 16 * k`. */
  lemma IndexEntryFields(data: seq<byte>, k: nat)
    requires |data| >= HEADER_SIZE
    requires k < |IndexEntries(data)|
    ensures var pos := U32At(data, 8) + RECORD_16 * k;
      && pos + RECORD_16 <= |data|
      && IndexEntries(data)[k].uid == U32At(data, pos)
      && IndexEntries(data)[k].offset == U32At(data, pos + 4)
      && IndexEntries(data)[k].size == U32At(data, pos + 8)
      && IndexEntries(data)[k].space == U32At(data, pos + 12)
  {
    var offset := U32At(data, 8);
    var pos := offset + RECORD_16 * k;
    Read16Full(data, offset, k);
    var rec := Read16(data, pos);
    assert rec == data[pos..pos + RECORD_16];
    assert IndexEntries(data)[k] == DecodeRecord(rec, false);
    U32AtSlice(data, pos, RECORD_16, 0);
    U32AtSlice(data, pos, RECORD_16, 4);
    U32AtSlice(data, pos, RECORD_16, 8);
    U32AtSlice(data, pos, RECORD_16, 12);
  }

  /** The count is read unsigned and bounds the number of entries; fewer come
      back exactly when the index runs out of complete records first. */
  lemma IndexEntriesCount(data: seq<byte>)
    requires |data| >= HEADER_SIZE
    ensures |IndexEntries(data)| <= U32At(data, 4)
    ensures |IndexEntries(data)| < U32At(data, 4) <==> FullRecords(data, U32At(data, 8)) < U32At(data, 4)
  {
  }

  // ---------------------------------------------------------------------------
  // export_index_to_txt

  /** One exported line without its `\n`: `0x%08X,offset,size,space`. */
  function IndexLine(e: Entry): string
  {
    "0x" + HexPadded(e.uid, 8) + "," + Decimal(e.offset) + "," + Decimal(e.size) + "," + Decimal(e.space)
  }

  /** The lines of the entries, in order. */
  function IndexLines(es: seq<Entry>): (lines: seq<string>)
    ensures |lines| == |es|
  {
    seq(|es|, k requires 0 <= k < |es| => IndexLine(es[k]))
  }

  /** Text made of the given lines, each followed by `\n`. */
  function Joined(lines: seq<string>): string
    decreases |lines|
  {
    if lines == [] then [] else lines[0] + "\n" + Joined(lines[1..])
  }

  lemma {:induction false} JoinedAppend(lines: seq<string>, t: string)
    ensures Joined(lines + [t]) == Joined(lines) + t + "\n"
    decreases |lines|
  {
    if lines == [] {
      assert [t][1..] == [];
    } else {
      assert (lines + [t])[1..] == lines[1..] + [t];
      JoinedAppend(lines[1..], t);
    }
  }

  /** The text `export_index_to_txt` writes. */
  function IndexText(es: seq<Entry>): string
  {
    Joined(IndexLines(es))
  }

  /** `export_index_to_txt` with the file as a growing text. */
  method ExportIndexText(es: seq<Entry>) returns (out: string)
    ensures out == IndexText(es)
  {
    ghost var lines := IndexLines(es);
    out := [];
    var k := 0;
    while k < |es|
      invariant 0 <= k <= |es|
      invariant out == Joined(lines[..k])
    {
      var line := IndexLine(es[k]);
      assert line == lines[k];
      JoinedAppend(lines[..k], line);
      TakeNext(lines, k);
      out := out + line + "\n";
      k := k + 1;
    }
    assert lines[..k] == lines;
  }

  /** The entry (1, 12, 4, 0) is written as `0x00000001,12,4,0`. */
  lemma IndexTextExample()
    ensures IndexText([Entry(1, 12, 4, 0, None)]) == "0x00000001,12,4,0\n"
  {
    HexPaddedDigit(1, 8);
    assert HexPadded(1, 8) == "00000001";
    assert Decimal(12) == "12";
    assert Decimal(4) == "4" && Decimal(0) == "0";
    var e := Entry(1, 12, 4, 0, None);
    assert IndexLine(e) == "0x" + "00000001" + "," + "12" + "," + "4" + "," + "0";
    var lines := IndexLines([e]);
    assert lines[0] == IndexLine(e);
    assert lines == [IndexLine(e)];
    assert Joined(lines) == lines[0] + "\n" + Joined(lines[1..]);
    assert lines[1..] == [];
  }

  lemma DecimalNoBreak(n: int)
    ensures forall c :: c in Decimal(n) ==> !IsLineBreak(c) && c != ','
  {
    var m: nat := if n < 0 then -n else n;
    assert forall c :: c in DecimalDigits(m) ==> '0' <= c <= '9';
  }

  lemma IndexLineNoBreak(e: Entry)
    ensures forall c :: c in IndexLine(e) ==> !IsLineBreak(c)
  {
    var hex := HexPadded(e.uid, 8);
    assert forall c :: c in hex ==> DigitValue(c, 16).Some?;
    DecimalNoBreak(e.offset);
    DecimalNoBreak(e.size);
    DecimalNoBreak(e.space);
  }

  /** A line without line breaks, then `\n`, splits off as one line. */
  lemma SplitLinesCons(t: string, rest: string)
    requires forall c :: c in t ==> !IsLineBreak(c)
    ensures SplitLines(t + "\n" + rest) == [t] + SplitLines(rest)
  {
    var s := t + "\n" + rest;
    var k := LineEnd(s);
    assert s[|t|] == '\n';
    forall i | 0 <= i < |t| ensures !IsLineBreak(s[i]) {
      assert s[i] == t[i] && t[i] in t;
    }
    assert k == |t|;
    assert s[..k] == t && s[k + 1..] == rest;
  }

  /** Joined lines without breaks split back into the same lines. */
  lemma {:induction false} SplitLinesJoined(lines: seq<string>)
    requires forall k :: 0 <= k < |lines| ==> forall c :: c in lines[k] ==> !IsLineBreak(c)
    ensures SplitLines(Joined(lines)) == lines
    decreases |lines|
  {
    if lines != [] {
      SplitLinesCons(lines[0], Joined(lines[1..]));
      SplitLinesJoined(lines[1..]);
    }
  }

  /** Reading the export back with `splitlines()` gives one line per entry, in order. */
  lemma OneLinePerEntry(es: seq<Entry>)
    ensures SplitLines(IndexText(es)) == IndexLines(es)
  {
    forall k | 0 <= k < |es| ensures forall c :: c in IndexLines(es)[k] ==> !IsLineBreak(c) {
      IndexLineNoBreak(es[k]);
    }
    SplitLinesJoined(IndexLines(es));
  }

  /** Four comma-free fields joined by commas split back into themselves. */
  lemma FourFields(a: string, b: string, c: string, d: string)
    requires ',' !in a && ',' !in b && ',' !in c && ',' !in d
    ensures var f := Split(a + "," + b + "," + c + "," + d, ',');
      |f| == 4 && f[0] == a && f[1] == b && f[2] == c && f[3] == d
  {
    JoinFour(a, b, c, d);
    SplitCons(a, ',', b + [','] + (c + [','] + d));
    ThreeFields(b, c, d);
  }

  /** Three comma-free fields, comma-separated, split back into themselves. */
  lemma ThreeFields(b: string, c: string, d: string)
    requires ',' !in b && ',' !in c && ',' !in d
    ensures Split(b + [','] + (c + [','] + d), ',') == [b, c, d]
  {
    SplitCons(b, ',', c + [','] + d);
    SplitCons(c, ',', d);
  }

  lemma JoinFour(a: string, b: string, c: string, d: string)
    ensures a + "," + b + "," + c + "," + d == a + [','] + (b + [','] + (c + [','] + d))
  {
    var x := a + "," + b + "," + c + "," + d;
    var y := a + [','] + (b + [','] + (c + [','] + d));
    assert |x| == |y|;
    forall i | 0 <= i < |x| ensures x[i] == y[i] {
    }
  }

  /** The hexadecimal field holds no comma. */
  lemma HexFieldNoComma(uid: nat)
    ensures ',' !in "0x" + HexPadded(uid, 8)
  {
    var hex := "0x" + HexPadded(uid, 8);
    forall i | 0 <= i < |hex| ensures hex[i] != ',' {
      if i >= 2 {
        assert hex[i] == HexPadded(uid, 8)[i - 2];
        assert DigitValue(hex[i], 16).Some?;
      }
    }
  }

  /** Every line splits at its commas into the four fields, which parse back
      to the entry's values. */
  lemma IndexLineFields(e: Entry)
    ensures var fields := Split(IndexLine(e), ',');
      && |fields| == 4
      && ParseHexInt(fields[0]) == Some(e.uid as int)
      && ParseInt(fields[1]) == Some(e.offset as int)
      && ParseInt(fields[2]) == Some(e.size as int)
      && ParseInt(fields[3]) == Some(e.space as int)
  {
    HexFieldNoComma(e.uid);
    DecimalNoBreak(e.offset);
    DecimalNoBreak(e.size);
    DecimalNoBreak(e.space);
    FourFields("0x" + HexPadded(e.uid, 8), Decimal(e.offset), Decimal(e.size), Decimal(e.space));
    HexPaddedRoundTrip(e.uid, 8);
    DecimalRoundTrip(e.offset);
    DecimalRoundTrip(e.size);
    DecimalRoundTrip(e.space);
  }
}
