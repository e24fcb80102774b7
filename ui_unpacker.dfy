/** `ui_unpacker.py`: the name listing of `UnpackerUI.parse_wdf` and the
    table and extraction part of `wdf_unpack_python`.  Its `string_adjust`
    and `wdf_string_id` have the same text as those of `core_unipacker.py`
    and are the ones in `CoreUnipacker`. */
module UiUnpacker {

  import opened Options
  import opened Bytes
  import opened WdfIndex
  import opened CoreUnipacker

  // ---------------------------------------------------------------------------
  // parse_wdf

  /** The number of records whose uid field `entry[:4]` is complete. */
  function UidRecords(index: seq<byte>): nat
  {
    (|index| + 28) / RECORD_32
  }

  /** Record `i` has its 4 uid bytes exactly when it is among the first `UidRecords(index)`. */
  lemma UidRecordsExact(index: seq<byte>, i: nat)
    ensures |Record32(index, i)| >= 4 <==> i < UidRecords(index)
  {
    if i < UidRecords(index) {
      assert RECORD_32 * i + 4 <= |index|;
    } else {
      assert RECORD_32 * i + 4 > |index|;
    }
  }

  /** The decoded name of record `i`; `decode` is
      `.decode('utf-8', errors='ignore')`, which never raises. */
  function RecordName(index: seq<byte>, i: nat, decode: seq<byte> -> string): string
  {
    decode(NameField(Record32(index, i)))
  }

  /** The decoded names of the first `n` records. */
  function RecordNames(index: seq<byte>, n: nat, decode: seq<byte> -> string): (names: seq<string>)
    ensures |names| == n
  {
    seq(n, i requires 0 <= i < n => RecordName(index, i, decode))
  }

  /** The names `if name:` keeps, in order. */
  function NonEmpty(names: seq<string>): (kept: seq<string>)
    ensures |kept| <= |names|
    ensures forall k :: 0 <= k < |kept| ==> kept[k] != [] && kept[k] in names
    decreases |names|
  {
    if names == [] then []
    else
      var init := names[..|names| - 1];
      var last := names[|names| - 1];
      assert forall k :: 0 <= k < |init| ==> init[k] in names;
      NonEmpty(init) + (if last == [] then [] else [last])
  }

  /** Nothing is dropped when no name is empty. */
  lemma {:induction false} NonEmptyKeepsAll(names: seq<string>)
    requires forall k :: 0 <= k < |names| ==> names[k] != []
    ensures NonEmpty(names) == names
    decreases |names|
  {
    if names != [] {
      NonEmptyKeepsAll(names[..|names| - 1]);
    }
  }

  /** The names collected from the first `n` records. */
  function CollectedNames(index: seq<byte>, n: nat, decode: seq<byte> -> string): seq<string>
  {
    NonEmpty(RecordNames(index, n, decode))
  }

  lemma CollectedNamesNext(index: seq<byte>, n: nat, decode: seq<byte> -> string)
    ensures var name := RecordName(index, n, decode);
      CollectedNames(index, n + 1, decode) ==
      CollectedNames(index, n, decode) + (if name == [] then [] else [name])
  {
    assert RecordNames(index, n + 1, decode)[..n] == RecordNames(index, n, decode);
  }

  /** `range(file_count)` cut where `struct.unpack` first raises. */
  function NamesRead(index: seq<byte>, count: int): nat
  {
    if Clamp(count) <= UidRecords(index) then Clamp(count) else UidRecords(index)
  }

  /** What the log shows at the end of `parse_wdf`. */
  datatype ParseLog =
    | NotWdfFile      // short header or a magic other than WDFP / PFDW
    | ParseFailed     // the exception branch: a record shorter than 4 bytes
    | Listed          // every record was read

  /** The state of `UnpackerUI` that `parse_wdf` writes. */
  class UnpackerUI {

    var parsedNames: seq<string>

    constructor ()
      ensures parsedNames == []
    {
      parsedNames := [];
    }

    /** `parse_wdf`: the list is emptied first; names gathered before an
        exception are kept. */
    method ParseWdf(archive: seq<byte>, decode: seq<byte> -> string) returns (log: ParseLog)
      modifies this
      ensures log.NotWdfFile? <==>
        ReadHeader(archive, true).None? || !ParseWdfMagic(ReadHeader(archive, true).value.magic)
      ensures log.NotWdfFile? ==> parsedNames == []
      ensures !log.NotWdfFile? ==>
        var h := ReadHeader(archive, true).value;
        var index := CoreIndex(archive, h);
        && parsedNames == CollectedNames(index, NamesRead(index, h.count), decode)
        && (log.ParseFailed? <==> UidRecords(index) < Clamp(h.count))
    {
      parsedNames := [];
      var header := ReadHeader(archive, true);
      if header.None? || !ParseWdfMagic(header.value.magic) {
        return NotWdfFile;
      }
      var h := header.value;
      var index := IndexBytes(archive, h.indexOffset, h.count * RECORD_32);
      var names, failed := ReadNames(index, h.count, decode);
      parsedNames := names;
      log := if failed then ParseFailed else Listed;
    }
  }

  /** The record loop of `parse_wdf`: the names collected until the records
      run out or `struct.unpack` raises on a record without its uid. */
  method ReadNames(index: seq<byte>, count: int, decode: seq<byte> -> string) returns (names: seq<string>, failed: bool)
    ensures names == CollectedNames(index, NamesRead(index, count), decode)
    ensures failed <==> UidRecords(index) < Clamp(count)
  {
    names := [];
    failed := false;
    var i := 0;
    while i < count && !failed
      invariant 0 <= i <= NamesRead(index, count)
      invariant names == CollectedNames(index, i, decode)
      invariant failed ==> i == UidRecords(index) && i < count
      decreases count - i, if failed then 0 else 1
    {
      var entry := Record32(index, i);
      UidRecordsExact(index, i);
      if |entry| < 4 {
        NamesReadShort(index, count);
        failed := true;
      } else {
        var name := decode(NameField(entry));
        CollectedNamesNext(index, i, decode);
        if name != [] {
          names := names + [name];
        }
        i := i + 1;
      }
    }
    NamesReadShort(index, count);
    assert i == NamesRead(index, count);
  }

  /** The loop stops short of `file_count` exactly when a record lacks its uid. */
  lemma NamesReadShort(index: seq<byte>, count: int)
    ensures NamesRead(index, count) <= Clamp(count) && NamesRead(index, count) <= UidRecords(index)
    ensures NamesRead(index, count) < Clamp(count) <==> UidRecords(index) < Clamp(count)
    ensures NamesRead(index, count) == Clamp(count) || NamesRead(index, count) == UidRecords(index)
  {
  }

  // ---------------------------------------------------------------------------
  // wdf_unpack_python

  /** `wdf_unpack_python` on an archive and the list lines as given: they are
      neither stripped nor filtered, and records keep their name field. */
  method WdfUnpackPython(archive: seq<byte>, lines: seq<string>) returns (r: UnpackResult)
    ensures r.NotWdf? <==> ReadHeader(archive, true).None? || !PythonMagic(ReadHeader(archive, true).value.magic)
    ensures !r.NotWdf? ==>
      var h := ReadHeader(archive, true).value;
      var index := CoreIndex(archive, h);
      && (r.Failed? <==> !TableFits(index, Clamp(h.count)))
      && (r.Failed? ==> r.error == STRUCT_ERROR)
      && (r.Unpacked? ==>
            r.outcomes == ExtractAll(archive, UidMap(Table32(index, Clamp(h.count), true)), lines))
  {
    var header := ReadHeader(archive, true);
    if header.None? || !PythonMagic(header.value.magic) {
      return NotWdf;
    }
    var h := header.value;
    var index := IndexBytes(archive, h.indexOffset, h.count * RECORD_32);
    var table := ReadTable32(index, h.count, true);
    if table.Err? {
      return Failed(table.error);
    }
    var uidMap := UidMap(table.value);
    var outcomes := ExtractListed(archive, uidMap, lines);
    return Unpacked(outcomes);
  }

  /** Two tables that agree on every uid, offset and size give uid maps with
      the same keys and the same offsets and sizes. */
  lemma UidMapsAlike(t1: seq<Entry>, t2: seq<Entry>)
    requires |t1| == |t2|
    requires forall k :: 0 <= k < |t1| ==>
      t1[k].uid == t2[k].uid && t1[k].offset == t2[k].offset && t1[k].size == t2[k].size
    ensures UidMap(t1).Keys == UidMap(t2).Keys
    ensures forall u :: u in UidMap(t1) ==>
      UidMap(t1)[u].offset == UidMap(t2)[u].offset && UidMap(t1)[u].size == UidMap(t2)[u].size
  {
    UidMapOnlyUids(t1);
    UidMapOnlyUids(t2);
    UidMapLastWins(t1);
    UidMapLastWins(t2);
    assert forall u, k :: LastWithUid(t1, u, k) <==> LastWithUid(t2, u, k);
  }

  /** Maps that agree on keys, offsets and sizes extract the same bytes. */
  lemma {:induction false} ExtractAllAlike(archive: seq<byte>, m1: map<nat, Entry>, m2: map<nat, Entry>, paths: seq<string>)
    requires m1.Keys == m2.Keys
    requires forall u :: u in m1 ==> m1[u].offset == m2[u].offset && m1[u].size == m2[u].size
    ensures ExtractAll(archive, m1, paths) == ExtractAll(archive, m2, paths)
    decreases |paths|
  {
    if paths != [] {
      ExtractAllAlike(archive, m1, m2, paths[..|paths| - 1]);
      ExtractionAlike(archive, m1, m2, paths[|paths| - 1]);
    }
  }

  lemma ExtractionAlike(archive: seq<byte>, m1: map<nat, Entry>, m2: map<nat, Entry>, path: string)
    requires m1.Keys == m2.Keys
    requires forall u :: u in m1 ==> m1[u].offset == m2[u].offset && m1[u].size == m2[u].size
    ensures ExtractionOf(archive, m1, path) == ExtractionOf(archive, m2, path)
  {
  }

  /** On the same archive and the same (already stripped, non-empty) paths,
      `wdf_unpack_python` and `wdf_unpack` extract the same bytes: the name
      field the former keeps plays no part in a lookup. */
  lemma SameExtractions(index: seq<byte>, n: nat, archive: seq<byte>, paths: seq<string>)
    requires TableFits(index, n)
    ensures ExtractAll(archive, UidMap(Table32(index, n, true)), paths) ==
            ExtractAll(archive, UidMap(Table32(index, n, false)), paths)
  {
    UidMapsAlike(Table32(index, n, true), Table32(index, n, false));
    ExtractAllAlike(archive, UidMap(Table32(index, n, true)), UidMap(Table32(index, n, false)), paths);
  }
}
