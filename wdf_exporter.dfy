/** `Hashtools/wdf_exporter.py`: the copy loop of `export_matched_files` and
    the uid matching of `export_by_samples` and `export_by_lst`.  The archive
    is a byte sequence and every output file the sequence of its writes. */
module WdfExporter {

  import opened Options
  import opened Bytes
  import opened PyText
  import opened Seqs
  import opened WdfIndex
  import opened WdfParser
  import opened HashAlgorithms

  const BUFFER_SIZE: nat := 1024
  const BMP_FILE_HEADER: nat := 14   // '<HIHHI'
  const BMP_INFO_HEADER: nat := 40   // '<IIIHHIIIIII'
  const TGA_HEADER: nat := 18        // '<BBBHHBHHHHBB'

  /** `(path, uid, offset, size)`. */
  datatype MatchedItem = MatchedItem(path: string, uid: int, offset: Option<nat>, size: Option<int>)

  /** An output file: its path below the output directory and its bytes. */
  datatype OutputFile = OutputFile(path: string, data: seq<byte>)

  // ---------------------------------------------------------------------------
  // Extensions

  predicate IsPathSep(c: char)
  {
    c == '/' || c == '\\'
  }

  /** The index of the last `/` or `\`, or -1. */
  function LastSep(p: string): (i: int)
    ensures -1 <= i < |p|
    ensures i >= 0 ==> IsPathSep(p[i])
    ensures forall j :: i < j < |p| ==> !IsPathSep(p[j])
  {
    if p == [] then -1
    else if IsPathSep(p[|p| - 1]) then |p| - 1
    else LastSep(p[..|p| - 1])
  }

  /** The index of the last `.`, or -1. */
  function LastDot(p: string): (i: int)
    ensures -1 <= i < |p|
    ensures i >= 0 ==> p[i] == '.'
    ensures forall j :: i < j < |p| ==> p[j] != '.'
  {
    if p == [] then -1
    else if p[|p| - 1] == '.' then |p| - 1
    else LastDot(p[..|p| - 1])
  }

  /** `os.path.splitext(path)[1]` with Windows separators: from the last dot
      of the last component on, unless that component is only leading dots. */
  function Extension(p: string): (ext: string)
    ensures ext == [] || (ext[0] == '.' && EndsWith(p, ext))
  {
    var sep := LastSep(p);
    var dot := LastDot(p);
    if dot <= sep then []
    else if forall i :: sep < i < dot ==> p[i] == '.' then []
    else p[dot..]
  }

  /** Which headers `export_matched_files` reads before the chunks. */
  datatype HeaderKind = BitmapHeaders | TargaHeader | NoHeader

  /** A `.bmp` of at least 54 bytes or a `.tga` of at least 18, the extension
      compared case-insensitively. */
  function HeaderKindOf(path: string, size: int): HeaderKind
  {
    var ext := Lower(Extension(path));
    if ext == ".bmp" && size >= BMP_FILE_HEADER + BMP_INFO_HEADER then BitmapHeaders
    else if ext == ".tga" && size >= TGA_HEADER then TargaHeader
    else NoHeader
  }

  /** The number of header writes. */
  function HeaderWrites(kind: HeaderKind): nat
  {
    match kind
    case BitmapHeaders => 2
    case TargaHeader => 1
    case NoHeader => 0
  }

  /** The bytes the header reads ask for. */
  function HeaderBytes(kind: HeaderKind): nat
  {
    match kind
    case BitmapHeaders => BMP_FILE_HEADER + BMP_INFO_HEADER
    case TargaHeader => TGA_HEADER
    case NoHeader => 0
  }

  lemma HeaderBytesFit(path: string, size: int)
    requires size >= 0
    ensures HeaderBytes(HeaderKindOf(path, size)) <= size
  {
  }

  // ---------------------------------------------------------------------------
  // export_matched_files

  /** The bytes the copy of an item should produce: `size` bytes from
      `offset`, fewer at the end of the archive. */
  function ItemBytes(source: seq<byte>, offset: nat, size: int): seq<byte>
  {
    Slice(source, offset, offset + size)
  }

  /** The header reads of an item at `offset`, each written as read: a
      bitmap's 14-byte file header and then its 40-byte info header, or a
      Targa file's 18-byte header. */
  function HeaderReads(source: seq<byte>, kind: HeaderKind, offset: nat): (rs: seq<seq<byte>>)
    ensures |rs| == HeaderWrites(kind)
  {
    match kind
    case BitmapHeaders =>
      var fileHeader := Slice(source, offset, offset + BMP_FILE_HEADER);
      [fileHeader, Slice(source, offset + |fileHeader|, offset + |fileHeader| + BMP_INFO_HEADER)]
    case TargaHeader => [Slice(source, offset, offset + TGA_HEADER)]
    case NoHeader => []
  }

  /** The header reads take the first `HeaderBytes(kind)` bytes of the item. */
  lemma HeaderReadsConcat(source: seq<byte>, kind: HeaderKind, offset: nat)
    ensures Concat(HeaderReads(source, kind, offset)) == Slice(source, offset, offset + HeaderBytes(kind))
  {
    match kind
    case BitmapHeaders =>
      var fileHeader := Slice(source, offset, offset + BMP_FILE_HEADER);
      var pos := offset + |fileHeader|;
      ReadNext(source, offset, fileHeader, BMP_FILE_HEADER, pos, BMP_INFO_HEADER);
      ConcatTwo(fileHeader, Slice(source, pos, pos + BMP_INFO_HEADER));
    case TargaHeader =>
      ConcatOne(Slice(source, offset, offset + TGA_HEADER));
    case NoHeader =>
  }

  /** The writes of one item after `f.seek(offset)`: the header reads the
      extension calls for, then the chunks of the rest. */
  method CopyItem(source: seq<byte>, kind: HeaderKind, offset: nat, size: int) returns (writes: seq<seq<byte>>)
    requires size > 0 && HeaderBytes(kind) <= size
    ensures Concat(writes) == ItemBytes(source, offset, size)
    ensures |writes| >= HeaderWrites(kind)
    ensures writes[..HeaderWrites(kind)] == HeaderReads(source, kind, offset)
    ensures ChunksBounded(writes[HeaderWrites(kind)..])
  {
    var headers := CopyHeaders(source, kind, offset);
    var consumed := HeaderBytes(kind);
    HeaderReadsConcat(source, kind, offset);
    var pos := offset + |Concat(headers)|;
    var chunks := CopyChunks(source, pos, size - consumed);
    writes := headers + chunks;
    ItemParts(source, offset, size, consumed, headers, chunks);
    ItemSlots(kind, headers, chunks);
  }

  /** The header reads followed by chunks of the bytes after them make up
      the item. */
  lemma ItemParts(source: seq<byte>, offset: nat, size: int, consumed: nat, headers: seq<seq<byte>>, chunks: seq<seq<byte>>)
    requires consumed <= size
    requires Concat(headers) == Slice(source, offset, offset + consumed)
    requires Concat(chunks) == Slice(source, offset + |Concat(headers)|, offset + |Concat(headers)| + (size - consumed))
    ensures Concat(headers + chunks) == ItemBytes(source, offset, size)
  {
    var done := Slice(source, offset, offset + consumed);
    var pos := offset + |done|;
    ItemJoin(source, offset, size, consumed, pos);
    ConcatParts(headers, chunks, done, Slice(source, pos, pos + (size - consumed)), ItemBytes(source, offset, size));
  }

  /** The header reads come first among the writes and the chunks after them. */
  lemma ItemSlots(kind: HeaderKind, headers: seq<seq<byte>>, chunks: seq<seq<byte>>)
    requires |headers| == HeaderWrites(kind)
    requires ChunksBounded(chunks)
    ensures |headers + chunks| >= HeaderWrites(kind)
    ensures (headers + chunks)[..HeaderWrites(kind)] == headers
    ensures ChunksBounded((headers + chunks)[HeaderWrites(kind)..])
  {
    AppendParts(headers, chunks);
  }

  /** The header bytes and the bytes read on from where they end make up
      the item. */
  lemma ItemJoin(source: seq<byte>, offset: nat, size: int, consumed: nat, pos: nat)
    requires consumed <= size
    requires pos == offset + |Slice(source, offset, offset + consumed)|
    ensures Slice(source, offset, offset + consumed) + Slice(source, pos, pos + (size - consumed)) == ItemBytes(source, offset, size)
  {
    var done := Slice(source, offset, offset + consumed);
    ReadJoin(source, offset, done, consumed, pos, Slice(source, pos, pos + (size - consumed)), size - consumed, size);
  }

  /** The header reads, one `f.read` and one write each. */
  method CopyHeaders(source: seq<byte>, kind: HeaderKind, offset: nat) returns (headers: seq<seq<byte>>)
    ensures headers == HeaderReads(source, kind, offset)
  {
    match kind
    case BitmapHeaders =>
      var fileHeader := Slice(source, offset, offset + BMP_FILE_HEADER);
      var pos := offset + |fileHeader|;
      var infoHeader := Slice(source, pos, pos + BMP_INFO_HEADER);
      headers := [fileHeader, infoHeader];
    case TargaHeader =>
      var tgaHeader := Slice(source, offset, offset + TGA_HEADER);
      headers := [tgaHeader];
    case NoHeader =>
      headers := [];
  }

  /** Every chunk holds between 1 and 1024 bytes. */
  predicate ChunksBounded(chunks: seq<seq<byte>>)
  {
    forall k :: 0 <= k < |chunks| ==> 0 < |chunks[k]| <= BUFFER_SIZE
  }

  /** After the reads so far: `chunks` hold the first `n - remain` bytes from
      `start` and the stream is at `pos`, where they end. */
  predicate CopiedSoFar(source: seq<byte>, start: nat, n: int, chunks: seq<seq<byte>>, pos: nat, remain: int)
  {
    && 0 <= remain <= n
    && Concat(chunks) == Slice(source, start, start + (n - remain))
    && pos == start + |Concat(chunks)|
    && ChunksBounded(chunks)
  }

  /** The loop `while remain > 0` from `start`: reads of at most 1024 bytes,
      each written, until `n` bytes are copied or a read comes back empty. */
  method CopyChunks(source: seq<byte>, start: nat, n: int) returns (chunks: seq<seq<byte>>)
    requires n >= 0
    ensures Concat(chunks) == Slice(source, start, start + n)
    ensures ChunksBounded(chunks)
  {
    chunks := [];
    var pos := start;
    var remain := n;
    var atEnd := false;
    while remain > 0 && !atEnd
      invariant CopiedSoFar(source, start, n, chunks, pos, remain)
      invariant atEnd ==> Concat(chunks) == Slice(source, start, start + n)
      decreases remain, !atEnd
    {
      chunks, pos, remain, atEnd := CopyChunk(source, start, n, chunks, pos, remain);
    }
  }

  /** One turn of the loop: read `min(1024, remain)` bytes; stop on an empty
      read, else write the chunk and count it off. */
  method CopyChunk(source: seq<byte>, start: nat, n: int, chunks: seq<seq<byte>>, pos: nat, remain: int)
    returns (chunks': seq<seq<byte>>, pos': nat, remain': int, atEnd: bool)
    requires CopiedSoFar(source, start, n, chunks, pos, remain) && remain > 0
    ensures CopiedSoFar(source, start, n, chunks', pos', remain')
    ensures atEnd ==> Concat(chunks') == Slice(source, start, start + n)
    ensures atEnd ==> remain' == remain
    ensures !atEnd ==> remain' < remain
  {
    var want := if remain < BUFFER_SIZE then remain else BUFFER_SIZE;
    var chunk := Slice(source, pos, pos + want);
    if chunk == [] {
      ChunkAtEnd(source, start, n, chunks, pos, remain, want);
      chunks', pos', remain', atEnd := chunks, pos, remain, true;
    } else {
      ChunkStep(source, start, n, chunks, pos, remain, want);
      chunks', pos', remain', atEnd := chunks + [chunk], pos + |chunk|, remain - |chunk|, false;
    }
  }

  /** One more chunk read from where the copied bytes end extends them. */
  lemma ChunkStep(source: seq<byte>, start: nat, n: int, chunks: seq<seq<byte>>, pos: nat, remain: int, want: nat)
    requires CopiedSoFar(source, start, n, chunks, pos, remain)
    requires 0 < want <= remain && want <= BUFFER_SIZE
    requires Slice(source, pos, pos + want) != []
    ensures var chunk := Slice(source, pos, pos + want);
      && 0 < |chunk| <= want
      && CopiedSoFar(source, start, n, chunks + [chunk], pos + |chunk|, remain - |chunk|)
  {
    var chunk := Slice(source, pos, pos + want);
    var copied := Concat(chunks + [chunk]);
    assert copied == Concat(chunks) + chunk by {
      ConcatNext(chunks, chunk);
    }
    assert copied == Slice(source, start, start + (n - (remain - |chunk|))) by {
      ReadNext(source, start, Concat(chunks), n - remain, pos, want);
      assert n - (remain - |chunk|) == n - remain + |chunk|;
    }
    assert ChunksBounded(chunks + [chunk]) by {
      assert forall k :: 0 <= k < |chunks| ==> (chunks + [chunk])[k] == chunks[k];
    }
  }

  /** An empty read means the copied bytes already reach the end of the
      stream, so they are all the item has. */
  lemma ChunkAtEnd(source: seq<byte>, start: nat, n: int, chunks: seq<seq<byte>>, pos: nat, remain: int, want: nat)
    requires CopiedSoFar(source, start, n, chunks, pos, remain)
    requires 0 < want <= remain
    requires Slice(source, pos, pos + want) == []
    ensures Concat(chunks) == Slice(source, start, start + n)
  {
    ReadAtEnd(source, start, n - remain, n);
  }

  /** An item `export_matched_files` skips. */
  predicate Skipped(item: MatchedItem)
  {
    item.path == [] || item.offset.None? || item.size.None? || item.size.value <= 0
  }

  /** The file an item produces, if it is not skipped. */
  function ItemFile(source: seq<byte>, item: MatchedItem): Option<OutputFile>
  {
    if Skipped(item) then None
    else Some(OutputFile(item.path, ItemBytes(source, item.offset.value, item.size.value)))
  }

  /** The files written for the items, in order. */
  function ExportedFiles(source: seq<byte>, items: seq<MatchedItem>): seq<OutputFile>
  {
    FilterMap((item: MatchedItem) => ItemFile(source, item), items)
  }

  /** `export_matched_files` on the archive bytes. */
  method ExportMatchedFiles(source: seq<byte>, items: seq<MatchedItem>) returns (files: seq<OutputFile>)
    ensures files == ExportedFiles(source, items)
  {
    files := [];
    var k := 0;
    while k < |items|
      invariant 0 <= k <= |items|
      invariant files == ExportedFiles(source, items[..k])
    {
      FilterMapNext((item: MatchedItem) => ItemFile(source, item), items, k);
      var item := items[k];
      if !Skipped(item) {
        HeaderBytesFit(item.path, item.size.value);
        var kind := HeaderKindOf(item.path, item.size.value);
        var writes := CopyItem(source, kind, item.offset.value, item.size.value);
        files := files + [OutputFile(item.path, Concat(writes))];
      }
      k := k + 1;
    }
    assert items[..k] == items;
  }

  // ---------------------------------------------------------------------------
  // export_by_samples, export_by_lst

  /** `calc_hash` with the caller's algorithm settings. */
  datatype HashSettings = HashSettings(algo: string, caseSensitive: bool, seed: Option<int>, crc32: seq<byte> -> nat)

  function HashOf(settings: HashSettings, path: string): Result<nat>
  {
    CalcHash(settings.algo, path, settings.caseSensitive, settings.seed, settings.crc32)
  }

  /** The item of a path whose hash is in the uid map. */
  function MatchOf(uidMap: map<nat, Entry>, settings: HashSettings, path: string): Option<MatchedItem>
  {
    var h := HashOf(settings, path);
    if h.Ok? && h.value in uidMap then
      Some(MatchedItem(path, h.value, Some(uidMap[h.value].offset), Some(uidMap[h.value].size)))
    else None
  }

  /** The matched items, or the error of the first path whose hash raises. */
  function Matched(uidMap: map<nat, Entry>, settings: HashSettings, paths: seq<string>): Result<seq<MatchedItem>>
    decreases |paths|
  {
    if paths == [] then Ok([])
    else
      var init := Matched(uidMap, settings, paths[..|paths| - 1]);
      var h := HashOf(settings, paths[|paths| - 1]);
      if init.Err? then init
      else if h.Err? then Err(h.error)
      else match MatchOf(uidMap, settings, paths[|paths| - 1])
        case Some(item) => Ok(init.value + [item])
        case None => init
  }

  /** The matching loop of `export_by_samples` and `export_by_lst`. */
  method MatchPaths(uidMap: map<nat, Entry>, settings: HashSettings, paths: seq<string>)
    returns (r: Result<seq<MatchedItem>>)
    ensures r == Matched(uidMap, settings, paths)
  {
    var items: seq<MatchedItem> := [];
    var k := 0;
    while k < |paths|
      invariant 0 <= k <= |paths|
      invariant Matched(uidMap, settings, paths[..k]) == Ok(items)
    {
      assert paths[..k + 1][..k] == paths[..k];
      var hashVal := CalcHash(settings.algo, paths[k], settings.caseSensitive, settings.seed, settings.crc32);
      if hashVal.Err? {
        assert Matched(uidMap, settings, paths[..k + 1]) == Err(hashVal.error);
        MatchedErrSticks(uidMap, settings, paths, k + 1);
        return Err(hashVal.error);
      }
      if hashVal.value in uidMap {
        var entry := uidMap[hashVal.value];
        items := items + [MatchedItem(paths[k], hashVal.value, Some(entry.offset), Some(entry.size))];
      }
      k := k + 1;
    }
    assert paths[..k] == paths;
    r := Ok(items);
  }

  /** Once a hash raises, nothing after it changes the outcome. */
  lemma {:induction false} MatchedErrSticks(uidMap: map<nat, Entry>, settings: HashSettings, paths: seq<string>, k: nat)
    requires k <= |paths|
    requires Matched(uidMap, settings, paths[..k]).Err?
    ensures Matched(uidMap, settings, paths) == Matched(uidMap, settings, paths[..k])
    decreases |paths| - k
  {
    if k < |paths| {
      assert paths[..k + 1][..k] == paths[..k];
      MatchedErrSticks(uidMap, settings, paths, k + 1);
    } else {
      assert paths[..k] == paths;
    }
  }

  /** When every hash succeeds, exactly the paths whose hash is a uid of the
      map are kept, in path order, each with that uid's entry. */
  lemma {:induction false} MatchedKeepsHits(uidMap: map<nat, Entry>, settings: HashSettings, paths: seq<string>)
    requires forall k :: 0 <= k < |paths| ==> HashOf(settings, paths[k]).Ok?
    ensures Matched(uidMap, settings, paths) ==
      Ok(FilterMap((p: string) => MatchOf(uidMap, settings, p), paths))
    decreases |paths|
  {
    if paths != [] {
      var init := paths[..|paths| - 1];
      assert forall k :: 0 <= k < |init| ==> init[k] == paths[k];
      MatchedKeepsHits(uidMap, settings, init);
    }
  }

  /** A matched path of an index table takes the last entry with its uid. */
  lemma MatchUsesLastEntry(es: seq<Entry>, settings: HashSettings, path: string)
    requires MatchOf(UidMap(es), settings, path).Some?
    ensures var item := MatchOf(UidMap(es), settings, path).value;
      exists k :: LastWithUid(es, item.uid, k) &&
        item.offset == Some(es[k].offset) && item.size == Some(es[k].size)
  {
    var item := MatchOf(UidMap(es), settings, path).value;
    UidMapOnlyUids(es);
    UidMapLastWins(es);
    var k :| LastWithUid(es, item.uid, k);
  }

  /** What an export by samples or by list produces. */
  datatype ExportResult = ExportFailed(error: string) | Exported(files: seq<OutputFile>)

  /** `export_by_samples`: index the archive, match the paths, copy the hits. */
  method ExportBySamples(archive: seq<byte>, paths: seq<string>, settings: HashSettings) returns (r: ExportResult)
    ensures |archive| < HEADER_SIZE || !LooseMagic(archive[..4]) ==> r.ExportFailed?
    ensures r.Exported? ==>
      var m := Matched(UidMap(IndexEntries(archive)), settings, paths);
      m.Ok? && r.files == ExportedFiles(archive, m.value)
    ensures r.ExportFailed? && |archive| >= HEADER_SIZE && LooseMagic(archive[..4]) ==>
      Matched(UidMap(IndexEntries(archive)), settings, paths) == Err(r.error)
  {
    var index := ParseWdfIndex(archive);
    if index.Err? {
      return ExportFailed(index.error);
    }
    var uidMap := UidMap(index.value);
    var matched := MatchPaths(uidMap, settings, paths);
    if matched.Err? {
      return ExportFailed(matched.error);
    }
    var files := ExportMatchedFiles(archive, matched.value);
    return Exported(files);
  }

  /** One line of the list file: stripped, kept unless blank or its raw text
      starts with `#`. */
  function ListedPath(line: string): Option<string>
  {
    if Strip(line) != [] && !StartsWith(line, "#") then Some(Strip(line)) else None
  }

  /** The lines of a file read in text mode: universal newlines, split at `\n`.
      An empty piece after a final `\n` is blank and dropped like any other. */
  function TextLines(text: string): seq<string>
  {
    Split(Replace(Replace(text, "\r\n", "\n"), "\r", "\n"), '\n')
  }

  /** The sample paths of `export_by_lst`. */
  function ListPaths(text: string): (paths: seq<string>)
  {
    FilterMap(ListedPath, TextLines(text))
  }

  /** Every listed path is stripped and non-empty. */
  lemma ListPathsStripped(text: string)
    ensures forall k :: 0 <= k < |ListPaths(text)| ==>
      ListPaths(text)[k] != [] && Strip(ListPaths(text)[k]) == ListPaths(text)[k]
  {
    var lines := TextLines(text);
    var idx := FilterMapOrigin(ListedPath, lines);
    forall k | 0 <= k < |ListPaths(text)|
      ensures ListPaths(text)[k] != [] && Strip(ListPaths(text)[k]) == ListPaths(text)[k]
    {
      var l := lines[idx[k]];
      StripIdempotent(l);
    }
  }

  lemma StripIdempotent(s: string)
    ensures Strip(Strip(s)) == Strip(s)
  {
    StripNoSpaceEnds(Strip(s));
  }

  /** A comment mark after leading white space does not drop a list line. */
  lemma IndentedCommentListed(line: string)
    requires line != [] && IsSpace(line[0])
    ensures ListedPath(line) == if Strip(line) == [] then None else Some(Strip(line))
  {
  }

  /** `export_by_lst`: the list text gives the paths, then as by samples. */
  method ExportByList(archive: seq<byte>, listText: string, settings: HashSettings) returns (r: ExportResult)
    ensures |archive| < HEADER_SIZE || !LooseMagic(archive[..4]) ==> r.ExportFailed?
    ensures r.Exported? ==>
      var m := Matched(UidMap(IndexEntries(archive)), settings, ListPaths(listText));
      m.Ok? && r.files == ExportedFiles(archive, m.value)
    ensures r.ExportFailed? && |archive| >= HEADER_SIZE && LooseMagic(archive[..4]) ==>
      Matched(UidMap(IndexEntries(archive)), settings, ListPaths(listText)) == Err(r.error)
  {
    var paths := ListPaths(listText);
    r := ExportBySamples(archive, paths, settings);
  }
}
