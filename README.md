# WDF archive, hash and packed-XML tools: a verified model

The tools work on game resource archives in the WDF format. An archive has a
12-byte header (a four-byte magic tag, an entry count and the offset of an
index table). The index lists, for each stored file, a 32-bit uid, its offset,
its size and its space. A file is found by hashing its path to a uid. The
tools also read the BigWorld "packed XML" binary format, and they scan game
data for resource paths.

This project models the logic of those tools in Dafny and proves properties
of it:

- **Path hashing.** `string_adjust` normalises a path, and `wdf_string_id`
  hashes it to a uid (module `CoreUnipacker`, over the word packing of
  `HashWords`). `wdfpck_hash`, a divergent variant, lives in
  `HashAlgorithms`, together with `BKDRHash`, `DJBHash`, `CRC32Hash` and the
  `calc_hash` dispatcher. All 32-bit arithmetic is written out: bit-vectors
  for rotation and xor, explicit `mod 2^32` for the products.
- **Index readers.** There are four readers, each with its own magic policy:
  - `wdf_unpack` (module `CoreUnipacker`);
  - `wdf_unpack_python` and `UnpackerUI.parse_wdf` (module `UiUnpacker`);
  - the 16-byte-record `parse_wdf_index` and its text export (module
    `WdfParser`).

  Their shared header decoding, 32-byte records, magic predicates and the
  last-write-wins uid map are in `WdfIndex`.
- **Sample lists.** `parse_samples` turns lines into (path, optional hash)
  samples (module `Samples`).
- **Extraction.** `export_matched_files` copies a BMP/TGA header verbatim and
  then chunks of at most 1024 bytes. `export_by_samples` and `export_by_lst`
  match paths against the index (module `WdfExporter`).
- **Packed XML.** The byte stream with its cursor, the integer, descriptor
  and float readers, and the element tree are in `PackedXml`. `PackedXmlCodec`
  is the lenient decoder with `write_dictionary`. `PackedXmlReader` is the
  strict reader class.
- **Path scanner.** `extract_paths`, the byte scan of `scan`, and the
  "recheck" and "model completion" rewrites of the scanner window's list are
  in `UiPathScanner`. The window is a class whose `matches` field the methods
  reassign.

`Bytes`, `Numerals`, `PyText`, `Seqs` and `Options` hold what these modules
need of Python's built-ins:
- little-endian `struct` reads and UTF-8 encoding;
- decimal and hexadecimal numerals;
- `lower`, `strip`, `find`, `replace`, `split` and `splitlines`;
- a filter-map and a concatenation;
- `Option` and `Result`.

The same normalisation and hash appear twice in the source:
- `string_adjust` and `wdf_string_id` at core_unipacker.py:4-53;
- again at ui_unpacker.py:228-281.

The two texts are identical. They are modelled once, in `CoreUnipacker`, and
`UiUnpacker` uses that model.

Each operation that loops or changes state is a method. It is proved equal to
a specification function: `ensures r == Spec(inputs)`, or the class's new
state in terms of its old state. The properties are lemmas about those
functions.

`string_adjust` is not idempotent: four backslashes become two, and two
become one (`CoreUnipacker.StringAdjustNotIdempotent`).

The model also follows the code at these points, where its behaviour may be
unexpected:
- The strict packed-XML reader does not reject a Boolean whose length is
  not 1: it sets `false` and reads nothing (packedxml_reader.py:132-138).
- No reader checks that `index_offset + count * record_size` fits in the
  archive. `wdf_unpack` and `wdf_unpack_python` fail only when a record lacks
  its 16 field bytes. `parse_wdf` fails on a record without its 4 uid bytes.
  `parse_wdf_index` stops quietly at the first short record.
- Besides the overflow test, the two hash variants differ in how they
  update x. `wdfpck_hash` never stores the product back into x, and it
  neither strips nor collapses doubled separators. Both variants are
  modelled, as `CoreUnipacker.CoreRound` and `HashAlgorithms.PckRound`.

## Model

| member | source | states |
|---|---|---|
| CoreUnipacker.StringAdjustShape | core_unipacker.py:4-6 | the normalised path has no `/`, no ASCII capital, and no whitespace at either end |
| CoreUnipacker.StringAdjustFixedPoint | core_unipacker.py:4-6 | a text is left unchanged by the normalisation exactly when it already has that shape and holds no doubled backslash |
| CoreUnipacker.AdjustedShrinks | core_unipacker.py:5 | a normalised text that still holds a doubled backslash gets strictly shorter when normalised again |
| CoreUnipacker.StringAdjustOfAdjusted | core_unipacker.py:5 | on a text of the normalised shape, the normalisation only collapses each non-overlapping doubled backslash |
| CoreUnipacker.CollapseFour | core_unipacker.py:5 | `replace` turns four backslashes into two, not one |
| CoreUnipacker.CollapseTwo | core_unipacker.py:5 | `replace` turns two backslashes into one |
| CoreUnipacker.StringAdjustNotIdempotent | core_unipacker.py:4-6 | normalising four backslashes gives two, and normalising again gives one, so the normalisation is not idempotent |
| CoreUnipacker.StringAdjustIgnoresCase | core_unipacker.py:5 | lowercasing a path first does not change its normalised form |
| CoreUnipacker.StringAdjustIgnoresSlashes | core_unipacker.py:5 | writing `\` for every `/` first does not change the normalised form |
| CoreUnipacker.Message | core_unipacker.py:10-18 | the hashed words are the packed words of the bytes, then the two trailer constants 0x9BE74448 and 0x66F42C48 |
| CoreUnipacker.PathBytes | core_unipacker.py:9-11 | the hashed bytes are the UTF-8 of the normalised path, cut to at most 256 |
| CoreUnipacker.WdfStringIdOf | core_unipacker.py:8-53 | the uid is below 2^32 |
| CoreUnipacker.WdfStringId | core_unipacker.py:8-53 | the method that fills the 70-word array and runs the loop returns the specified uid |
| CoreUnipacker.PackMessage | core_unipacker.py:10-18 | the array has 70 slots; `i` is ceil(len/4), and `i + 2` is within the array; the first `i + 2` slots are the message |
| CoreUnipacker.RunRounds | core_unipacker.py:28-51 | the loop over the first `n` slots gives the registers of the specified rounds |
| CoreUnipacker.CoreRoundsPrefix | core_unipacker.py:28-51 | each loop turn is one round on the registers of the turns before it |
| CoreUnipacker.RotationSchedule | core_unipacker.py:30 | after `n` rounds, `v` is its initial value rotated left by `n` within 32 bits |
| CoreUnipacker.WdfStringIdOfAdjusted | core_unipacker.py:9 | two paths with the same normalised form have the same uid |
| CoreUnipacker.WdfStringIdIgnoresCase | core_unipacker.py:9 | a path and its lowercase form have the same uid |
| CoreUnipacker.WdfStringIdIgnoresSlashes | core_unipacker.py:9 | `/` and `\` give the same uid (so `A/B.tga` and `a\b.tga` agree) |
| CoreUnipacker.ExtractionOf | core_unipacker.py:80-95 | a listed path is extracted exactly when its uid is a key of the uid map, otherwise it is reported not found |
| CoreUnipacker.ExtractAll | core_unipacker.py:80-95 | there is one outcome per listed path |
| CoreUnipacker.ExtractAllAt | core_unipacker.py:80-95 | the `k`-th outcome is that of the `k`-th path alone: a path not found does not stop the others |
| CoreUnipacker.ExtractListed | core_unipacker.py:80-95 | the lookup loop gives the specified outcomes |
| CoreUnipacker.ExtractAllPrefix | core_unipacker.py:80-95 | one more path adds its own outcome at the end |
| CoreUnipacker.ExtractOne | core_unipacker.py:81-95 | one turn of the lookup loop gives that path's outcome |
| CoreUnipacker.ExtractedBytes | core_unipacker.py:85-90 | an extracted path gets the archive's bytes from its entry's offset, never more than the entry's size |
| CoreUnipacker.ListedPaths | core_unipacker.py:59-60 | the listed paths are stripped, non-empty, and no more than the lines |
| CoreUnipacker.WdfUnpack | core_unipacker.py:55-95 | a header shorter than 12 bytes or a magic outside WDFP/PFDW/WDFA/AFDW is rejected before any index is read; a signed count whose records do not fit fails; otherwise the outcomes are those of the last-wins uid map of the table |
| CoreUnipacker.StringAdjust | core_unipacker.py:4-6 | definition of `string_adjust`: strip, then `/` to `\`, then each non-overlapping `\\` to `\`, then lower-case; its shape and fixed points are stated by `StringAdjustShape` and `StringAdjustFixedPoint` |
| CoreUnipacker.CoreRound | core_unipacker.py:29-51 | definition of one turn of the round loop on the registers `v`, `esi`, `edi` in 32 bits, with the carry test of line 49; `RunRounds` is proved to compute it turn by turn |
| CoreUnipacker.CoreRounds | core_unipacker.py:28-51 | definition of the registers after one round per message word in order; `RotationSchedule` and `CoreRoundsPrefix` are proved about it |
| HashWords.Truncated | core_unipacker.py:11 | the bytes are cut to their first 256 at most, and kept whole when there are no more than that |
| HashWords.WordValue | core_unipacker.py:13-14 | a packed word is below 2^32 |
| HashWords.WordPastEnd | core_unipacker.py:14 | a word entirely past the end of the bytes is zero |
| HashWords.Words | core_unipacker.py:12-15 | `n` words, the `k`-th being bytes `4k..4k+3` little-endian, padded with zeros |
| HashWords.PackedWords | core_unipacker.py:12-16 | ceil(len/4) words, each the little-endian pack of its four bytes |
| HashWords.FillWords | core_unipacker.py:10-15 | the filled 70-slot array holds the word of each slot, zero past the end of the bytes |
| HashWords.WordCountBound | core_unipacker.py:16-18 | for at most 256 bytes there are at most 64 words, so the trailer slots `i` and `i + 1` are in the array |
| HashWords.PackedWordsNonZero | Hashtools/hash_algorithms.py:9-11 | a word of bytes with no NUL byte is never zero |
| HashAlgorithms.PckBytes | Hashtools/hash_algorithms.py:3-5 | the bytes of `wdfpck_hash` come from the path only lowercased and with `\` for `/`, cut to 256 |
| HashAlgorithms.WdfpckAdjustKeepsSpace | Hashtools/hash_algorithms.py:3 | `wdfpck_hash` does not strip: leading whitespace survives its normalisation |
| HashAlgorithms.ScanFrom | Hashtools/hash_algorithms.py:9-11 | the zero scan stops at or before slot 64 |
| HashAlgorithms.ScanFromStops | Hashtools/hash_algorithms.py:9-11 | the scan passes only non-zero slots and stops on a zero slot or at 64 |
| HashAlgorithms.ScanEnd | Hashtools/hash_algorithms.py:9-11 | `i` is at most 64 |
| HashAlgorithms.ScanEndStops | Hashtools/hash_algorithms.py:9-11 | `i` is the index of the first zero word, bounded by 64 |
| HashAlgorithms.ScanEndBound | Hashtools/hash_algorithms.py:9-11 | `i` is at most ceil(len/4), so `m[i + 1]` is in the array |
| HashAlgorithms.ScanEndNoNul | Hashtools/hash_algorithms.py:9-11 | for a path without NUL characters, `i` is exactly ceil(len/4) |
| HashAlgorithms.PckMessage | Hashtools/hash_algorithms.py:5-13 | the hashed words are the first `i` packed words, then the same two trailer constants |
| HashAlgorithms.WdfpckHashOf | Hashtools/hash_algorithms.py:1-42 | the hash is below 2^32 |
| HashAlgorithms.WdfpckHash | Hashtools/hash_algorithms.py:1-42 | the method with its array and loops returns the specified hash, whatever the seed and case flag |
| HashAlgorithms.PackPckMessage | Hashtools/hash_algorithms.py:5-13 | the array has 70 slots, `i` is the first zero word within 64, and the first `i + 2` slots are the message |
| HashAlgorithms.ScanZero | Hashtools/hash_algorithms.py:9-11 | the `while` loop over the array finds the specified stop |
| HashAlgorithms.WordsPrefix | Hashtools/hash_algorithms.py:5-8 | fewer words are a prefix of more words |
| HashAlgorithms.RunPckRounds | Hashtools/hash_algorithms.py:18-40 | the round loop gives the registers of the specified rounds |
| HashAlgorithms.PckRoundsPrefix | Hashtools/hash_algorithms.py:18-40 | each loop turn is one round on the registers before it |
| HashAlgorithms.PckXIsXorFold | Hashtools/hash_algorithms.py:23 | `x` changes only by xor with each word: after the loop it is 0x37A8470E xor every word hashed |
| HashAlgorithms.PckRotationSchedule | Hashtools/hash_algorithms.py:18-40 | `v` is rotated left by one within 32 bits per round |
| HashAlgorithms.PolySnoc | Hashtools/hash_algorithms.py:47-49 | the code-point polynomial grows by one Horner step per character |
| HashAlgorithms.HornerClosedForm | Hashtools/hash_algorithms.py:47-49 | folding `h * mult + ord(ch)` from `start` equals `start * mult^n` plus the code-point polynomial |
| HashAlgorithms.BkdrOf | Hashtools/hash_algorithms.py:44-50 | `BKDRHash` is below 2^31 |
| HashAlgorithms.DjbOf | Hashtools/hash_algorithms.py:58-64 | `DJBHash` is below 2^32 |
| HashAlgorithms.Fold | Hashtools/hash_algorithms.py:47-49 | the loop computes the fold `h * mult + ord(ch)` over the characters |
| HashAlgorithms.BkdrHash | Hashtools/hash_algorithms.py:44-50 | the method returns the specified `BKDRHash`: the fold by `seed`, masked to 31 bits |
| HashAlgorithms.DjbHash | Hashtools/hash_algorithms.py:58-64 | the method returns the specified `DJBHash`: the fold by 33 from `seed`, masked to 32 bits |
| HashAlgorithms.CaseInsensitiveHashes | Hashtools/hash_algorithms.py:45-46 | when not case-sensitive, `BKDRHash` and `DJBHash` agree on a text and its lowercase form |
| HashAlgorithms.Crc32Of | Hashtools/hash_algorithms.py:52-56 | `CRC32Hash` is masked below 2^32 |
| HashAlgorithms.AlgorithmNames | Hashtools/hash_algorithms.py:66-67 | four algorithm names are listed |
| HashAlgorithms.CalcHash | Hashtools/hash_algorithms.py:69-79 | `ValueError` is raised exactly for a name not listed; every hash is below 2^32 |
| HashAlgorithms.CalcHashDispatch | Hashtools/hash_algorithms.py:69-79 | each listed name runs its own algorithm, with `wdfpck_hash` ignoring the seed |
| HashAlgorithms.WdfpckAdjust | Hashtools/hash_algorithms.py:3 | definition of the `wdfpck_hash` normalisation: lower-case, then `/` to `\`, with no strip and no collapse (`WdfpckAdjustKeepsSpace`) |
| HashAlgorithms.PckRound | Hashtools/hash_algorithms.py:19-40 | definition of one turn of the `wdfpck_hash` round loop, where the product `eax1` is computed but never stored back into `x` |
| HashAlgorithms.PckRounds | Hashtools/hash_algorithms.py:18-40 | definition of the registers after one round per hashed word; `PckXIsXorFold` and `PckRotationSchedule` are proved about it |
| HashAlgorithms.Horner | Hashtools/hash_algorithms.py:47-49 | definition of the unbounded `h = h * seed + ord(ch)` fold from a start value; `HornerClosedForm` gives its closed form |
| HashAlgorithms.Poly | Hashtools/hash_algorithms.py:48-49 | reference definition: the code points weighted by descending powers of the multiplier, independent of the fold it is compared with in `HornerClosedForm` |
| WdfIndex.ReadHeader | core_unipacker.py:62-68 | a header exists exactly when 12 bytes are there: the magic is bytes 0..3, the count bytes 4..7 (signed or unsigned as the caller reads it), the index offset bytes 8..11 |
| WdfIndex.Reverse | Hashtools/wdf_parser.py:17 | the reversal of the magic, byte by byte |
| WdfIndex.LooseMagicOfTag | Hashtools/wdf_parser.py:17-18 | a four-byte magic is accepted by `parse_wdf_index` exactly when it or its reversal holds `WDF` |
| WdfIndex.MagicPoliciesNested | ui_unpacker.py:290 | each magic policy is looser than the one before: WDFP only, then WDFP/PFDW, then the four tags, then any tag holding `WDF` |
| WdfIndex.LooseMagicIsLooser | Hashtools/wdf_parser.py:17-18 | `WDF0` is accepted by the loose check but not by `wdf_unpack` |
| WdfIndex.UidMapHasEveryUid | core_unipacker.py:79 | every uid of the table is a key of the uid map |
| WdfIndex.UidMapOnlyUids | core_unipacker.py:79 | every key of the uid map is a uid of the table |
| WdfIndex.UidMapLastWins | core_unipacker.py:79 | each uid maps to the last entry of the table that has it |
| WdfIndex.IndexBytes | core_unipacker.py:69-70 | the index read is `n` bytes from the offset, fewer at the end, none past the end |
| WdfIndex.Record32 | core_unipacker.py:73 | record `i` is bytes `32i..32i+31` of the index, fewer at its end |
| WdfIndex.UpToNul | ui_unpacker.py:204 | the name is the part of the field before its first NUL byte |
| WdfIndex.DecodeRecord | ui_unpacker.py:300-305 | uid, offset, size and space are the little-endian words at 0, 4, 8 and 12, and the name is bytes 16..31 up to the NUL when it is read |
| WdfIndex.Table32 | core_unipacker.py:72-78 | one entry per record, in file order |
| WdfIndex.ReadTable32 | core_unipacker.py:72-78 | the record loop succeeds exactly when every record has its 16 bytes, and then gives the table; otherwise it raises `struct.error` |
| WdfIndex.TableFitsLast | core_unipacker.py:70-77 | the records fit exactly when the last one has its 16 bytes |
| WdfIndex.UidMap | core_unipacker.py:79 | definition of `{e['uid']: e for e in file_table}` entry by entry; `UidMapHasEveryUid`, `UidMapOnlyUids` and `UidMapLastWins` state its keys and values |
| WdfIndex.LooseMagic | Hashtools/wdf_parser.py:17-18 | definition of the loose magic test: `WDF` occurs in the tag or in its reversal; `LooseMagicOfTag` lists the tags it accepts |
| WdfIndex.CoreMagic | core_unipacker.py:63-64 | definition of the magic test of `wdf_unpack`: one of `WDFP`, `PFDW`, `WDFA`, `AFDW` |
| WdfIndex.ParseWdfMagic | ui_unpacker.py:193 | definition of the magic test of `parse_wdf`: `WDFP` or `PFDW` |
| WdfIndex.PythonMagic | ui_unpacker.py:290 | definition of the magic test of `wdf_unpack_python`: `WDFP` only; `MagicPoliciesNested` orders the four tests |
| WdfIndex.TableFits | core_unipacker.py:72-77 | definition of when the record loop runs without `struct.error`: each record within the count has its 16 field bytes; `ReadTable32` fails exactly when it does not hold |
| UiUnpacker.UidRecordsExact | ui_unpacker.py:202-203 | the uid of record `i` can be read exactly when `i` is below the number of records with four bytes |
| UiUnpacker.RecordNames | ui_unpacker.py:202-204 | one name per record read |
| UiUnpacker.NonEmpty | ui_unpacker.py:205-206 | only non-empty names are collected, each from the names read |
| UiUnpacker.NonEmptyKeepsAll | ui_unpacker.py:205-206 | when no name is empty, all are collected, in order |
| UiUnpacker.CollectedNamesNext | ui_unpacker.py:201-207 | one more record appends its name exactly when that name is not empty |
| UiUnpacker.UnpackerUI.constructor | ui_unpacker.py:77 | the window starts with no parsed names |
| UiUnpacker.UnpackerUI.ParseWdf | ui_unpacker.py:179-210 | the names are cleared first; a short header or a magic other than WDFP/PFDW is rejected; otherwise the non-empty names of the records read are collected, and the parse fails exactly when a record has no uid, keeping the names before it |
| UiUnpacker.ReadNames | ui_unpacker.py:201-207 | the record loop collects the non-empty names of the records read, and fails exactly when a record within the count has fewer than four bytes for its uid |
| UiUnpacker.WdfUnpackPython | ui_unpacker.py:283-323 | only the WDFP magic is accepted; the table (names included) fails with `struct.error` exactly when a record is short; otherwise each list line, unstripped, is looked up in the last-wins uid map |
| UiUnpacker.UidMapsAlike | ui_unpacker.py:298-306 | tables that agree on uid, offset and size give uid maps with the same keys, offsets and sizes |
| UiUnpacker.ExtractionAlike | ui_unpacker.py:307-322 | uid maps that agree on keys, offsets and sizes extract a path alike |
| UiUnpacker.ExtractAllAlike | ui_unpacker.py:307-322 | such uid maps extract a whole list alike |
| UiUnpacker.SameExtractions | ui_unpacker.py:298-322 | reading the names does not change what is extracted: the tables with and without names give the same outcomes |
| UiUnpacker.RecordName | ui_unpacker.py:204 | definition of a record's name: the decoded bytes of `entry[16:32]` up to the first NUL |
| UiUnpacker.UidRecords | ui_unpacker.py:202-203 | definition of how many records have their 4 uid bytes; `UidRecordsExact` proves record `i` has them exactly when `i` is below it |
| UiUnpacker.CollectedNames | ui_unpacker.py:201-207 | definition of `parsed_names` after the first `n` records: their non-empty names in order; `CollectedNamesNext` gives one loop step |
| UiUnpacker.NamesRead | ui_unpacker.py:197-203 | definition of how many records the loop reads: the count, clamped at 0, cut at the first record without its uid bytes |
| WdfParser.Read16 | Hashtools/wdf_parser.py:22 | a record read is at most 16 bytes |
| WdfParser.Read16Full | Hashtools/wdf_parser.py:22-24 | record `k` is whole exactly when `k` is below the number of whole records after the offset |
| WdfParser.ReadEntries16 | Hashtools/wdf_parser.py:21-26 | the record loop gives the decoded entries of the whole records, in file order, up to the first short one or the declared count |
| WdfParser.EntriesRead | Hashtools/wdf_parser.py:21-24 | the loop reads the declared count of records, or stops at the first short one |
| WdfParser.Entries16 | Hashtools/wdf_parser.py:21-26 | one entry per record read |
| WdfParser.Entries16Next | Hashtools/wdf_parser.py:21-26 | each whole record appends its decoded entry, in file order |
| WdfParser.ParseWdfIndex | Hashtools/wdf_parser.py:3-27 | a header under 12 bytes raises the short-header error, any magic that neither way round holds `WDF` raises the not-WDF error; otherwise the entries are returned |
| WdfParser.IndexEntryFields | Hashtools/wdf_parser.py:14-26 | entry `k` holds the little-endian words of record `k` at the unsigned index offset |
| WdfParser.IndexEntriesCount | Hashtools/wdf_parser.py:21-24 | there are at most as many entries as the unsigned count declares, fewer exactly when a record is cut short |
| WdfParser.IndexLines | Hashtools/wdf_parser.py:33-35 | one line per entry |
| WdfParser.ExportIndexText | Hashtools/wdf_parser.py:29-35 | the writing loop produces the specified text |
| WdfParser.IndexTextExample | Hashtools/wdf_parser.py:35 | the entry (1, 12, 4, 0) is written as `0x00000001,12,4,0` and a newline |
| WdfParser.DecimalNoBreak | Hashtools/wdf_parser.py:35 | a decimal field holds no comma and no line break |
| WdfParser.IndexLineNoBreak | Hashtools/wdf_parser.py:35 | an entry's line holds no line break |
| WdfParser.SplitLinesJoined | Hashtools/wdf_parser.py:33-35 | lines without breaks, each written with a newline, split back into the same lines |
| WdfParser.OneLinePerEntry | Hashtools/wdf_parser.py:33-35 | the exported text splits into exactly one line per entry, in order |
| WdfParser.FourFields | Hashtools/wdf_parser.py:35 | four comma-free fields joined by commas split back into those four |
| WdfParser.HexFieldNoComma | Hashtools/wdf_parser.py:35 | the `0x%08X` field holds no comma |
| WdfParser.IndexLineFields | Hashtools/wdf_parser.py:35 | a line splits into the uid as `0x` and eight hex digits, then offset, size and space in decimal |
| WdfParser.IndexLine | Hashtools/wdf_parser.py:35 | definition of one exported line `0x%08X,offset,size,space`; `IndexLineFields` proves it splits back into the entry's four fields |
| WdfParser.IndexEntries | Hashtools/wdf_parser.py:20-27 | definition of the entries `parse_wdf_index` returns for an accepted header; `IndexEntriesCount` and `IndexEntryFields` state their number and contents |
| WdfParser.IndexText | Hashtools/wdf_parser.py:33-35 | definition of the whole text `export_index_to_txt` writes; `OneLinePerEntry` proves it splits back into one line per entry |
| Samples.FoldDelimitersPointwise | Hashtools/utils.py:19 | tab and `;` become `,` in place, every other character is kept |
| Samples.Fields | Hashtools/utils.py:20 | a line has at least one field |
| Samples.SamplesOf | Hashtools/utils.py:14-35 | at most one sample per line |
| Samples.ParseSamples | Hashtools/utils.py:13-35 | the loop over the text's lines gives the specified samples |
| Samples.ParseLine | Hashtools/utils.py:16-34 | one turn of the loop gives that line's sample or none |
| Samples.SamplesOrigin | Hashtools/utils.py:14-35 | each sample comes from its own line, in line order, and every line without a sample is one that yields none |
| Samples.FoldedAlike | Hashtools/utils.py:19 | lines that differ only in which delimiter they use fold alike |
| Samples.DelimitersAlike | Hashtools/utils.py:19 | tab, `;` and `,` are interchangeable: lines differing only there give the same sample |
| Samples.FieldsDecide | Hashtools/utils.py:17-34 | a line's sample depends only on its fields, whether it is blank and whether it is a comment |
| Samples.PlainFieldFields | Hashtools/utils.py:16-20 | a plain field is unchanged by stripping and folding and splits into itself |
| Samples.JoinStripped | Hashtools/utils.py:16 | two plain fields joined by a comma are unchanged by stripping |
| Samples.JoinFolded | Hashtools/utils.py:19 | two plain fields joined by a comma are unchanged by folding |
| Samples.TwoFields | Hashtools/utils.py:20-22 | a path and a field joined by a comma split into exactly those two |
| Samples.SampleOfTwoFields | Hashtools/utils.py:20-30 | a path and a hash field give the path with the parsed hash, or nothing when it does not parse |
| Samples.PathOnly | Hashtools/utils.py:31-34 | a single field gives the path without a hash |
| Samples.AlphanumericField | Hashtools/utils.py:16-20 | a field of letters, digits and `-` is plain |
| Samples.HexField | Hashtools/utils.py:23-25 | `0x` and hex digits parse back to their value |
| Samples.HexSample | Hashtools/utils.py:20-28 | a path with a `0x` hash gives the path and that value |
| Samples.DecimalChars | Hashtools/utils.py:26-28 | a decimal numeral holds only digits and `-` |
| Samples.DecimalField | Hashtools/utils.py:26-28 | a decimal numeral parses back to its value |
| Samples.DecimalSample | Hashtools/utils.py:20-28 | a path with a decimal hash gives the path and that value |
| Samples.UnparsableDropped | Hashtools/utils.py:29-30 | a line whose second field does not parse is dropped, though the path alone would have made a sample |
| Samples.ParseHash | Hashtools/utils.py:24-27 | definition of the hash of a field: `int(h, 16)` after a `0x` prefix in either case, else `int(h)`; `HexField` and `DecimalField` prove the two forms parse back |
| Samples.LineSample | Hashtools/utils.py:17-34 | definition of the sample of a stripped line: none for a blank or `#` line, path and hash for two or more fields (none when the hash fails), path alone for one field |
| Samples.SampleOf | Hashtools/utils.py:16-34 | definition of the sample of one raw line: `LineSample` of its strip; `FieldsDecide` and `UnparsableDropped` are proved about it |
| Samples.FoldDelimiters | Hashtools/utils.py:19 | definition of the delimiter fold: tab, then `;`, replaced by `,`; `FoldDelimitersPointwise` states it character by character |
| WdfExporter.LastSep | Hashtools/wdf_exporter.py:25 | the position of the last path separator, or -1 |
| WdfExporter.LastDot | Hashtools/wdf_exporter.py:25 | the position of the last dot, or -1 |
| WdfExporter.Extension | Hashtools/wdf_exporter.py:25 | the extension is empty or a dotted suffix of the path |
| WdfExporter.HeaderBytesFit | Hashtools/wdf_exporter.py:29-36 | the header bytes copied never exceed the item's size |
| WdfExporter.HeaderReads | Hashtools/wdf_exporter.py:29-39 | two header writes for a bitmap, one for a Targa file, none otherwise |
| WdfExporter.HeaderReadsConcat | Hashtools/wdf_exporter.py:30-38 | the headers written are the item's first 54 (bitmap) or 18 (Targa) bytes, verbatim |
| WdfExporter.CopyItem | Hashtools/wdf_exporter.py:26-46 | the bytes written are `source[offset:offset+size]`, whatever the extension: the header writes first, then chunks of at most 1024 bytes |
| WdfExporter.ItemParts | Hashtools/wdf_exporter.py:34-46 | the headers followed by the chunks of the rest make up the whole item |
| WdfExporter.CopyHeaders | Hashtools/wdf_exporter.py:29-39 | the header branch writes the specified header reads |
| WdfExporter.CopyChunks | Hashtools/wdf_exporter.py:41-46 | the chunk loop writes the next `n` bytes, fewer at the end, in chunks of at most 1024 |
| WdfExporter.CopyChunk | Hashtools/wdf_exporter.py:42-46 | one turn keeps the copy a prefix of the wanted bytes and lowers `remain`, or the read is empty and the copy is complete |
| WdfExporter.ChunkStep | Hashtools/wdf_exporter.py:42-46 | a non-empty chunk extends the copy by the next bytes of the source |
| WdfExporter.ExportMatchedFiles | Hashtools/wdf_exporter.py:12-46 | items without a path, offset or size, or of size 0 or less, are skipped; each other item gives one file of its bytes, in order |
| WdfExporter.MatchPaths | Hashtools/wdf_exporter.py:65-71 | the matching loop gives the specified items, or the error of the first hash that raises |
| WdfExporter.MatchedErrSticks | Hashtools/wdf_exporter.py:65-66 | once a hash raises, later paths change nothing |
| WdfExporter.MatchedKeepsHits | Hashtools/wdf_exporter.py:65-71 | when every hash succeeds, exactly the paths whose hash is a uid of the map are kept, in path order |
| WdfExporter.MatchUsesLastEntry | Hashtools/wdf_exporter.py:63-70 | a matched path takes offset and size from the last index entry with its uid |
| WdfExporter.ExportBySamples | Hashtools/wdf_exporter.py:48-73 | an index that fails to parse fails the export; otherwise the files are those of the matched items, or the export fails with the first hash error |
| WdfExporter.ListPathsStripped | Hashtools/wdf_exporter.py:92-93 | every listed path is stripped and non-empty |
| WdfExporter.StripIdempotent | Hashtools/wdf_exporter.py:93 | stripping twice is stripping once |
| WdfExporter.IndentedCommentListed | Hashtools/wdf_exporter.py:93 | the comment test looks at the raw line: an indented `#` line is kept as a path |
| WdfExporter.ExportByList | Hashtools/wdf_exporter.py:75-100 | as by samples, the paths being the stripped, non-blank list lines whose raw text does not start with `#` |
| WdfExporter.Matched | Hashtools/wdf_exporter.py:64-71 | definition of `matched_items`: the items of the paths whose hash is a key of the uid map, in path order, or the first hash error; `MatchedKeepsHits` and `MatchedErrSticks` are proved about it |
| WdfExporter.MatchOf | Hashtools/wdf_exporter.py:66-71 | definition of the item of one path: path, hash, and the offset and size of the uid map's entry, when the hash is a key |
| WdfExporter.ExportedFiles | Hashtools/wdf_exporter.py:19-46 | definition of the files `export_matched_files` writes: one per item that is not skipped, in order; `ExportMatchedFiles` is proved to compute it |
| WdfExporter.ItemFile | Hashtools/wdf_exporter.py:20-46 | definition of the file of one item: none when skipped, else its path and the item's bytes; `CopyItem` is proved to write those bytes |
| WdfExporter.ListPaths | Hashtools/wdf_exporter.py:92-93 | definition of the paths `export_by_lst` reads: the stripped non-blank lines not starting with `#`; `ListPathsStripped` and `IndentedCommentListed` are proved about it |
| WdfExporter.ListedPath | Hashtools/wdf_exporter.py:93 | definition of the filter on one line: kept, stripped, when its strip is non-empty and the raw line does not start with `#` |
| WdfExporter.TextLines | Hashtools/wdf_exporter.py:92-93 | definition of the lines of a file read in text mode: `\r\n` and `\r` become `\n`, then split at `\n` |
| WdfExporter.HeaderKindOf | Hashtools/wdf_exporter.py:25-39 | definition of the header branch: `.bmp` (case-insensitive) with size at least 54, `.tga` with size at least 18, else none; `HeaderReads` states what each branch reads |
| WdfExporter.Skipped | Hashtools/wdf_exporter.py:20-21 | definition of a skipped item: empty path, offset or size missing, or size at most 0 |
| PackedXml.Append | packedxml_codec.py:103 | appending a child keeps tag, text and the children before it |
| PackedXml.WithText | packedxml_codec.py:80-91 | setting the text keeps tag and children |
| PackedXml.ReadOf | packedxml_reader.py:41-42 | `f.read(n)` returns the next `n` bytes, fewer at the end, all the rest when `n` is negative |
| PackedXml.UnsignedLittleEndian | packedxml_codec.py:33-37 | the unsigned value of `n` bytes is below 256^n |
| PackedXml.SignedLittleEndian | packedxml_codec.py:33-37 | the signed value of `n` bytes lies in the two's-complement range |
| PackedXml.IntOf | packedxml_reader.py:32-39 | a signed read succeeds exactly when enough bytes remain, consuming them, and otherwise raises `struct.error` |
| PackedXml.TwosComplement | packedxml_codec.py:33-37 | the encoding of a value has exactly `n` bytes |
| PackedXml.UnsignedOfLittleEndian | packedxml_codec.py:33-37 | little-endian bytes of an unsigned value read back to it |
| PackedXml.SignedRoundTrip | packedxml_codec.py:33-37 | two's-complement bytes of a value in range read back to it |
| PackedXml.IntRoundTrip | packedxml_reader.py:32-39 | an integer written in `n` bytes is read back and leaves the bytes after it |
| PackedXml.DescriptorBits | packedxml_reader.py:13-16 | on a signed 32-bit word, `end` is its low 28 bits and the type its top four bits as a signed value, negative when the top bit is set |
| PackedXml.DescriptorOf | packedxml_codec.py:39-43 | a descriptor is read exactly when four bytes remain; `end` is below 2^28 and the type between -8 and 7 |
| PackedXml.TokenOf | packedxml_codec.py:21-27 | the word read is the bytes before the first NUL or the end, and the NUL is consumed |
| PackedXml.TokenStep | packedxml_codec.py:24-27 | an empty read or a NUL ends the word; any other byte extends it |
| PackedXml.TokenOfWord | packedxml_codec.py:21-27 | a NUL-free word followed by a NUL is read back whole |
| PackedXml.PyIndex | packedxml_reader.py:105 | Python indexing: negative indices count from the end, and out of range raises `IndexError` |
| PackedXml.NumberRoundTrip | packedxml_codec.py:56-64 | a value written in 1, 2, 4 or 8 bytes is read back as its decimal text |
| PackedXml.NumberShort | packedxml_codec.py:56-64 | a number cut short raises `struct.error` |
| PackedXml.FloatOf | packedxml_codec.py:69 | one float read takes the next four bytes, or raises `struct.error` |
| PackedXml.FloatGroupsOf | packedxml_codec.py:67-69 | `n` float reads give `n` groups (none for a negative `n`), or raise `struct.error` |
| PackedXml.FloatGroupsContents | packedxml_codec.py:67-69 | group `k` is bytes `4k..4k+3`, and the rest follows the `4n` bytes read |
| PackedXml.FloatGroupsEnough | packedxml_codec.py:67-69 | `n` groups are read exactly when `4n` bytes remain |
| PackedXml.ByteStream.Remaining | packedxml_reader.py:41-42 | what is left to read is a suffix of the stream's bytes |
| PackedXml.ByteStream.constructor | packedxml_codec.py:106 | a new stream has all its bytes still to read |
| PackedXml.ByteStream.Read | packedxml_reader.py:41-42 | `f.read(n)` advances the cursor past what it returns |
| PackedXml.ByteStream.ReadInt | packedxml_reader.py:32-39 | `struct.unpack` of a read gives the specified integer, or raises leaving the cursor after the short read |
| PackedXml.ByteStream.ReadToken | packedxml_codec.py:21-27 | the inner dictionary loop reads the specified word |
| PackedXml.ByteStream.ReadFloat | packedxml_codec.py:69 | one float read as specified |
| PackedXml.ByteStream.ReadFloats | packedxml_reader.py:76-77 | `n` float reads as specified |
| PackedXml.DescriptorOfInt | packedxml_codec.py:39-43 | definition of `val & 0xFFFFFFF` and `val >> 28` on a Python int; `DescriptorBits` proves what they give on a signed 32-bit value |
| PackedXml.NumberOf | packedxml_codec.py:56-65 | definition of `read_number`: the decimal text of the signed read for lengths 1, 2, 4 and 8, else `'0'` with nothing read; `NumberRoundTrip` and `NumberShort` are proved about it |
| PackedXmlCodec.ByteSink.constructor | packedxml_codec.py:5-7 | a new output stream holds nothing |
| PackedXmlCodec.ByteSink.Write | packedxml_codec.py:11-13 | `f.write(b)` appends `b` |
| PackedXmlCodec.WordsBytes | packedxml_codec.py:10-12 | each word adds at least its NUL byte |
| PackedXmlCodec.WordsBytesSnoc | packedxml_codec.py:10-12 | one more word adds its UTF-8 and a NUL |
| PackedXmlCodec.WordsBytesAppend | packedxml_codec.py:10-12 | the bytes of two runs of words are the bytes of each |
| PackedXmlCodec.WriteDictionary | packedxml_codec.py:5-13 | `write_dictionary` appends each word's UTF-8 and a NUL, then one more NUL |
| PackedXmlCodec.DictionaryOf | packedxml_codec.py:15-31 | the words read so far stay in front, and a failure is a UTF-8 decoding error |
| PackedXmlCodec.ReadDictionary | packedxml_codec.py:15-31 | the nested loops read the specified dictionary |
| PackedXmlCodec.DictionaryRoundTrip | packedxml_codec.py:5-31 | reading the bytes `write_dictionary` wrote for non-empty, NUL-free words gives back those words and consumes exactly those bytes |
| PackedXmlCodec.DictionaryStep | packedxml_codec.py:21-30 | one non-empty word is decoded and appended |
| PackedXmlCodec.DictionaryEmptyWordStops | packedxml_codec.py:28-29 | an empty word ends the dictionary: the words after it are not read |
| PackedXmlCodec.DictionaryAtEnd | packedxml_codec.py:24-26 | the end of the stream ends the last word as a NUL would |
| PackedXmlCodec.TokenOfEnd | packedxml_codec.py:24-26 | a NUL-free run at the end is read whole |
| PackedXmlCodec.ReadDataDescriptor | packedxml_codec.py:39-43 | the descriptor is read as specified |
| PackedXmlCodec.DescriptorsOf | packedxml_codec.py:45-51 | `number` pairs are read (none when negative), or `struct.error` is raised |
| PackedXmlCodec.ReadElementDescriptors | packedxml_codec.py:45-51 | the loop reads the specified pairs |
| PackedXmlCodec.HexOf | packedxml_codec.py:88-91 | the hex text has two digits per byte read |
| PackedXmlCodec.BooleanOf | packedxml_codec.py:71-72 | a Boolean reads one byte and is `true` exactly when it is 1; no byte left raises `IndexError` |
| PackedXmlCodec.ValueOf | packedxml_codec.py:79-91 | reading a value never rewinds the stream |
| PackedXmlCodec.DataOf | packedxml_codec.py:74-92 | reading data keeps the element's tag and never rewinds |
| PackedXmlCodec.ElementOf | packedxml_codec.py:94-103 | reading an element keeps its tag and never rewinds |
| PackedXmlCodec.HeadOf | packedxml_codec.py:95-97 | the count, the own descriptor and one pair per child are read first, at least six bytes |
| PackedXmlCodec.ChildrenOf | packedxml_codec.py:99-103 | the children loop keeps the parent's tag and never rewinds |
| PackedXmlCodec.ReadString | packedxml_codec.py:53-54 | `read_string` reads the specified text and never fails |
| PackedXmlCodec.ReadNumber | packedxml_codec.py:56-65 | `read_number` reads as specified |
| PackedXmlCodec.ReadFloats | packedxml_codec.py:67-69 | `read_floats` reads `length // 4` groups |
| PackedXmlCodec.ReadBoolean | packedxml_codec.py:71-72 | `read_boolean` reads as specified |
| PackedXmlCodec.ReadValue | packedxml_codec.py:79-91 | the text branches of `read_data` read as specified |
| PackedXmlCodec.ReadData | packedxml_codec.py:74-92 | `read_data` reads as specified and returns the descriptor's `end` |
| PackedXmlCodec.ReadElement | packedxml_codec.py:94-103 | `read_element` reads as specified |
| PackedXmlCodec.ReadHead | packedxml_codec.py:95-97 | the head of an element is read as specified, advancing at least six bytes |
| PackedXmlCodec.ReadChildren | packedxml_codec.py:99-103 | the children loop reads as specified |
| PackedXmlCodec.DecodePackedXml | packedxml_codec.py:105-121 | `decode_packedxml` builds the specified tree |
| PackedXmlCodec.HeaderIgnored | packedxml_codec.py:107-108 | the header word is never checked: any five leading bytes decode alike |
| PackedXmlCodec.BooleanOneByte | packedxml_codec.py:86-87 | a Boolean reads one byte whatever the descriptor's length |
| PackedXmlCodec.UnknownTypesAsHex | packedxml_codec.py:88-91 | type 5 and every unknown type, negative ones included, become the hex of `end - offset` bytes |
| PackedXmlCodec.StringLength | packedxml_codec.py:79-80 | a string takes `end - offset` bytes (all the rest when that is negative), decoded with replacement, and never fails |
| PackedXmlCodec.NoChildren | packedxml_codec.py:95-98 | a count of zero or less reads no pairs: the element is its own data alone |
| PackedXmlCodec.ChildrenInOrder | packedxml_codec.py:98-103 | the parent's children come first, then one child per pair, in pair order, tagged with the name its index selects |
| PackedXmlCodec.DictionaryBytes | packedxml_codec.py:10-13 | definition of what `write_dictionary` writes: each word's UTF-8 and a NUL, then a NUL |
| PackedXmlCodec.DictionaryBytesLength | packedxml_codec.py:10-13 | `write_dictionary` writes the sum of `len(utf8(w)) + 1` over the words, plus 1, bytes |
| PackedXmlCodec.DecodeOf | packedxml_codec.py:105-121 | definition of `decode_packedxml` before serialisation: skip a 4-byte int and one byte, read the dictionary, read the root element; `DecodePackedXml` and `HeaderIgnored` are proved about it |
| PackedXmlReader.HeaderOf | packedxml_reader.py:85-89 | a header read consumes the magic word and one byte |
| PackedXmlReader.StringTillZeroOf | packedxml_reader.py:44-51 | a non-empty word always consumes bytes; a failure is a UTF-8 decoding error |
| PackedXmlReader.DictionaryOf | packedxml_reader.py:53-60 | reading the dictionary never rewinds |
| PackedXmlReader.DescriptorsOf | packedxml_reader.py:103-106 | `count` descriptors are read (none when negative) |
| PackedXmlReader.HeadOf | packedxml_reader.py:100-106 | the head of an element takes at least six bytes |
| PackedXmlReader.Row | packedxml_reader.py:127-128 | a row has no children |
| PackedXmlReader.WithRows | packedxml_reader.py:126-129 | adding `n` rows keeps tag and text and adds `n` children |
| PackedXmlReader.ValueOf | packedxml_reader.py:119-142 | reading a value keeps the tag and never rewinds |
| PackedXmlReader.DataOf | packedxml_reader.py:114-143 | reading data keeps the tag and never rewinds |
| PackedXmlReader.ElementOf | packedxml_reader.py:99-112 | reading an element keeps its tag and never rewinds |
| PackedXmlReader.ChildrenOf | packedxml_reader.py:108-112 | the children loop keeps the parent's tag and never rewinds |
| PackedXmlReader.WrongMagicRejected | packedxml_reader.py:85-88 | any first word other than 0x62A14E45 raises "File is not packed xml", and the decode fails with it |
| PackedXmlReader.MagicAccepted | packedxml_reader.py:85-89 | the magic bytes `45 4E A1 62` and any one byte make a header |
| PackedXmlReader.DictionaryAgrees | packedxml_reader.py:53-60 | when the decoder turns no bytes into the empty text, the strict and the lenient dictionary reads agree |
| PackedXmlReader.NameLookedUpFirst | packedxml_reader.py:104-106 | an index out of the dictionary raises `IndexError` before the descriptor is read, where the codec would raise `struct.error` |
| PackedXmlReader.NamesResolve | packedxml_reader.py:103-109 | every descriptor carries the name its index selects, so the second lookup cannot fail |
| PackedXmlReader.NoChildren | packedxml_reader.py:100-107 | a count of zero or less gives no children |
| PackedXmlReader.RowsInOrder | packedxml_reader.py:126-129 | rows come after the element's own children, in order |
| PackedXmlReader.RowOfFloats | packedxml_reader.py:126-128 | row `i` holds the `i`-th three floats |
| PackedXmlReader.TwelveFloatsAsRows | packedxml_reader.py:123-129 | exactly twelve floats give four children `row0`..`row3` of three floats each and leave the text alone |
| PackedXmlReader.RowNames | packedxml_reader.py:127 | the row tags are `row0`, `row1`, `row2`, `row3` |
| PackedXmlReader.OtherFloatsAsText | packedxml_reader.py:130-131 | any other number of floats sets the text and adds no child |
| PackedXmlReader.BooleanRules | packedxml_reader.py:132-138 | a length other than 1 gives `false` without reading; length 1 and byte 1 give `true`; any other byte raises "Boolean error", no byte left raises `struct.error` |
| PackedXmlReader.UnknownTypeRaises | packedxml_reader.py:141-142 | an unknown type, negative ones included, raises an error naming the element's tag and the type |
| PackedXmlReader.ChildrenInOrder | packedxml_reader.py:108-112 | the parent's children come first, then one child per descriptor, in order, tagged with its name |
| PackedXmlReader.PackedXmlReader.constructor | packedxml_reader.py:27-30 | the reader keeps its stream and root name |
| PackedXmlReader.PackedXmlReader.ReadInt32 | packedxml_reader.py:32-33 | reads a signed 32-bit integer as specified |
| PackedXmlReader.PackedXmlReader.ReadInt16 | packedxml_reader.py:35-36 | reads a signed 16-bit integer as specified |
| PackedXmlReader.PackedXmlReader.ReadSByte | packedxml_reader.py:38-39 | reads a signed byte as specified |
| PackedXmlReader.PackedXmlReader.ReadBytes | packedxml_reader.py:41-42 | reads `n` bytes, fewer at the end |
| PackedXmlReader.PackedXmlReader.ReadStringTillZero | packedxml_reader.py:44-51 | reads the specified word |
| PackedXmlReader.PackedXmlReader.ReadDictionary | packedxml_reader.py:53-60 | reads the specified dictionary |
| PackedXmlReader.PackedXmlReader.ReadString | packedxml_reader.py:62-63 | decodes `length` bytes strictly, failing with a decoding error |
| PackedXmlReader.PackedXmlReader.ReadNumber | packedxml_reader.py:65-74 | reads the specified number |
| PackedXmlReader.PackedXmlReader.ReadFloats | packedxml_reader.py:76-77 | reads `n` four-byte groups |
| PackedXmlReader.PackedXmlReader.ReadBase64AsText | packedxml_reader.py:79-83 | encodes `length` bytes as base64 |
| PackedXmlReader.PackedXmlReader.ReadHeader | packedxml_reader.py:85-89 | reads and checks the header as specified |
| PackedXmlReader.PackedXmlReader.Decode | packedxml_reader.py:91-97 | decodes the stream into the specified tree |
| PackedXmlReader.PackedXmlReader.ReadHead | packedxml_reader.py:100-106 | reads an element's head, at least six bytes |
| PackedXmlReader.PackedXmlReader.ReadDescriptors | packedxml_reader.py:103-106 | reads the specified descriptors |
| PackedXmlReader.PackedXmlReader.ReadElement | packedxml_reader.py:99-112 | reads the specified element |
| PackedXmlReader.PackedXmlReader.ReadChildren | packedxml_reader.py:108-112 | reads the specified children |
| PackedXmlReader.PackedXmlReader.ReadElementData | packedxml_reader.py:114-143 | reads the specified data and returns the descriptor's `end` |
| PackedXmlReader.PackedXmlReader.ReadValue | packedxml_reader.py:119-142 | reads a value of the given type as specified |
| PackedXmlReader.PackedXmlReader.AppendRows | packedxml_reader.py:126-129 | appends the four rows |
| PackedXmlReader.DecodePackedXmlStrict | packedxml_reader.py:145-146 | decodes the bytes into the specified tree |
| PackedXmlReader.DecodeOf | packedxml_reader.py:91-97 | definition of the strict `decode`: header with its magic check, dictionary, root element; `PackedXmlReader.Decode` is proved to compute it |
| PackedXmlReader.UnknownTypeError | packedxml_reader.py:141-142 | definition of the message of the unknown-type error: the element's tag and the type number; `UnknownTypeRaises` is proved about it |
| UiPathScanner.Earliest | ui_path_scanner.py:33-37 | nothing found, or a pattern occurring at the position found, at or after the start |
| UiPathScanner.EarliestIsLeftmost | ui_path_scanner.py:33-37 | nothing is found exactly when no pattern occurs; otherwise no pattern occurs earlier |
| UiPathScanner.EarliestFirstOnTie | ui_path_scanner.py:35 | of the patterns at that position, the first in list order wins |
| UiPathScanner.CutAtFirst | ui_path_scanner.py:53-56 | cutting at `c` keeps the part before its first occurrence |
| UiPathScanner.CleanIsSlice | ui_path_scanner.py:52-57 | the cleaned path is a piece of the slice and holds no `<` or `>` |
| UiPathScanner.CleanedSlice | ui_path_scanner.py:51-57 | the cleaned path is a piece of the line within the slice |
| UiPathScanner.NextPath | ui_path_scanner.py:29-51 | a turn that finds a path takes positions at or after the search start, with the end after the prefix |
| UiPathScanner.NextPathBounds | ui_path_scanner.py:31-50 | a turn stops exactly when no prefix, or no extension after it, is found; otherwise it starts at the leftmost prefix and ends right after the leftmost extension |
| UiPathScanner.PathsInOrder | ui_path_scanner.py:25-61 | the paths lie left to right in the line without overlapping, each a non-empty, stripped piece free of `<` and `>` |
| UiPathScanner.FindEarliest | ui_path_scanner.py:33-37 | the inner loop finds the specified position and pattern |
| UiPathScanner.ExtractPaths | ui_path_scanner.py:25-61 | the loop gives the specified paths; the search start grows strictly, so it ends |
| UiPathScanner.MatchEnd | ui_path_scanner.py:174-176 | a match ends at the first stop byte, or at the end of the content |
| UiPathScanner.PrefixMatchesShape | ui_path_scanner.py:169-185 | each raw match starts at an occurrence of the prefix and runs to its stop byte, left to right, and every occurrence lies in some match |
| UiPathScanner.Records | ui_path_scanner.py:177-180 | at most one record per raw match |
| UiPathScanner.RecordsNamed | ui_path_scanner.py:177-180 | every record names the file and a non-empty text |
| UiPathScanner.RecordsAppend | ui_path_scanner.py:177-180 | records of two runs of matches are the records of each |
| UiPathScanner.FreshSnoc | ui_path_scanner.py:181-184 | one more pair is added exactly when it is new |
| UiPathScanner.FreshIsDistinct | ui_path_scanner.py:181-184 | what is kept has no duplicates and nothing already seen, and every pair offered is kept or was seen |
| UiPathScanner.FreshAppend | ui_path_scanner.py:181-184 | dropping duplicates from two runs is dropping them from each, the second against the first |
| UiPathScanner.RecordStep | ui_path_scanner.py:177-184 | one raw match more adds its record when non-empty and new |
| UiPathScanner.RawMatchesNext | ui_path_scanner.py:168-185 | one more prefix adds its matches after those before it |
| UiPathScanner.NextPrefixRecords | ui_path_scanner.py:168-185 | one more prefix adds its new records |
| UiPathScanner.ScanMatchesNext | ui_path_scanner.py:164-196 | one more file adds its records after those before it |
| UiPathScanner.ScanMatchesFromFiles | ui_path_scanner.py:164-185 | every record names one of the files scanned and a non-empty text |
| UiPathScanner.Tagged | ui_path_scanner.py:222-224 | one entry per path, under the same file, in order |
| UiPathScanner.RecheckEntryShape | ui_path_scanner.py:218-227 | an entry is kept as it is when no path is found in it; otherwise it becomes one entry per path found, under the same file and in order |
| UiPathScanner.Texts | ui_path_scanner.py:217-227 | the texts of the entries, in order |
| UiPathScanner.TextsOfTagged | ui_path_scanner.py:222-224 | the tagged entries carry exactly the paths |
| UiPathScanner.RecheckOne | ui_path_scanner.py:218-227 | one turn of the recheck loop gives the specified entries |
| UiPathScanner.RecheckedNext | ui_path_scanner.py:217-227 | one entry more appends what it becomes |
| UiPathScanner.RecheckedAppend | ui_path_scanner.py:217-227 | rechecking two runs is rechecking each, so order is kept |
| UiPathScanner.RecheckedGrows | ui_path_scanner.py:217-230 | rechecking never shortens the list |
| UiPathScanner.FirstSuffix | ui_path_scanner.py:251-252 | the first suffix the lowercased text ends with, or -1 exactly when it ends with none |
| UiPathScanner.KeysAppend | ui_path_scanner.py:247 | the keys of two runs are the keys of each |
| UiPathScanner.KeyFreshSnoc | ui_path_scanner.py:258-260 | one more entry is added exactly when its key is new |
| UiPathScanner.KeyFreshAppend | ui_path_scanner.py:258-260 | filtering two runs is filtering each, the second against the keys of the first |
| UiPathScanner.KeyFreshIsDistinct | ui_path_scanner.py:258-260 | what is added has pairwise different keys, none already present, each from the entries offered; every offered key ends up present |
| UiPathScanner.CandidatesNext | ui_path_scanner.py:249-262 | one entry more offers its variants after those before |
| UiPathScanner.CompletedShape | ui_path_scanner.py:241-265 | the old list stays in front; the entries added have new, pairwise different keys and come from the variants; every variant's key is present at the end |
| UiPathScanner.OthersShape | ui_path_scanner.py:253-256 | replacing the suffix gives one entry per other suffix, under the same file, each the base followed by that suffix |
| UiPathScanner.VariantsOfShape | ui_path_scanner.py:250-262 | an entry ending with no suffix offers nothing; otherwise it offers the base with each other suffix |
| UiPathScanner.VariantsShape | ui_path_scanner.py:243-262 | for `.dds`/`.primitives`/`.visual`/`.model`, a text ending with one offers exactly three variants, the other three |
| UiPathScanner.OthersNext | ui_path_scanner.py:254-256 | one more suffix adds its variant unless it is the one replaced |
| UiPathScanner.CompletionStep | ui_path_scanner.py:249-262 | one more entry adds the new keys of its variants |
| UiPathScanner.CompleteEntry | ui_path_scanner.py:250-262 | one turn adds the entry's variants whose keys are new, and their keys; the first matching suffix alone is used |
| UiPathScanner.ReplaceSuffix | ui_path_scanner.py:253-261 | the `for other` loop adds each new variant and its key |
| UiPathScanner.SuffixesOnce | ui_path_scanner.py:243 | each suffix occurs once in the list |
| UiPathScanner.PathScanner.constructor | ui_path_scanner.py:69 | the window starts with no matches |
| UiPathScanner.PathScanner.Scan | ui_path_scanner.py:141-196 | the matches are the records of the files in order, each once; a pair is in the list exactly when some file offers it |
| UiPathScanner.PathScanner.ProcessFile | ui_path_scanner.py:164-185 | one file appends its new records and adds them to the unique set |
| UiPathScanner.PathScanner.RecordPrefix | ui_path_scanner.py:169-185 | one prefix appends its new records and adds them to the unique set |
| UiPathScanner.PathScanner.Recheck | ui_path_scanner.py:211-230 | the list becomes the rechecked list |
| UiPathScanner.PathScanner.ModelComplete | ui_path_scanner.py:241-265 | the list becomes the completed list |
| UiPathScanner.ExtractPathsOf | ui_path_scanner.py:25-61 | definition of `extract_paths`; `PathsInOrder` proves its paths are stripped, non-empty pieces of the line, left to right and non-overlapping |
| UiPathScanner.PathsFrom | ui_path_scanner.py:29-60 | definition of the paths the loop finds once `search_start` is reached, one `NextPath` step at a time |
| UiPathScanner.PrefixMatches | ui_path_scanner.py:169-185 | definition of the raw matches of one prefix in a file, each from a prefix occurrence to its stop byte; `PrefixMatchesShape` is proved about it |
| UiPathScanner.RawMatches | ui_path_scanner.py:168-185 | definition of a file's raw matches, prefix after prefix in list order; `RawMatchesNext` gives one prefix more |
| UiPathScanner.FileMatches | ui_path_scanner.py:168-184 | definition of the records a file offers, before duplicates are dropped: its decoded non-empty raw matches tagged with its path |
| UiPathScanner.Fresh | ui_path_scanner.py:181-184 | definition of the `unique_set` filter: each item kept once, the first time it is seen; `FreshIsDistinct` proves what it keeps |
| UiPathScanner.ScanMatches | ui_path_scanner.py:194-196 | definition of the records of a list of files, file after file; `ScanMatchesFromFiles` proves each record names a scanned file |
| UiPathScanner.RecheckEntry | ui_path_scanner.py:218-227 | definition of one recheck turn: the entry itself when `extract_paths` finds nothing, else one entry per path found; `RecheckEntryShape` is proved about it |
| UiPathScanner.Rechecked | ui_path_scanner.py:215-227 | definition of `new_matches` of `_recheck_impl`, entry after entry; `RecheckedAppend` and `RecheckedGrows` are proved about it |
| UiPathScanner.Variants | ui_path_scanner.py:250-262 | definition of the entries one match proposes: the other three suffixes on its base, for the first suffix its lower-case text ends with; `VariantsShape` states them |
| UiPathScanner.VariantsOf | ui_path_scanner.py:250-262 | definition of `Variants` for any suffix list; `VariantsOfShape` proves nothing is proposed when no suffix matches |
| UiPathScanner.KeyFresh | ui_path_scanner.py:258-260 | definition of the `exist_set` filter: a proposal is kept when its key, the path and the lower-cased text, is new; `KeyFreshIsDistinct` proves what it keeps |
| UiPathScanner.Completed | ui_path_scanner.py:246-265 | definition of the list `_model_complete_impl` leaves: the old list, then the proposals with new keys; `CompletedShape` is proved about it |
| UiPathScanner.PlainPrefixesScannable | ui_path_scanner.py:153 | the UTF-8 of prefixes that each start with a lower-case ASCII letter is non-empty and starts with no stop byte |
| UiPathScanner.PrefixBytesScannable | ui_path_scanner.py:18-23 | the UTF-8 of every one of the 62 `PREFIXES` is non-empty and starts with no byte of `\x00 \r\n;,"')`, as `Scan` requires |
| PyText.Lower | core_unipacker.py:5 | `lower()` keeps the length and maps each character through the ASCII case map |
| PyText.Strip | core_unipacker.py:5 | `strip()` leaves no white space at either end |
| PyText.Replace | core_unipacker.py:5 | definition of `str.replace` for a non-empty pattern: left to right, non-overlapping; `CollapseFour` and `CollapseTwo` show the non-overlapping behaviour |
| PyText.Split | Hashtools/utils.py:19 | `split(d)` gives at least one part, no part holds `d`, one part exactly when `d` is absent, and at least two otherwise |
| PyText.SplitLines | Hashtools/utils.py:15 | `splitlines()` gives lines without line-break characters |
| PyText.Find | ui_path_scanner.py:34 | `find(pat, from)` gives -1 exactly when `pat` occurs nowhere at or after `from`, else the first position at or after `from` where it occurs |
| PyText.StartsWith | Hashtools/utils.py:17 | definition of `startswith`: the pattern is the first `len(pat)` items |
| PyText.EndsWith | ui_path_scanner.py:252 | definition of `endswith`: the pattern is the last `len(pat)` items |
| PyText.IsSpace | core_unipacker.py:5 | definition of the white space `strip()` removes: the Unicode characters for which `str.isspace()` holds |
| Numerals.ParseInt | Hashtools/utils.py:27 | definition of `int(s)` on ASCII digits: an optional sign, digits with single underscores between them, else failure; `DecimalField` proves it reads `str(n)` back |
| Numerals.ParseHexInt | Hashtools/utils.py:25 | definition of `int(s, 16)` on ASCII digits with an optional sign and `0x` prefix, else failure; `HexField` proves it reads the hex form back |
| Numerals.Decimal | Hashtools/wdf_parser.py:35 | definition of `str(n)`: a `-` for negatives, then the decimal digits; `DecimalChars` and `DecimalNoBreak` state its characters |
| Numerals.HexPadded | Hashtools/wdf_parser.py:35 | `%0NX` gives at least `N` and at least one characters, every one a hexadecimal digit |
| Numerals.HexBytes | packedxml_codec.py:89 | `bytes.hex()` gives two characters per byte |
| Bytes.U16At | packedxml_codec.py:33-34 | an unsigned little-endian 16-bit read is below 2^16 |
| Bytes.U32At | core_unipacker.py:68 | an unsigned little-endian 32-bit read is below 2^32 |
| Bytes.U64At | packedxml_codec.py:63-64 | an unsigned little-endian 64-bit read is below 2^64 |
| Bytes.I8At | packedxml_codec.py:57-58 | definition of `struct.unpack('<b')`: the byte read as two's complement; `SignedLittleEndian` bounds it |
| Bytes.I16At | packedxml_codec.py:33-34 | definition of `struct.unpack('<h')`: the 16-bit word read as two's complement |
| Bytes.I32At | core_unipacker.py:67 | definition of `struct.unpack('<i')`: the 32-bit word read as two's complement |
| Bytes.I64At | packedxml_codec.py:63-64 | definition of `struct.unpack('<q')`: the 64-bit word read as two's complement |
| Bytes.Slice | core_unipacker.py:73 | `data[a:b]` is the bytes from `a` up to `b` clipped at the end, and empty when `b <= a` or `a` is past the end |
| Bytes.ReadAt | core_unipacker.py:85-86 | `seek(pos)` then `read(n)` gives the next `n` bytes clipped at the end, and all the rest for a negative `n` |
| Bytes.Utf8 | core_unipacker.py:11 | `encode('utf-8')` of `len(s)` characters gives between `len(s)` and `4 * len(s)` bytes |

## Left out

- File system, seeking and file writes: archives, list files and scanned files are byte sequences and texts given as parameters, and outputs are returned values (`OutputFile`, `Extraction`).
- Logging, progress bars, message boxes, the log widget, the tree view and every other Tk widget (including `export_csv` and `export_lst`, which only write the lists to files).
- Threads and the thread pool of `scan`: files are scanned one after another in list order, so the interleaving of `self.matches` between threads is not modelled.
- The early return of `scan` on a missing directory (ui_path_scanner.py:144-147) and unreadable files (ui_path_scanner.py:186-187).
- The exception handlers around the writes of `wdf_unpack` and `wdf_unpack_python`: an extraction is its bytes, and a write error is not modelled.
- The external tool runners (ui_unpacker.py:131-173) and the `unpack` wrapper that picks a reader.
- UTF-8 decoding is a parameter (`decode` in the scanner and in `parse_wdf`, `Codecs` in the packed-XML modules); encoding is modelled.
- `CRC32Hash`: zlib's `crc32` is a parameter; only the masking around it is modelled.
- Float decoding and `%.6f` formatting, base64 encoding and XML serialisation are parameters (`Codecs`); the tree before serialisation is the result.
- `lower()` is modelled on ASCII letters only; other characters are left unchanged.
- The change counters and log messages of `_recheck_impl` and `_model_complete_impl`.
- The Python recursion limit on deeply nested packed XML.
- UiPathScanner.PathScanner.Scan: the prefix bytes are a parameter that must satisfy `ScanPrefixes`: no prefix is empty and none starts with a stop byte. A prefix that breaks this would make the source loop forever. `UiPathScanner.PrefixBytesScannable` proves that the UTF-8 of the source's `PREFIXES` (ui_path_scanner.py:18-23, line 153) meets this.
- UiPathScanner.ExtractPaths: requires every extension to be non-empty (`NoneEmpty`), and `COMMON_EXTS` is (`UiPathScanner.CommonExtsNonEmpty`). With an empty extension the source never ends (ui_path_scanner.py:41-60). `lower_line.find('', prefix_pos)` gives `prefix_pos`, so `end == prefix_pos` and the path is empty and dropped. Then `search_start = end` finds the same prefix again.
- Numerals.ParseInt and Numerals.ParseHexInt: `int()` is modelled on ASCII digits only. Python's `int()` also accepts other Unicode decimal digits (`int('１２３') == 123`). A sample hash written in such digits is therefore unparsable in the model, and `Samples.LineSample` drops a line (`a.tga,１２３`) that `parse_samples` keeps. Python (since 3.11) also raises `ValueError` for a decimal string of more than 4300 digits (`sys.int_max_str_digits`), and `parse_samples` drops such a line; `ParseInt` has no such limit, so `Samples.LineSample` keeps it. Base 16 is not limited.
- WdfExporter.Extension: models `os.path.splitext` with the separators `/` and `\` only; drive letters (`C:name.bmp`) are not treated specially.
