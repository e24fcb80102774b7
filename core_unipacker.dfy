/** `core_unipacker.py`: the path normalisation `string_adjust`, the path
    hash `wdf_string_id`, and the header, table and uid-map part of
    `wdf_unpack`.  `ui_unpacker.py` carries the same two functions with the
    same text; its unpacker is modelled in `UiUnpacker` on top of these. */
module CoreUnipacker {

  import opened Options
  import opened Bytes
  import opened PyText
  import opened HashWords
  import opened WdfIndex

  const SLASH: string := "/"
  const SEP: string := "\\"
  const DOUBLE_SEP: string := "\\\\"

  /** `s.strip().replace('/', '\\').replace('\\\\', '\\').lower()`. */
  function StringAdjust(s: string): string
  {
    Lower(Replace(Replace(Strip(s), SLASH, SEP), DOUBLE_SEP, SEP))
  }

  /** The shape every normalised path has. */
  predicate Adjusted(t: string)
  {
    && '/' !in t
    && (forall i :: 0 <= i < |t| ==> !IsUpper(t[i]))
    && (t == [] || (!IsSpace(t[0]) && !IsSpace(t[|t| - 1])))
  }

  /** A normalised path has no `/`, no ASCII upper case and no surrounding white space. */
  lemma StringAdjustShape(s: string)
    ensures Adjusted(StringAdjust(s))
  {
    var x0 := Strip(s);
    var x1 := Replace(x0, SLASH, SEP);
    var x2 := Replace(x1, DOUBLE_SEP, SEP);
    ReplaceRemoves(x0, '/', '\\');
    ReplaceKeepsOut(x1, DOUBLE_SEP, SEP, '/');
    if x0 != [] {
      ReplaceEnds(x0, SLASH, SEP);
      ReplaceEnds(x1, DOUBLE_SEP, SEP);
    }
    var r := Lower(x2);
    assert '/' !in r by {
      forall i | 0 <= i < |r| ensures r[i] != '/' {
        assert x2[i] in x2;
      }
    }
  }

  /** Normalising a normalised path leaves it unchanged exactly when it holds
      no doubled separator: each `\\\\` pair collapses once per call, so a run
      of four separators becomes two, then one. */
  lemma StringAdjustFixedPoint(t: string)
    ensures StringAdjust(t) == t <==> Adjusted(t) && forall i :: !OccursAt(t, DOUBLE_SEP, i)
  {
    if StringAdjust(t) == t {
      StringAdjustShape(t);
      forall i | OccursAt(t, DOUBLE_SEP, i) ensures false {
        AdjustedShrinks(t, i);
      }
    }
    if Adjusted(t) && forall i :: !OccursAt(t, DOUBLE_SEP, i) {
      StripNoSpaceEnds(t);
      ReplaceAbsentItem(t, '/', SEP);
      ReplaceAbsent(t, DOUBLE_SEP, SEP);
      assert Lower(t) == t;
    }
  }

  lemma AdjustedShrinks(t: string, i: int)
    requires Adjusted(t) && OccursAt(t, DOUBLE_SEP, i)
    ensures |StringAdjust(t)| < |t|
  {
    StripNoSpaceEnds(t);
    ReplaceAbsentItem(t, '/', SEP);
    ReplaceShrinks(t, DOUBLE_SEP, SEP, i);
  }

  /** On a path already in normal shape, only the doubled separators change. */
  lemma StringAdjustOfAdjusted(t: string)
    requires Adjusted(t)
    ensures StringAdjust(t) == Replace(t, DOUBLE_SEP, SEP)
  {
    StripNoSpaceEnds(t);
    ReplaceAbsentItem(t, '/', SEP);
    LowerReplace(t, DOUBLE_SEP, SEP);
    assert Lower(t) == t;
  }

  const FOUR_SEPS: string := DOUBLE_SEP + DOUBLE_SEP

  lemma CollapseFour()
    ensures Replace(FOUR_SEPS, DOUBLE_SEP, SEP) == DOUBLE_SEP
  {
    assert FOUR_SEPS[..|DOUBLE_SEP|] == DOUBLE_SEP && FOUR_SEPS[|DOUBLE_SEP|..] == DOUBLE_SEP;
    CollapseTwo();
  }

  lemma CollapseTwo()
    ensures Replace(DOUBLE_SEP, DOUBLE_SEP, SEP) == SEP
  {
    assert DOUBLE_SEP[2..] == [];
  }

  /** Normalisation is not idempotent: four separators collapse to two, and two to one. */
  lemma StringAdjustNotIdempotent()
    ensures StringAdjust(FOUR_SEPS) == DOUBLE_SEP
    ensures StringAdjust(StringAdjust(FOUR_SEPS)) == SEP
  {
    assert Adjusted(FOUR_SEPS);
    assert Adjusted(DOUBLE_SEP);
    StringAdjustOfAdjusted(FOUR_SEPS);
    StringAdjustOfAdjusted(DOUBLE_SEP);
    CollapseFour();
    CollapseTwo();
  }

  /** Case does not matter: normalising `s.lower()` gives the same path. */
  lemma StringAdjustIgnoresCase(s: string)
    ensures StringAdjust(Lower(s)) == StringAdjust(s)
  {
    LowerStrip(s);
    var x0 := Strip(s);
    LowerReplace(x0, SLASH, SEP);
    LowerReplace(Replace(x0, SLASH, SEP), DOUBLE_SEP, SEP);
    LowerIdempotent(Replace(Replace(x0, SLASH, SEP), DOUBLE_SEP, SEP));
  }

  /** The kind of separator does not matter: writing `/` as `\\` beforehand gives the same path. */
  lemma StringAdjustIgnoresSlashes(s: string)
    ensures StringAdjust(Replace(s, SLASH, SEP)) == StringAdjust(s)
  {
    ReplaceOneStrip(s, '/', '\\');
    ReplaceRemoves(Strip(s), '/', '\\');
    ReplaceAbsentItem(Replace(Strip(s), SLASH, SEP), '/', SEP);
  }

  // ---------------------------------------------------------------------------
  // wdf_string_id

  /** One round on the word `w`: both x and y take the word by xor; `e1` is
      built from y and `e2` from x, both after the xor and before either
      multiply; y takes 2 more when adding `e2` once more wraps around. */
  function CoreRound(r: Registers, w: u32): Registers
  {
    var v := RotateLeft1(r.v);
    var b := W_XOR ^ v;
    var x := r.x ^ w;
    var y := r.y ^ w;
    var e1 := ((b + y) | OR_1) & AND_1;
    var e2 := ((b + x) | OR_2) & AND_2;
    var y1 := Mul(y, e2) + e2;
    Registers(v, Mul(x, e1) + e1, if y1 + e2 < y1 then y1 + 2 else y1)
  }

  /** The registers after one round per word, in order. */
  function CoreRounds(ws: seq<u32>): Registers
    decreases |ws|
  {
    if ws == [] then INITIAL else CoreRound(CoreRounds(ws[..|ws| - 1]), ws[|ws| - 1])
  }

  /** `m[0 .. i+2)`: the packed words followed by the two trailer words. */
  function Message(b: seq<byte>): (ws: seq<u32>)
    ensures |ws| == WordCount(b) + 2
    ensures ws[..WordCount(b)] == PackedWords(b)
    ensures ws[WordCount(b)] == TRAILER_0 && ws[WordCount(b) + 1] == TRAILER_1
  {
    PackedWords(b) + [TRAILER_0, TRAILER_1]
  }

  /** The hashed bytes: the UTF-8 of the normalised path, cut to 256. */
  function PathBytes(s: string): (b: seq<byte>)
    ensures |b| <= MAX_BYTES
  {
    Truncated(Utf8(StringAdjust(s)))
  }

  /** The uid of a path: `x ^ y` after the rounds, below 2^32. */
  function WdfStringIdOf(s: string): (id: nat)
    ensures id < TWO_32
  {
    var r := CoreRounds(Message(PathBytes(s)));
    (r.x ^ r.y) as nat
  }

  /** `wdf_string_id`: normalises and encodes the path, packs the words,
      then runs the rounds. */
  method WdfStringId(s: string) returns (id: nat)
    ensures id == WdfStringIdOf(s)
  {
    var t := StringAdjust(s);
    var b := Truncated(Utf8(t));
    var m, i := PackMessage(b);
    var r := RunRounds(m, i + 2);
    id := (r.x ^ r.y) as nat;
  }

  /** Fills the 70-slot word array with the packed words, then writes the
      trailer words at `i` and `i + 1` (inside the array, since `i <= 64`). */
  method PackMessage(b: seq<byte>) returns (m: array<u32>, i: nat)
    requires |b| <= MAX_BYTES
    ensures fresh(m) && m.Length == WORD_SLOTS
    ensures i == WordCount(b) && i + 2 <= m.Length
    ensures m[..i + 2] == Message(b)
  {
    WordCountBound(b);
    m := FillWords(b);
    i := (|b| + 3) / 4;
    m[i] := TRAILER_0;
    m[i + 1] := TRAILER_1;
  }

  /** The round loop over `m[0 .. n)`, one `CoreRound` per word. */
  method RunRounds(m: array<u32>, n: nat) returns (r: Registers)
    requires n <= m.Length
    ensures r == CoreRounds(m[..n])
  {
    var v, esi, edi := V_INIT, X_INIT, Y_INIT;
    var ecx := 0;
    while ecx < n
      invariant 0 <= ecx <= n
      invariant Registers(v, esi, edi) == CoreRounds(m[..ecx])
    {
      var next := CoreRound(Registers(v, esi, edi), m[ecx]);
      v, esi, edi := next.v, next.x, next.y;
      CoreRoundsPrefix(m[..], ecx);
      ecx := ecx + 1;
    }
    r := Registers(v, esi, edi);
  }

  lemma CoreRoundsPrefix(ws: seq<u32>, k: nat)
    requires k < |ws|
    ensures CoreRounds(ws[..k + 1]) == CoreRound(CoreRounds(ws[..k]), ws[k])
  {
    assert ws[..k + 1][..k] == ws[..k];
  }

  /** `v` is rotated left by one bit per round, whatever the words. */
  lemma {:induction false} RotationSchedule(ws: seq<u32>)
    ensures CoreRounds(ws).v == RotateLeftN(V_INIT, |ws|)
    decreases |ws|
  {
    if ws != [] {
      RotationSchedule(ws[..|ws| - 1]);
    }
  }

  /** The uid depends on the path only through its normalisation. */
  lemma WdfStringIdOfAdjusted(s: string, t: string)
    requires StringAdjust(s) == StringAdjust(t)
    ensures WdfStringIdOf(s) == WdfStringIdOf(t)
  {
  }

  lemma WdfStringIdIgnoresCase(s: string)
    ensures WdfStringIdOf(Lower(s)) == WdfStringIdOf(s)
  {
    StringAdjustIgnoresCase(s);
  }

  lemma WdfStringIdIgnoresSlashes(s: string)
    ensures WdfStringIdOf(Replace(s, SLASH, SEP)) == WdfStringIdOf(s)
  {
    StringAdjustIgnoresSlashes(s);
  }

  // ---------------------------------------------------------------------------
  // wdf_unpack (header, table and uid map)

  /** What happens to one listed path: its bytes are extracted, or it is not
      in the archive and processing goes on with the next path. */
  datatype Extraction = Extracted(path: string, data: seq<byte>) | NotFound(path: string)

  /** `uid_map.get(wdf_string_id(path))`; a found record's bytes are
      `f.seek(offset); f.read(size)`, cut short at the end of the archive. */
  function ExtractionOf(archive: seq<byte>, uidMap: map<nat, Entry>, path: string): (x: Extraction)
    ensures x.path == path
    ensures x.Extracted? <==> WdfStringIdOf(path) in uidMap
  {
    var uid := WdfStringIdOf(path);
    if uid in uidMap then
      var e := uidMap[uid];
      Extracted(path, Slice(archive, e.offset, e.offset + e.size))
    else NotFound(path)
  }

  /** The outcomes for the listed paths, in list order. */
  function ExtractAll(archive: seq<byte>, uidMap: map<nat, Entry>, paths: seq<string>): (xs: seq<Extraction>)
    ensures |xs| == |paths|
    decreases |paths|
  {
    if paths == [] then []
    else ExtractAll(archive, uidMap, paths[..|paths| - 1]) + [ExtractionOf(archive, uidMap, paths[|paths| - 1])]
  }

  /** Each listed path gets its own outcome, at its own position. */
  lemma {:induction false} ExtractAllAt(archive: seq<byte>, uidMap: map<nat, Entry>, paths: seq<string>, k: nat)
    requires k < |paths|
    ensures ExtractAll(archive, uidMap, paths)[k] == ExtractionOf(archive, uidMap, paths[k])
    decreases |paths|
  {
    if k < |paths| - 1 {
      ExtractAllAt(archive, uidMap, paths[..|paths| - 1], k);
    }
  }

  /** The loop over the listed paths: one lookup per path, and a path that is
      not found does not stop the loop. */
  method ExtractListed(archive: seq<byte>, uidMap: map<nat, Entry>, paths: seq<string>)
    returns (out: seq<Extraction>)
    ensures out == ExtractAll(archive, uidMap, paths)
  {
    out := [];
    var k := 0;
    while k < |paths|
      invariant 0 <= k <= |paths|
      invariant out == ExtractAll(archive, uidMap, paths[..k])
    {
      var x := ExtractOne(archive, uidMap, paths[k]);
      ExtractAllPrefix(archive, uidMap, paths, k);
      out := out + [x];
      k := k + 1;
    }
    assert paths[..k] == paths;
  }

  lemma ExtractAllPrefix(archive: seq<byte>, uidMap: map<nat, Entry>, paths: seq<string>, k: nat)
    requires k < |paths|
    ensures ExtractAll(archive, uidMap, paths[..k + 1]) ==
      ExtractAll(archive, uidMap, paths[..k]) + [ExtractionOf(archive, uidMap, paths[k])]
  {
    assert paths[..k + 1][..k] == paths[..k];
  }

  /** The body of that loop for one path. */
  method ExtractOne(archive: seq<byte>, uidMap: map<nat, Entry>, path: string) returns (x: Extraction)
    ensures x == ExtractionOf(archive, uidMap, path)
  {
    var uid := WdfStringId(path);
    if uid in uidMap {
      var e := uidMap[uid];
      x := Extracted(path, Slice(archive, e.offset, e.offset + e.size));
    } else {
      x := NotFound(path);
    }
  }

  /** A found record yields the archive bytes at its offset, never more than its size. */
  lemma ExtractedBytes(archive: seq<byte>, uidMap: map<nat, Entry>, path: string)
    requires WdfStringIdOf(path) in uidMap
    ensures var e := uidMap[WdfStringIdOf(path)];
      var x := ExtractionOf(archive, uidMap, path);
      |x.data| <= e.size && (x.data == [] || x.data == archive[e.offset..e.offset + |x.data|])
  {
  }

  /** `[line.strip() for line in f if line.strip()]`. */
  function ListedPaths(lines: seq<string>): (ps: seq<string>)
    ensures |ps| <= |lines|
    ensures forall k :: 0 <= k < |ps| ==> ps[k] != [] && Strip(ps[k]) == ps[k]
    decreases |lines|
  {
    if lines == [] then []
    else
      var p := Strip(lines[0]);
      StripNoSpaceEnds(p);
      if p == [] then ListedPaths(lines[1..]) else [p] + ListedPaths(lines[1..])
  }

  datatype UnpackResult =
    | NotWdf                              // short header or unknown magic
    | Failed(error: string)               // an uncaught exception
    | Unpacked(outcomes: seq<Extraction>)

  /** The index bytes a valid header designates. */
  function CoreIndex(archive: seq<byte>, h: Header): seq<byte>
  {
    IndexBytes(archive, h.indexOffset, h.count * RECORD_32)
  }

  /** `wdf_unpack` on an archive and the lines of its list file. */
  method WdfUnpack(archive: seq<byte>, lines: seq<string>) returns (r: UnpackResult)
    ensures r.NotWdf? <==> ReadHeader(archive, true).None? || !CoreMagic(ReadHeader(archive, true).value.magic)
    ensures !r.NotWdf? ==>
      var h := ReadHeader(archive, true).value;
      var index := CoreIndex(archive, h);
      && (r.Failed? <==> !TableFits(index, Clamp(h.count)))
      && (r.Unpacked? ==>
            r.outcomes == ExtractAll(archive, UidMap(Table32(index, Clamp(h.count), false)), ListedPaths(lines)))
  {
    var paths := ListedPaths(lines);
    var header := ReadHeader(archive, true);
    if header.None? || !CoreMagic(header.value.magic) {
      return NotWdf;
    }
    var h := header.value;
    var index := IndexBytes(archive, h.indexOffset, h.count * RECORD_32);
    var table := ReadTable32(index, h.count, false);
    if table.Err? {
      return Failed(table.error);
    }
    var uidMap := UidMap(table.value);
    var outcomes := ExtractListed(archive, uidMap, paths);
    return Unpacked(outcomes);
  }
}
