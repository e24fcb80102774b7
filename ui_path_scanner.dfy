/** `ui_path_scanner.py`: finding resource paths in text lines
    (`extract_paths`), in raw file contents (the byte scan of `scan`), and the
    two list passes over the matches found (`recheck` and model completion). */
module UiPathScanner {

  import opened Options
  import opened Bytes
  import opened PyText
  import opened Seqs

  /** `COMMON_EXTS`, in the source's order (which decides ties). */
  const COMMON_EXTS: seq<string> := [
    ".dds", ".model", ".bmp", ".xml", ".wav", ".tga", ".texanim", ".visual",
    ".primitives", ".mfm", ".py", ".fxo", ".gui", ".json", ".html", ".cab",
    ".asp", ".ppchain", ".mp3", ".animation", ".png", ".chunk", ".fx"]

  /** `PREFIXES`, duplicates included, one constant per line of the source's list. */
  const PREFIXES: seq<string> := PREFIX_ROW_1 + PREFIX_ROW_2 + PREFIX_ROW_3 + PREFIX_ROW_4
  const PREFIX_ROW_1: seq<string> := [
    "char/", "flora/", "effect/", "env/", "item/", "light/", "music/", "particle/", "shaders/", "sound/", "system/", "tex/", "gui/"]
  const PREFIX_ROW_2: seq<string> := [
    "smap/", "entities/", "com/", "player/", "ani/", "jm/", "bj/", "bs/", "cy/", "dk/", "gl/", "gm/", "hq/", "jl/", "jn/", "kl/", "ls/"]
  const PREFIX_ROW_3: seq<string> := [
    "xy/", "yc/", "zb/", "zy/", "zz/", "test/", "test3/", "zb/", "yl/", "jl/", "jn/", "hq/", "bs/", "jwh/", "zy/", "zz/", "jm/", "jm_bx/"]
  const PREFIX_ROW_4: seq<string> := [
    "jm_hh/", "jm_jndk/", "jm_ly/", "jm_tj/", "jm_tx/", "jm_wl/", "jm_yq/", "jm_yj/", "jm_yl/", "jm_zydk/", "zjm/", "tl/", "gm01/", "gm02/"]

  predicate NoneEmpty(pats: seq<string>)
  {
    forall k :: 0 <= k < |pats| ==> pats[k] != []
  }

  // ---------------------------------------------------------------------------
  // extract_paths

  /** The inner `for` loops of `extract_paths`: the position of the leftmost
      occurrence at or after `from` of any pattern, and which pattern it is
      (the first in list order on a tie); `(-1, "")` when there is none. */
  function Earliest(s: string, pats: seq<string>, from: nat): (r: (int, string))
    ensures r.0 == -1 || (from <= r.0 && r.1 in pats && OccursAt(s, r.1, r.0))
    decreases |pats|
  {
    if pats == [] then (-1, "")
    else
      var r0 := Earliest(s, pats[..|pats| - 1], from);
      var pos := Find(s, pats[|pats| - 1], from);
      if pos != -1 && (r0.0 == -1 || pos < r0.0) then (pos, pats[|pats| - 1]) else r0
  }

  /** `Earliest` finds nothing exactly when no pattern occurs, and no
      pattern occurs before the position it finds. */
  lemma {:induction false} EarliestIsLeftmost(s: string, pats: seq<string>, from: nat)
    ensures var r := Earliest(s, pats, from);
      && (r.0 == -1 <==> forall k :: 0 <= k < |pats| ==> Find(s, pats[k], from) == -1)
      && (r.0 != -1 ==> forall k, i :: 0 <= k < |pats| && from <= i < r.0 ==> !OccursAt(s, pats[k], i))
    decreases |pats|
  {
    if pats != [] {
      var init := pats[..|pats| - 1];
      EarliestIsLeftmost(s, init, from);
      assert forall k :: 0 <= k < |init| ==> pats[k] == init[k];
    }
  }

  /** Among the patterns found at that position, `Earliest` names the first. */
  lemma {:induction false} EarliestFirstOnTie(s: string, pats: seq<string>, from: nat)
    ensures var r := Earliest(s, pats, from);
      r.0 != -1 ==>
        exists k :: 0 <= k < |pats| && pats[k] == r.1 && Find(s, pats[k], from) == r.0 &&
          (forall j :: 0 <= j < k ==> Find(s, pats[j], from) != r.0)
    decreases |pats|
  {
    if pats != [] {
      var init := pats[..|pats| - 1];
      var last := pats[|pats| - 1];
      EarliestFirstOnTie(s, init, from);
      EarliestIsLeftmost(s, init, from);
      var r0 := Earliest(s, init, from);
      var pos := Find(s, last, from);
      assert forall k :: 0 <= k < |init| ==> pats[k] == init[k];
      if pos != -1 && (r0.0 == -1 || pos < r0.0) {
        var k := |pats| - 1;
        assert pats[k] == last && Find(s, pats[k], from) == pos;
      } else if r0.0 != -1 {
        var k :| 0 <= k < |init| && init[k] == r0.1 && Find(s, init[k], from) == r0.0 &&
          forall j :: 0 <= j < k ==> Find(s, init[j], from) != r0.0;
        assert pats[k] == r0.1 && Find(s, pats[k], from) == r0.0;
      }
    }
  }

  /** `path[:path.find(c)]` when `c` occurs, else `path`. */
  function CutAt(path: string, c: char): (r: string)
  {
    var k := Find(path, [c], 0);
    if k == -1 then path else path[..k]
  }

  /** `CutAt` keeps the part of `path` before the first `c`. */
  lemma CutAtFirst(path: string, c: char)
    ensures var r := CutAt(path, c);
      && |r| <= |path| && r == path[..|r|] && c !in r
      && (c in path ==> |r| < |path| && path[|r|] == c)
  {
    var k := Find(path, [c], 0);
    var n := if k == -1 then |path| else k;
    forall i | 0 <= i < n ensures path[i] != c {
      assert !OccursAt(path, [c], i);
      assert path[i..i + 1] == [path[i]];
    }
    if k != -1 {
      assert path[k..k + 1] == [c];
    }
  }

  /** The slice cut at the first `<`, then at the first `>`, then stripped. */
  function Clean(path: string): (r: string)
  {
    Strip(CutAt(CutAt(path, '<'), '>'))
  }

  /** Cutting at the first `<` and then at the first `>` keeps a prefix free of both. */
  lemma CutBothPrefix(path: string) returns (t: string)
    ensures t == CutAt(CutAt(path, '<'), '>')
    ensures |t| <= |path| && t == path[..|t|]
    ensures '<' !in t && '>' !in t
  {
    var t1 := CutAt(path, '<');
    t := CutAt(t1, '>');
    CutAtFirst(path, '<');
    CutAtFirst(t1, '>');
    SliceOfSlice(path, 0, |t1|, 0, |t|);
    forall i | 0 <= i < |t|
      ensures t[i] != '<'
    {
      assert t[i] == t1[i];
      assert t1[i] in t1;
    }
  }

  lemma SliceKeepsOut(t: string, lo: nat, hi: nat, c: char)
    requires lo <= hi <= |t| && c !in t
    ensures c !in t[lo..hi]
  {
    forall i | 0 <= i < hi - lo
      ensures t[lo..hi][i] != c
    {
      assert t[lo..hi][i] == t[lo + i];
      assert t[lo + i] in t;
    }
  }

  /** `Clean` keeps a piece of its argument, free of `<` and `>`. */
  lemma CleanIsSlice(path: string) returns (lo: nat, hi: nat)
    ensures lo <= hi <= |path| && Clean(path) == path[lo..hi]
    ensures '<' !in Clean(path) && '>' !in Clean(path)
  {
    var t := CutBothPrefix(path);
    var n, m := StripBounds(t);
    lo, hi := n, |t| - m;
    SliceOfSlice(path, 0, |t|, lo, hi);
    SliceKeepsOut(t, lo, hi, '<');
    SliceKeepsOut(t, lo, hi, '>');
  }

  /** The cleaned slice `line[at:end]` is itself a slice of `line`. */
  lemma CleanedSlice(line: string, at: nat, end: nat) returns (lo: nat, hi: nat)
    requires at <= end <= |line|
    ensures at <= lo <= hi <= end && Clean(line[at..end]) == line[lo..hi]
    ensures '<' !in Clean(line[at..end]) && '>' !in Clean(line[at..end])
  {
    var a, b := CleanIsSlice(line[at..end]);
    SliceOfSlice(line, at, end, a, b);
    lo, hi := at + a, at + b;
  }

  /** One turn of the `while` loop of `extract_paths`: it stops, or it takes
      the slice `line[at:end]` (dropped when empty once cleaned) and moves the
      search start on to `end`. */
  datatype Step = Stop | Found(at: nat, end: nat)

  /** The turn of `extract_paths` whose search starts at `start`.  `lower` is
      `line.lower()`, searched in place of `line`; ASCII case mapping keeps
      the two index-aligned. */
  function NextPath(line: string, lower: string, exts: seq<string>, prefixes: seq<string>, start: nat): (r: Step)
    requires NoneEmpty(exts) && |lower| == |line|
    ensures r.Found? ==> start <= r.at < r.end <= |line|
  {
    var p := Earliest(lower, prefixes, start).0;
    if p == -1 then Stop
    else
      var e := Earliest(lower, exts, p);
      if e.0 == -1 then Stop else Found(p, e.0 + |e.1|)
  }

  /** A turn that does not stop takes the leftmost prefix found and ends just
      after the leftmost extension found from there. */
  lemma NextPathBounds(line: string, lower: string, exts: seq<string>, prefixes: seq<string>, start: nat)
    requires NoneEmpty(exts) && |lower| == |line|
    ensures var r := NextPath(line, lower, exts, prefixes, start);
      && (r.Stop? <==> Earliest(lower, prefixes, start).0 == -1 || Earliest(lower, exts, Earliest(lower, prefixes, start).0).0 == -1)
      && (r.Found? ==>
            && r.at == Earliest(lower, prefixes, start).0
            && OccursAt(lower, Earliest(lower, prefixes, start).1, r.at)
            && var e := Earliest(lower, exts, r.at);
               r.end == e.0 + |e.1| && OccursAt(lower, e.1, e.0) && e.1 in exts)
  {
  }

  /** The paths `extract_paths` finds in `line` once `search_start` is
      `start`. */
  function PathsFrom(line: string, lower: string, exts: seq<string>, prefixes: seq<string>, start: nat): (r: seq<string>)
    requires NoneEmpty(exts) && |lower| == |line|
    decreases |line| - start
  {
    match NextPath(line, lower, exts, prefixes, start)
    case Stop => []
    case Found(at, end) =>
      var path := Clean(line[at..end]);
      (if path != "" then [path] else []) + PathsFrom(line, lower, exts, prefixes, end)
  }

  /** `extract_paths(line, exts, prefixes)`. */
  function ExtractPathsOf(line: string, exts: seq<string>, prefixes: seq<string>): (r: seq<string>)
    requires NoneEmpty(exts)
  {
    PathsFrom(line, Lower(line), exts, prefixes, 0)
  }

  /** `spans` places each of `r` in `line`, at or after `start`, left to
      right and without overlap. */
  predicate Located(line: string, r: seq<string>, spans: seq<(nat, nat)>, start: nat)
  {
    && |spans| == |r|
    && (forall k :: 0 <= k < |r| ==>
          start <= spans[k].0 <= spans[k].1 <= |line| && r[k] == line[spans[k].0..spans[k].1])
    && (forall k :: 0 <= k < |r| - 1 ==> spans[k].1 <= spans[k + 1].0)
  }

  /** Every path is non-empty, stripped and free of `<` and `>`. */
  predicate Tidy(r: seq<string>)
  {
    forall k :: 0 <= k < |r| ==>
      r[k] != [] && !IsSpace(r[k][0]) && !IsSpace(r[k][|r[k]| - 1]) && '<' !in r[k] && '>' !in r[k]
  }

  lemma LocatedCons(line: string, path: string, lo: nat, hi: nat, more: seq<string>, rest: seq<(nat, nat)>, start: nat, end: nat)
    requires start <= lo <= hi <= end && hi <= |line| && path == line[lo..hi]
    requires Located(line, more, rest, end)
    ensures Located(line, [path] + more, [(lo, hi)] + rest, start)
  {
    var r, spans := [path] + more, [(lo, hi)] + rest;
    forall k | 1 <= k < |r|
      ensures r[k] == more[k - 1] && spans[k] == rest[k - 1]
    {
    }
  }

  lemma TidyCons(path: string, more: seq<string>)
    requires path != [] && !IsSpace(path[0]) && !IsSpace(path[|path| - 1]) && '<' !in path && '>' !in path
    requires Tidy(more)
    ensures Tidy([path] + more)
  {
    var r := [path] + more;
    forall k | 1 <= k < |r|
      ensures r[k] == more[k - 1]
    {
    }
  }

  /** The paths found lie left to right in `line`, each a piece of it that
      does not overlap the next, non-empty, stripped and free of `<` and `>`. */
  lemma {:induction false} PathsInOrder(line: string, lower: string, exts: seq<string>, prefixes: seq<string>, start: nat)
    returns (spans: seq<(nat, nat)>)
    requires NoneEmpty(exts) && |lower| == |line|
    ensures Located(line, PathsFrom(line, lower, exts, prefixes, start), spans, start)
    ensures Tidy(PathsFrom(line, lower, exts, prefixes, start))
    decreases |line| - start
  {
    match NextPath(line, lower, exts, prefixes, start)
    case Stop =>
      spans := [];
    case Found(at, end) =>
      var path := Clean(line[at..end]);
      var more := PathsFrom(line, lower, exts, prefixes, end);
      var rest := PathsInOrder(line, lower, exts, prefixes, end);
      if path == "" {
        assert PathsFrom(line, lower, exts, prefixes, start) == more;
        spans := rest;
      } else {
        assert PathsFrom(line, lower, exts, prefixes, start) == [path] + more;
        var lo, hi := CleanedSlice(line, at, end);
        spans := [(lo, hi)] + rest;
        LocatedCons(line, path, lo, hi, more, rest, start, end);
        TidyCons(path, more);
      }
  }

  /** One pass of the inner `for` loop of `extract_paths` over `pats`. */
  method FindEarliest(s: string, pats: seq<string>, from: nat) returns (pos: int, val: string)
    ensures (pos, val) == Earliest(s, pats, from)
  {
    pos, val := -1, "";
    for k := 0 to |pats|
      invariant (pos, val) == Earliest(s, pats[..k], from)
    {
      assert pats[..k + 1][..k] == pats[..k];
      var p := Find(s, pats[k], from);
      if p != -1 && (pos == -1 || p < pos) {
        pos, val := p, pats[k];
      }
    }
    assert pats[..|pats|] == pats;
  }

  /** `extract_paths(line, exts, prefixes)`.  The search start grows with
      every path, as the extensions are not empty. */
  method ExtractPaths(line: string, exts: seq<string>, prefixes: seq<string>) returns (results: seq<string>)
    requires NoneEmpty(exts)
    ensures results == ExtractPathsOf(line, exts, prefixes)
  {
    results := [];
    var lowerLine := Lower(line);
    var searchStart: nat := 0;
    while true
      invariant searchStart <= |line|
      invariant results + PathsFrom(line, lowerLine, exts, prefixes, searchStart) == ExtractPathsOf(line, exts, prefixes)
      decreases |line| - searchStart
    {
      var prefixPos, _ := FindEarliest(lowerLine, prefixes, searchStart);
      if prefixPos == -1 {
        break;
      }
      var extPos, extVal := FindEarliest(lowerLine, exts, prefixPos);
      if extPos == -1 {
        break;
      }
      var end := extPos + |extVal|;
      var path := line[prefixPos..end];
      path := CutAt(path, '<');
      path := CutAt(path, '>');
      path := Strip(path);
      assert NextPath(line, lowerLine, exts, prefixes, searchStart) == Found(prefixPos, end);
      assert path == Clean(line[prefixPos..end]);
      results := Keep(results, path, PathsFrom(line, lowerLine, exts, prefixes, end));
      searchStart := end;
    }
    assert results + [] == results;
  }

  /** `if path: results.append(path)`, in terms of what is still to come. */
  method Keep(results: seq<string>, path: string, ghost more: seq<string>) returns (r: seq<string>)
    ensures r + more == results + ((if path != "" then [path] else []) + more)
  {
    r := results;
    if path != "" {
      r := r + [path];
    }
  }

  lemma AppendAssoc<T>(a: seq<T>, b: seq<T>, c: seq<T>)
    ensures (a + b) + c == a + (b + c)
  {
  }

  // ---------------------------------------------------------------------------
  // The byte scan of `scan` (its `process_file`)

  /** A match recorded by `scan`: the file's relative path and the text found. */
  type Match = (string, string)

  /** The bytes `b'\x00 \r\n;,"\')'` that end a match. */
  predicate IsStop(b: byte)
  {
    b == 0x00 || b == 0x20 || b == 0x0D || b == 0x0A || b == 0x3B || b == 0x2C || b == 0x22 || b == 0x27 || b == 0x29
  }

  /** Where a match starting at `start` ends: at the first stop byte at or
      after it, or at the end of the contents. */
  function MatchEnd(content: seq<byte>, start: nat): (end: nat)
    requires start <= |content|
    ensures start <= end <= |content|
    ensures forall i :: start <= i < end ==> !IsStop(content[i])
    ensures end == |content| || IsStop(content[end])
    decreases |content| - start
  {
    if start == |content| || IsStop(content[start]) then start else MatchEnd(content, start + 1)
  }

  /** A prefix the scan can use: its first byte does not end a match, so each
      match is non-empty and the scan moves on. */
  predicate ScanPrefix(prefix: seq<byte>)
  {
    prefix != [] && !IsStop(prefix[0])
  }

  /** The raw matches of one prefix once `start` is reached. */
  function PrefixMatches(content: seq<byte>, prefix: seq<byte>, start: nat): (r: seq<seq<byte>>)
    requires ScanPrefix(prefix)
    decreases |content| - start
  {
    var p := Find(content, prefix, start);
    if p == -1 then []
    else
      assert content[p] == content[p..p + |prefix|][0];
      var e := MatchEnd(content, p);
      [content[p..e]] + PrefixMatches(content, prefix, e)
  }

  /** `starts` are where the matches `ms` begin: each at an occurrence of the
      prefix at or after `start`, running up to the first stop byte, left to
      right without overlap. */
  predicate Scanned(content: seq<byte>, prefix: seq<byte>, ms: seq<seq<byte>>, starts: seq<nat>, start: nat)
  {
    && |starts| == |ms|
    && (forall k :: 0 <= k < |ms| ==>
          && start <= starts[k] <= |content| && OccursAt(content, prefix, starts[k])
          && ms[k] == content[starts[k]..MatchEnd(content, starts[k])])
    && (forall k :: 0 <= k < |ms| - 1 ==> MatchEnd(content, starts[k]) <= starts[k + 1])
  }

  /** Position `i` lies in the match that starts at `starts[k]`. */
  predicate Covers(content: seq<byte>, starts: seq<nat>, k: int, i: nat)
  {
    0 <= k < |starts| && starts[k] <= i && starts[k] <= |content| && i < MatchEnd(content, starts[k])
  }

  /** Every occurrence of the prefix at or after `start` lies in one of the matches. */
  ghost predicate Covered(content: seq<byte>, prefix: seq<byte>, starts: seq<nat>, start: nat)
  {
    forall i :: start <= i && OccursAt(content, prefix, i) ==> exists k :: Covers(content, starts, k, i)
  }

  lemma ScannedCons(content: seq<byte>, prefix: seq<byte>, p: nat, more: seq<seq<byte>>, rest: seq<nat>, start: nat)
    requires start <= p <= |content| && OccursAt(content, prefix, p)
    requires Scanned(content, prefix, more, rest, MatchEnd(content, p))
    ensures Scanned(content, prefix, [content[p..MatchEnd(content, p)]] + more, [p] + rest, start)
  {
    var ms, starts := [content[p..MatchEnd(content, p)]] + more, [p] + rest;
    forall k | 1 <= k < |ms|
      ensures ms[k] == more[k - 1] && starts[k] == rest[k - 1]
    {
    }
  }

  lemma CoveredCons(content: seq<byte>, prefix: seq<byte>, p: nat, rest: seq<nat>, start: nat)
    requires start <= p <= |content|
    requires forall i :: start <= i < p ==> !OccursAt(content, prefix, i)
    requires Covered(content, prefix, rest, MatchEnd(content, p))
    requires MatchEnd(content, p) > p
    ensures Covered(content, prefix, [p] + rest, start)
  {
    var e := MatchEnd(content, p);
    var starts := [p] + rest;
    forall i | start <= i && OccursAt(content, prefix, i)
      ensures exists k :: Covers(content, starts, k, i)
    {
      if i < e {
        assert Covers(content, starts, 0, i);
      } else {
        var k :| Covers(content, rest, k, i);
        assert Covers(content, starts, k + 1, i);
      }
    }
  }

  /** The matches of a prefix satisfy `Scanned`, and none is missed. */
  lemma {:induction false} PrefixMatchesShape(content: seq<byte>, prefix: seq<byte>, start: nat) returns (starts: seq<nat>)
    requires ScanPrefix(prefix)
    ensures Scanned(content, prefix, PrefixMatches(content, prefix, start), starts, start)
    ensures Covered(content, prefix, starts, start)
    decreases |content| - start
  {
    var p := Find(content, prefix, start);
    if p == -1 {
      starts := [];
    } else {
      assert content[p] == content[p..p + |prefix|][0];
      var e := MatchEnd(content, p);
      var rest := PrefixMatchesShape(content, prefix, e);
      var q: nat := p;
      starts := [q] + rest;
      ScannedCons(content, prefix, q, PrefixMatches(content, prefix, e), rest, start);
      CoveredCons(content, prefix, q, rest, start);
    }
  }

  predicate ScanPrefixes(prefixes: seq<seq<byte>>)
  {
    forall k :: 0 <= k < |prefixes| ==> ScanPrefix(prefixes[k])
  }

  /** `[p.encode('utf-8') for p in PREFIXES]`, for any list of prefixes. */
  function PrefixBytes(pats: seq<string>): seq<seq<byte>>
  {
    seq(|pats|, k requires 0 <= k < |pats| => Utf8(pats[k]))
  }

  /** A prefix that starts with a lower-case ASCII letter. */
  predicate PlainPrefix(p: string)
  {
    p != [] && 'a' <= p[0] <= 'z'
  }

  predicate AllPlain(pats: seq<string>)
  {
    forall k :: 0 <= k < |pats| ==> PlainPrefix(pats[k])
  }

  /** The UTF-8 of a plain prefix starts with the letter's own byte, so no
      encoded prefix is empty or starts with a stop byte. */
  lemma PlainPrefixesScannable(pats: seq<string>)
    requires AllPlain(pats)
    ensures ScanPrefixes(PrefixBytes(pats))
  {
    forall k | 0 <= k < |pats|
      ensures ScanPrefix(PrefixBytes(pats)[k])
    {
      var p := pats[k];
      assert Utf8(p) == Utf8Char(p[0]) + Utf8(p[1..]);
      assert Utf8(p)[0] == p[0] as int;
    }
  }

  lemma AllPlainAppend(a: seq<string>, b: seq<string>)
    requires AllPlain(a) && AllPlain(b)
    ensures AllPlain(a + b)
  {
  }

  lemma PrefixRow1Plain()
    ensures AllPlain(PREFIX_ROW_1)
  {
  }

  lemma PrefixRow2Plain()
    ensures AllPlain(PREFIX_ROW_2)
  {
  }

  lemma PrefixRow3Plain()
    ensures AllPlain(PREFIX_ROW_3)
  {
  }

  lemma PrefixRow4Plain()
    ensures AllPlain(PREFIX_ROW_4)
  {
  }

  lemma PrefixesPlain()
    ensures AllPlain(PREFIXES)
  {
    PrefixRow1Plain();
    PrefixRow2Plain();
    PrefixRow3Plain();
    PrefixRow4Plain();
    AllPlainAppend(PREFIX_ROW_1, PREFIX_ROW_2);
    AllPlainAppend(PREFIX_ROW_1 + PREFIX_ROW_2, PREFIX_ROW_3);
    AllPlainAppend(PREFIX_ROW_1 + PREFIX_ROW_2 + PREFIX_ROW_3, PREFIX_ROW_4);
  }

  /** The byte prefixes `scan` builds from `PREFIXES` meet what `Scan` requires. */
  lemma PrefixBytesScannable()
    ensures ScanPrefixes(PrefixBytes(PREFIXES))
  {
    PrefixesPlain();
    PlainPrefixesScannable(PREFIXES);
  }

  /** The raw matches of a file, prefix after prefix. */
  function RawMatches(content: seq<byte>, prefixes: seq<seq<byte>>): (r: seq<seq<byte>>)
    requires ScanPrefixes(prefixes)
    decreases |prefixes|
  {
    if prefixes == [] then []
    else RawMatches(content, prefixes[..|prefixes| - 1]) + PrefixMatches(content, prefixes[|prefixes| - 1], 0)
  }

  /** The records made from raw matches: a match whose decoded text is not
      empty becomes `(relPath, text)`, an empty one is dropped.  `decode`
      stands for `bytes.decode('utf-8', errors='ignore')`. */
  function Records(relPath: string, decode: seq<byte> -> string, ms: seq<seq<byte>>): (r: seq<Match>)
    ensures |r| <= |ms|
    decreases |ms|
  {
    if ms == [] then []
    else
      var text := decode(ms[|ms| - 1]);
      Records(relPath, decode, ms[..|ms| - 1]) + (if text != "" then [(relPath, text)] else [])
  }

  /** Every record names `relPath` and a non-empty text. */
  predicate Named(relPath: string, r: seq<Match>)
  {
    forall k :: 0 <= k < |r| ==> r[k].0 == relPath && r[k].1 != ""
  }

  lemma {:induction false} RecordsNamed(relPath: string, decode: seq<byte> -> string, ms: seq<seq<byte>>)
    ensures Named(relPath, Records(relPath, decode, ms))
    decreases |ms|
  {
    if ms != [] {
      var init := ms[..|ms| - 1];
      var text := decode(ms[|ms| - 1]);
      RecordsNamed(relPath, decode, init);
      var a := Records(relPath, decode, init);
      var b: seq<Match> := if text != "" then [(relPath, text)] else [];
      assert Records(relPath, decode, ms) == a + b;
      forall k | 0 <= k < |a + b|
        ensures (a + b)[k].0 == relPath && (a + b)[k].1 != ""
      {
        if k < |a| {
          assert (a + b)[k] == a[k];
        } else {
          assert (a + b)[k] == b[k - |a|];
        }
      }
    }
  }

  lemma {:induction false} RecordsAppend(relPath: string, decode: seq<byte> -> string, a: seq<seq<byte>>, b: seq<seq<byte>>)
    ensures Records(relPath, decode, a + b) == Records(relPath, decode, a) + Records(relPath, decode, b)
    decreases |b|
  {
    if b == [] {
      assert a + b == a;
    } else {
      var init := b[..|b| - 1];
      assert (a + b)[..|a + b| - 1] == a + init;
      assert (a + b)[|a + b| - 1] == b[|b| - 1];
      RecordsAppend(relPath, decode, a, init);
    }
  }

  /** The records a file offers, before duplicates are dropped. */
  function FileMatches(content: seq<byte>, relPath: string, prefixes: seq<seq<byte>>, decode: seq<byte> -> string): (r: seq<Match>)
    requires ScanPrefixes(prefixes)
  {
    Records(relPath, decode, RawMatches(content, prefixes))
  }

  function Elems<T>(s: seq<T>): set<T>
  {
    set x | x in s
  }

  /** The items of `items` not in `seen`, each at its first occurrence: what
      the `unique_set` test lets through. */
  function Fresh<T>(seen: set<T>, items: seq<T>): (r: seq<T>)
    decreases |items|
  {
    if items == [] then []
    else
      var init := items[..|items| - 1];
      var x := items[|items| - 1];
      if x in seen || x in init then Fresh(seen, init) else Fresh(seen, init) + [x]
  }

  /** The step of `Fresh` for one more item. */
  lemma FreshSnoc<T>(seen: set<T>, items: seq<T>, x: T)
    ensures Fresh(seen, items + [x]) == Fresh(seen, items) + (if x in seen + Elems(items) then [] else [x])
  {
    assert (items + [x])[..|items|] == items;
  }

  /** What `Fresh` keeps has no duplicates and nothing from `seen`; every
      item is seen or kept, and nothing else is kept. */
  lemma {:induction false} FreshIsDistinct<T>(seen: set<T>, items: seq<T>)
    ensures var r := Fresh(seen, items);
      && (forall i, j :: 0 <= i < j < |r| ==> r[i] != r[j])
      && (forall i :: 0 <= i < |r| ==> r[i] !in seen && r[i] in items)
      && (forall x :: x in items ==> x in seen || x in r)
    decreases |items|
  {
    if items != [] {
      var init := items[..|items| - 1];
      var x := items[|items| - 1];
      FreshIsDistinct(seen, init);
      assert items == init + [x];
      FreshSnoc(seen, init, x);
    }
  }

  lemma ElemsAppend<T>(a: seq<T>, b: seq<T>)
    ensures Elems(a + b) == Elems(a) + Elems(b)
  {
  }

  /** Dropping duplicates from two runs in a row is dropping them from each,
      the second against what the first brought. */
  lemma {:induction false} FreshAppend<T>(seen: set<T>, a: seq<T>, b: seq<T>)
    ensures Fresh(seen, a + b) == Fresh(seen, a) + Fresh(seen + Elems(a), b)
    decreases |b|
  {
    if b == [] {
      assert a + b == a;
    } else {
      var init := b[..|b| - 1];
      var x := b[|b| - 1];
      assert b == init + [x];
      assert a + b == (a + init) + [x];
      FreshAppend(seen, a, init);
      FreshSnoc(seen, a + init, x);
      FreshSnoc(seen + Elems(a), init, x);
      ElemsAppend(a, init);
      assert seen + Elems(a + init) == (seen + Elems(a)) + Elems(init);
    }
  }

  /** One raw match more, in terms of the records and of the set of records. */
  lemma RecordStep(seen: set<Match>, relPath: string, decode: seq<byte> -> string, done: seq<seq<byte>>, m: seq<byte>)
    ensures var before := Records(relPath, decode, done);
      var text := decode(m);
      && Fresh(seen, Records(relPath, decode, done + [m])) ==
           Fresh(seen, before) + (if text != "" && (relPath, text) !in seen + Elems(before) then [(relPath, text)] else [])
      && Elems(Records(relPath, decode, done + [m])) == Elems(before) + (if text != "" then {(relPath, text)} else {})
  {
    assert (done + [m])[..|done|] == done;
    var text := decode(m);
    var before := Records(relPath, decode, done);
    if text != "" {
      assert Records(relPath, decode, done + [m]) == before + [(relPath, text)];
      FreshSnoc(seen, before, (relPath, text));
      ElemsAppend(before, [(relPath, text)]);
    } else {
      assert Records(relPath, decode, done + [m]) == before + [];
      assert before + [] == before;
    }
  }

  /** Doing one prefix after the ones before it. */
  lemma RawMatchesNext(content: seq<byte>, prefixes: seq<seq<byte>>, k: nat)
    requires ScanPrefixes(prefixes) && k < |prefixes|
    ensures RawMatches(content, prefixes[..k + 1]) == RawMatches(content, prefixes[..k]) + PrefixMatches(content, prefixes[k], 0)
  {
    assert prefixes[..k + 1][..k] == prefixes[..k];
  }

  /** The records of one more prefix, after those of the prefixes before it. */
  lemma NextPrefixRecords(content: seq<byte>, prefixes: seq<seq<byte>>, k: nat, relPath: string, decode: seq<byte> -> string, unique: set<Match>)
    requires ScanPrefixes(prefixes) && k < |prefixes|
    ensures var done := Records(relPath, decode, RawMatches(content, prefixes[..k]));
      var more := Records(relPath, decode, PrefixMatches(content, prefixes[k], 0));
      && Fresh(unique, Records(relPath, decode, RawMatches(content, prefixes[..k + 1]))) == Fresh(unique, done) + Fresh(unique + Elems(done), more)
      && unique + Elems(Records(relPath, decode, RawMatches(content, prefixes[..k + 1]))) == (unique + Elems(done)) + Elems(more)
  {
    var done := Records(relPath, decode, RawMatches(content, prefixes[..k]));
    var more := Records(relPath, decode, PrefixMatches(content, prefixes[k], 0));
    RawMatchesNext(content, prefixes, k);
    RecordsAppend(relPath, decode, RawMatches(content, prefixes[..k]), PrefixMatches(content, prefixes[k], 0));
    FreshAppend(unique, done, more);
    ElemsAppend(done, more);
  }

  /** The matches of a list of files, file after file. */
  function ScanMatches(files: seq<(string, seq<byte>)>, prefixes: seq<seq<byte>>, decode: seq<byte> -> string): (r: seq<Match>)
    requires ScanPrefixes(prefixes)
    decreases |files|
  {
    if files == [] then []
    else
      var (relPath, content) := files[|files| - 1];
      ScanMatches(files[..|files| - 1], prefixes, decode) + FileMatches(content, relPath, prefixes, decode)
  }

  /** Scanning one file more. */
  lemma ScanMatchesNext(files: seq<(string, seq<byte>)>, prefixes: seq<seq<byte>>, decode: seq<byte> -> string, i: nat)
    requires ScanPrefixes(prefixes) && i < |files|
    ensures ScanMatches(files[..i + 1], prefixes, decode) ==
      ScanMatches(files[..i], prefixes, decode) + FileMatches(files[i].1, files[i].0, prefixes, decode)
  {
    assert files[..i + 1][..i] == files[..i];
  }

  /** Every record names the file it was found in and a non-empty text. */
  lemma {:induction false} ScanMatchesFromFiles(files: seq<(string, seq<byte>)>, prefixes: seq<seq<byte>>, decode: seq<byte> -> string)
    requires ScanPrefixes(prefixes)
    ensures Attributed(files, ScanMatches(files, prefixes, decode))
    decreases |files|
  {
    if files != [] {
      var init := files[..|files| - 1];
      var (relPath, content) := files[|files| - 1];
      ScanMatchesFromFiles(init, prefixes, decode);
      RecordsNamed(relPath, decode, RawMatches(content, prefixes));
      var a: seq<Match> := ScanMatches(init, prefixes, decode);
      var b: seq<Match> := FileMatches(content, relPath, prefixes, decode);
      assert RelPaths(init) <= RelPaths(files) by {
        forall k | 0 <= k < |init|
          ensures init[k].0 in RelPaths(files)
        {
          assert init[k] == files[k];
        }
      }
      assert relPath in RelPaths(files);
      forall k | 0 <= k < |a + b|
        ensures (a + b)[k].1 != "" && (a + b)[k].0 in RelPaths(files)
      {
        if k < |a| {
          assert (a + b)[k] == a[k];
        } else {
          assert (a + b)[k] == b[k - |a|];
        }
      }
      assert ScanMatches(files, prefixes, decode) == a + b;
    }
  }

  function RelPaths(files: seq<(string, seq<byte>)>): set<string>
  {
    set k | 0 <= k < |files| :: files[k].0
  }

  /** Every record names one of the files and a non-empty text. */
  predicate Attributed(files: seq<(string, seq<byte>)>, r: seq<Match>)
  {
    forall k :: 0 <= k < |r| ==> r[k].1 != "" && r[k].0 in RelPaths(files)
  }

  // ---------------------------------------------------------------------------
  // recheck

  lemma CommonExtsNonEmpty()
    ensures NoneEmpty(COMMON_EXTS)
  {
  }

  /** `(relPath, p)` for every `p` of `paths`, in order. */
  function Tagged(relPath: string, paths: seq<string>): (r: seq<Match>)
    ensures |r| == |paths|
    ensures forall k :: 0 <= k < |r| ==> r[k] == (relPath, paths[k])
    decreases |paths|
  {
    if paths == [] then [] else Tagged(relPath, paths[..|paths| - 1]) + [(relPath, paths[|paths| - 1])]
  }

  lemma TaggedNext(relPath: string, paths: seq<string>, j: nat)
    requires j < |paths|
    ensures Tagged(relPath, paths[..j + 1]) == Tagged(relPath, paths[..j]) + [(relPath, paths[j])]
  {
    assert paths[..j + 1][..j] == paths[..j];
  }

  /** What one entry becomes in `_recheck_impl`: the paths `extract_paths`
      finds in its text, all under its file, or the entry itself when there
      are none. */
  function RecheckEntry(m: Match): (r: seq<Match>)
  {
    CommonExtsNonEmpty();
    var paths := ExtractPathsOf(m.1, COMMON_EXTS, PREFIXES);
    if paths == [] then [m] else Tagged(m.0, paths)
  }

  /** The list `_recheck_impl` builds, entry after entry. */
  function Rechecked(ms: seq<Match>): (r: seq<Match>)
    decreases |ms|
  {
    if ms == [] then [] else Rechecked(ms[..|ms| - 1]) + RecheckEntry(ms[|ms| - 1])
  }

  /** An entry is kept as it is exactly when no path is found in it, or the
      only path found is its text; otherwise it is replaced by the paths
      found, each a tidy piece of the old text. */
  lemma RecheckEntryShape(m: Match)
    ensures var r := RecheckEntry(m);
      && |r| >= 1
      && (forall k :: 0 <= k < |r| ==> r[k].0 == m.0)
      && (CommonExtsNonEmpty();
          var paths := ExtractPathsOf(m.1, COMMON_EXTS, PREFIXES);
          (paths == [] ==> r == [m]) && (paths != [] ==> Texts(r) == paths && Tidy(paths)))
  {
    CommonExtsNonEmpty();
    var paths := ExtractPathsOf(m.1, COMMON_EXTS, PREFIXES);
    var _ := PathsInOrder(m.1, Lower(m.1), COMMON_EXTS, PREFIXES, 0);
    if paths != [] {
      TextsOfTagged(m.0, paths);
    }
  }

  function Texts(ms: seq<Match>): (r: seq<string>)
    ensures |r| == |ms|
    ensures forall k :: 0 <= k < |r| ==> r[k] == ms[k].1
  {
    seq(|ms|, k requires 0 <= k < |ms| => ms[k].1)
  }

  lemma TextsOfTagged(relPath: string, paths: seq<string>)
    ensures Texts(Tagged(relPath, paths)) == paths
  {
  }

  /** The body of the `for` loop of `_recheck_impl` for one entry. */
  method RecheckOne(m: Match) returns (entries: seq<Match>)
    ensures entries == RecheckEntry(m)
  {
    CommonExtsNonEmpty();
    var paths := ExtractPaths(m.1, COMMON_EXTS, PREFIXES);
    if paths != [] {
      entries := [(m.0, paths[0])];
      TaggedNext(m.0, paths, 0);
      for j := 1 to |paths|
        invariant entries == Tagged(m.0, paths[..j])
      {
        TaggedNext(m.0, paths, j);
        entries := entries + [(m.0, paths[j])];
      }
      assert paths[..|paths|] == paths;
    } else {
      entries := [m];
    }
  }

  lemma RecheckedNext(ms: seq<Match>, i: nat)
    requires i < |ms|
    ensures Rechecked(ms[..i + 1]) == Rechecked(ms[..i]) + RecheckEntry(ms[i])
  {
    assert ms[..i + 1][..i] == ms[..i];
  }

  /** Rechecking two runs of entries is rechecking each. */
  lemma {:induction false} RecheckedAppend(a: seq<Match>, b: seq<Match>)
    ensures Rechecked(a + b) == Rechecked(a) + Rechecked(b)
    decreases |b|
  {
    if b == [] {
      assert a + b == a;
    } else {
      var init := b[..|b| - 1];
      assert (a + b)[..|a + b| - 1] == a + init;
      assert (a + b)[|a + b| - 1] == b[|b| - 1];
      RecheckedAppend(a, init);
      AppendAssoc(Rechecked(a), Rechecked(init), RecheckEntry(b[|b| - 1]));
    }
  }

  /** Rechecking never shortens the list. */
  lemma {:induction false} RecheckedGrows(ms: seq<Match>)
    ensures |Rechecked(ms)| >= |ms|
    decreases |ms|
  {
    if ms != [] {
      RecheckedGrows(ms[..|ms| - 1]);
      RecheckEntryShape(ms[|ms| - 1]);
    }
  }

  // ---------------------------------------------------------------------------
  // Model completion

  /** `SUFFIXES` of `_model_complete_impl`, in the source's order. */
  const SUFFIXES: seq<string> := [".dds", ".primitives", ".visual", ".model"]

  /** The index of the first of `sufs` that `lower` ends with, or -1. */
  function FirstSuffix(lower: string, sufs: seq<string>): (r: int)
    ensures -1 <= r < |sufs|
    ensures r == -1 <==> forall j :: 0 <= j < |sufs| ==> !EndsWith(lower, sufs[j])
    ensures r != -1 ==> EndsWith(lower, sufs[r]) && forall j :: 0 <= j < r ==> !EndsWith(lower, sufs[j])
  {
    if sufs == [] then -1
    else if EndsWith(lower, sufs[0]) then 0
    else
      var k := FirstSuffix(lower, sufs[1..]);
      assert forall j :: 1 <= j < |sufs| ==> sufs[j] == sufs[1..][j - 1];
      if k == -1 then -1 else k + 1
  }

  /** `(relPath, base + other)` for every `other` of `sufs` but `suf`, in
      order. */
  function Others(relPath: string, base: string, suf: string, sufs: seq<string>): (r: seq<Match>)
    decreases |sufs|
  {
    if sufs == [] then []
    else
      var other := sufs[|sufs| - 1];
      Others(relPath, base, suf, sufs[..|sufs| - 1]) + (if other != suf then [(relPath, base + other)] else [])
  }

  /** The entries the completion proposes for one entry: when its lowercased
      text ends with one of `SUFFIXES` (the first that does), the text with
      that suffix replaced by each of the others; nothing otherwise. */
  function Variants(m: Match): (r: seq<Match>)
  {
    VariantsOf(m.0, m.1, Lower(m.1), SUFFIXES)
  }

  /** `Variants` for the suffix list `sufs`, `lower` standing for the
      lowercased `text`. */
  function VariantsOf(relPath: string, text: string, lower: string, sufs: seq<string>): (r: seq<Match>)
    requires |lower| == |text|
  {
    var i := FirstSuffix(lower, sufs);
    if i == -1 then [] else Others(relPath, text[..|text| - |sufs[i]|], sufs[i], sufs)
  }

  /** What `exist_set` holds for an entry: its file and lowercased text. */
  function Key(m: Match): (string, string)
  {
    (m.0, Lower(m.1))
  }

  function Keys(ms: seq<Match>): set<(string, string)>
  {
    set k | 0 <= k < |ms| :: Key(ms[k])
  }

  lemma KeysAppend(a: seq<Match>, b: seq<Match>)
    ensures Keys(a + b) == Keys(a) + Keys(b)
  {
    forall x | x in Keys(a + b)
      ensures x in Keys(a) + Keys(b)
    {
      var k :| 0 <= k < |a + b| && x == Key((a + b)[k]);
      if k >= |a| {
        assert (a + b)[k] == b[k - |a|];
      }
    }
    forall x | x in Keys(a) + Keys(b)
      ensures x in Keys(a + b)
    {
      if x in Keys(a) {
        var k :| 0 <= k < |a| && x == Key(a[k]);
        assert (a + b)[k] == a[k];
      } else {
        var k :| 0 <= k < |b| && x == Key(b[k]);
        assert (a + b)[|a| + k] == b[k];
      }
    }
  }

  /** The items of `items` whose key is neither in `seen` nor the key of an
      earlier item: what the `exist_set` test lets through. */
  function KeyFresh(seen: set<(string, string)>, items: seq<Match>): (r: seq<Match>)
    decreases |items|
  {
    if items == [] then []
    else
      var init := items[..|items| - 1];
      var x := items[|items| - 1];
      if Key(x) in seen + Keys(init) then KeyFresh(seen, init) else KeyFresh(seen, init) + [x]
  }

  lemma KeyFreshSnoc(seen: set<(string, string)>, items: seq<Match>, x: Match)
    ensures KeyFresh(seen, items + [x]) == KeyFresh(seen, items) + (if Key(x) in seen + Keys(items) then [] else [x])
  {
    assert (items + [x])[..|items|] == items;
  }

  /** Filtering two runs in a row is filtering each, the second against the
      keys the first brought. */
  lemma {:induction false} KeyFreshAppend(seen: set<(string, string)>, a: seq<Match>, b: seq<Match>)
    ensures KeyFresh(seen, a + b) == KeyFresh(seen, a) + KeyFresh(seen + Keys(a), b)
    decreases |b|
  {
    if b == [] {
      assert a + b == a;
    } else {
      var init := b[..|b| - 1];
      var x := b[|b| - 1];
      assert b == init + [x];
      assert a + b == (a + init) + [x];
      KeyFreshAppend(seen, a, init);
      KeyFreshSnoc(seen, a + init, x);
      KeyFreshSnoc(seen + Keys(a), init, x);
      KeysAppend(a, init);
      assert seen + Keys(a + init) == (seen + Keys(a)) + Keys(init);
      AppendAssoc(KeyFresh(seen, a), KeyFresh(seen + Keys(a), init), if Key(x) in seen + Keys(a + init) then [] else [x]);
    }
  }

  /** What the filter keeps has pairwise different keys, none of them in
      `seen`, and only items; every item's key is in `seen` or kept. */
  lemma {:induction false} KeyFreshIsDistinct(seen: set<(string, string)>, items: seq<Match>)
    ensures KeyDistinct(KeyFresh(seen, items))
    ensures forall i :: 0 <= i < |KeyFresh(seen, items)| ==> Key(KeyFresh(seen, items)[i]) !in seen && KeyFresh(seen, items)[i] in items
    ensures forall x :: x in items ==> Key(x) in seen || Key(x) in Keys(KeyFresh(seen, items))
    decreases |items|
  {
    if items != [] {
      var init := items[..|items| - 1];
      var x := items[|items| - 1];
      KeyFreshIsDistinct(seen, init);
      assert items == init + [x];
      KeyFreshSnoc(seen, init, x);
      var r0 := KeyFresh(seen, init);
      if Key(x) !in seen + Keys(init) {
        KeysAppend(r0, [x]);
        forall y | y in items
          ensures Key(y) in seen || Key(y) in Keys(KeyFresh(seen, items))
        {
          if y in init {
            assert Key(y) in seen || Key(y) in Keys(r0);
          }
        }
      } else {
        assert KeyFresh(seen, items) == r0;
        forall y | y in items
          ensures Key(y) in seen || Key(y) in Keys(KeyFresh(seen, items))
        {
          if y == x && Key(x) !in seen {
            var j :| 0 <= j < |init| && Key(x) == Key(init[j]);
            assert init[j] in init;
          }
        }
      }
    }
  }

  predicate KeyDistinct(r: seq<Match>)
  {
    forall i, j :: 0 <= i < j < |r| ==> Key(r[i]) != Key(r[j])
  }

  /** The entries the completion proposes for a list, entry after entry. */
  function Candidates(ms: seq<Match>): (r: seq<Match>)
    decreases |ms|
  {
    if ms == [] then [] else Candidates(ms[..|ms| - 1]) + Variants(ms[|ms| - 1])
  }

  lemma CandidatesNext(ms: seq<Match>, i: nat)
    requires i < |ms|
    ensures Candidates(ms[..i + 1]) == Candidates(ms[..i]) + Variants(ms[i])
  {
    assert ms[..i + 1][..i] == ms[..i];
  }

  /** The list `_model_complete_impl` leaves: the old list, then every
      proposed entry whose key is not there yet. */
  function Completed(ms: seq<Match>): (r: seq<Match>)
  {
    ms + KeyFresh(Keys(ms), Candidates(ms))
  }

  /** The completion keeps the old list in front; what it adds has pairwise
      different keys, none the key of an old entry, and is all proposed; and
      the key of every proposed entry ends up in the list. */
  lemma CompletedShape(ms: seq<Match>)
    ensures var r := Completed(ms);
      && |r| >= |ms| && r[..|ms|] == ms
      && KeyDistinct(r[|ms|..])
      && (forall i :: |ms| <= i < |r| ==> Key(r[i]) !in Keys(ms) && r[i] in Candidates(ms))
      && (forall c :: c in Candidates(ms) ==> Key(c) in Keys(r))
  {
    var added := KeyFresh(Keys(ms), Candidates(ms));
    var r := ms + added;
    KeyFreshIsDistinct(Keys(ms), Candidates(ms));
    KeysAppend(ms, added);
    assert r[|ms|..] == added;
    forall i | |ms| <= i < |r|
      ensures Key(r[i]) !in Keys(ms) && r[i] in Candidates(ms)
    {
      assert r[i] == added[i - |ms|];
    }
  }

  /** Replacing the suffix: every proposed entry is under the same file,
      and is the base followed by one of `sufs` other than `suf`. */
  lemma {:induction false} OthersShape(relPath: string, base: string, suf: string, sufs: seq<string>)
    ensures var r := Others(relPath, base, suf, sufs);
      && |r| == |sufs| - multiset(sufs)[suf]
      && forall k :: 0 <= k < |r| ==> r[k].0 == relPath && Other(base, suf, sufs, r[k].1)
    decreases |sufs|
  {
    if sufs != [] {
      var init := sufs[..|sufs| - 1];
      var other := sufs[|sufs| - 1];
      assert sufs == init + [other];
      OthersShape(relPath, base, suf, init);
      var a := Others(relPath, base, suf, init);
      var b: seq<Match> := if other != suf then [(relPath, base + other)] else [];
      assert Others(relPath, base, suf, sufs) == a + b;
      forall k | 0 <= k < |a + b|
        ensures (a + b)[k].0 == relPath && Other(base, suf, sufs, (a + b)[k].1)
      {
        if k < |a| {
          assert (a + b)[k] == a[k];
          var j :| 0 <= j < |init| && init[j] != suf && a[k].1 == base + init[j];
          assert sufs[j] == init[j];
        } else {
          assert (a + b)[k] == b[k - |a|];
          assert sufs[|sufs| - 1] == other;
        }
      }
    }
  }

  /** `text` is `base` followed by one of `sufs` other than `suf`. */
  predicate Other(base: string, suf: string, sufs: seq<string>, text: string)
  {
    exists j :: 0 <= j < |sufs| && sufs[j] != suf && text == base + sufs[j]
  }

  /** An entry whose lowercased text ends with none of the suffixes proposes
      nothing; one that does (the first of them that does) proposes a
      spelling for every other suffix, with the matching suffix replaced. */
  lemma VariantsOfShape(relPath: string, text: string, lower: string, sufs: seq<string>)
    requires |lower| == |text|
    ensures var i := FirstSuffix(lower, sufs);
      var r := VariantsOf(relPath, text, lower, sufs);
      && (i == -1 ==> r == [])
      && (i != -1 ==>
            && |sufs[i]| <= |text|
            && |r| == |sufs| - multiset(sufs)[sufs[i]]
            && forall k :: 0 <= k < |r| ==> r[k].0 == relPath && Other(text[..|text| - |sufs[i]|], sufs[i], sufs, r[k].1))
  {
    var i := FirstSuffix(lower, sufs);
    if i != -1 {
      OthersShape(relPath, text[..|text| - |sufs[i]|], sufs[i], sufs);
    }
  }

  /** For `SUFFIXES`, the text ends with one of them exactly when three
      other spellings are proposed. */
  lemma VariantsShape(m: Match)
    ensures var i := FirstSuffix(Lower(m.1), SUFFIXES);
      && (i == -1 ==> Variants(m) == [])
      && (i != -1 ==>
            && |SUFFIXES[i]| <= |m.1|
            && |Variants(m)| == 3
            && forall k :: 0 <= k < 3 ==>
                 Variants(m)[k].0 == m.0 && Other(m.1[..|m.1| - |SUFFIXES[i]|], SUFFIXES[i], SUFFIXES, Variants(m)[k].1))
  {
    var i := FirstSuffix(Lower(m.1), SUFFIXES);
    VariantsOfShape(m.0, m.1, Lower(m.1), SUFFIXES);
    if i != -1 {
      SuffixesOnce(i);
    }
  }

  lemma OthersNext(relPath: string, base: string, suf: string, sufs: seq<string>, o: nat)
    requires o < |sufs|
    ensures Others(relPath, base, suf, sufs[..o + 1]) ==
      Others(relPath, base, suf, sufs[..o]) + (if sufs[o] != suf then [(relPath, base + sufs[o])] else [])
  {
    assert sufs[..o + 1][..o] == sufs[..o];
  }

  /** One entry more in the `for` loop of `_model_complete_impl`. */
  lemma CompletionStep(ms: seq<Match>, idx: nat)
    requires idx < |ms|
    ensures var done := Candidates(ms[..idx]);
      && KeyFresh(Keys(ms), Candidates(ms[..idx + 1])) ==
           KeyFresh(Keys(ms), done) + KeyFresh(Keys(ms) + Keys(done), Variants(ms[idx]))
      && Keys(ms) + Keys(Candidates(ms[..idx + 1])) == (Keys(ms) + Keys(done)) + Keys(Variants(ms[idx]))
  {
    var done := Candidates(ms[..idx]);
    CandidatesNext(ms, idx);
    KeyFreshAppend(Keys(ms), done, Variants(ms[idx]));
    KeysAppend(done, Variants(ms[idx]));
  }

  /** The body of the `for` loop of `_model_complete_impl` for one entry:
      the first suffix the lowercased text ends with is replaced by each of
      the others, and each spelling whose key is new is added. */
  method CompleteEntry(m: Match, sufs: seq<string>, kept: seq<Match>, exist: set<(string, string)>)
    returns (kept': seq<Match>, exist': set<(string, string)>)
    ensures kept' == kept + KeyFresh(exist, VariantsOf(m.0, m.1, Lower(m.1), sufs))
    ensures exist' == exist + Keys(VariantsOf(m.0, m.1, Lower(m.1), sufs))
  {
    var lower := Lower(m.1);
    for i := 0 to |sufs|
      invariant forall j :: 0 <= j < i ==> !EndsWith(lower, sufs[j])
    {
      var suf := sufs[i];
      if EndsWith(lower, suf) {
        var base := m.1[..|m.1| - |suf|];
        kept', exist' := ReplaceSuffix(m.0, base, suf, sufs, kept, exist);
        assert FirstSuffix(lower, sufs) == i;
        return;
      }
    }
    assert FirstSuffix(lower, sufs) == -1;
    kept', exist' := kept, exist;
    assert kept' == kept + [];
    assert Keys([]) == {};
  }

  /** The `for other in SUFFIXES` loop: `base + other` for every other
      suffix, added when its key is new. */
  method ReplaceSuffix(relPath: string, base: string, suf: string, sufs: seq<string>,
                       kept: seq<Match>, exist: set<(string, string)>)
    returns (kept': seq<Match>, exist': set<(string, string)>)
    ensures kept' == kept + KeyFresh(exist, Others(relPath, base, suf, sufs))
    ensures exist' == exist + Keys(Others(relPath, base, suf, sufs))
  {
    kept', exist' := kept, exist;
    assert kept' == kept + KeyFresh(exist, Others(relPath, base, suf, sufs[..0]));
    for o := 0 to |sufs|
      invariant kept' == kept + KeyFresh(exist, Others(relPath, base, suf, sufs[..o]))
      invariant exist' == exist + Keys(Others(relPath, base, suf, sufs[..o]))
    {
      var done := Others(relPath, base, suf, sufs[..o]);
      OthersNext(relPath, base, suf, sufs, o);
      var other := sufs[o];
      if other != suf {
        var newPath := base + other;
        KeyFreshSnoc(exist, done, (relPath, newPath));
        KeysAppend(done, [(relPath, newPath)]);
        if (relPath, Lower(newPath)) !in exist' {
          AppendAssoc(kept, KeyFresh(exist, done), [(relPath, newPath)]);
          kept' := kept' + [(relPath, newPath)];
          exist' := exist' + {(relPath, Lower(newPath))};
        } else {
          assert KeyFresh(exist, done) + [] == KeyFresh(exist, done);
        }
      } else {
        assert done + [] == done;
      }
    }
    assert sufs[..|sufs|] == sufs;
  }

  /** Each of `SUFFIXES` occurs in it once. */
  lemma SuffixesOnce(i: nat)
    requires i < |SUFFIXES|
    ensures multiset(SUFFIXES)[SUFFIXES[i]] == 1
  {
  }

  // ---------------------------------------------------------------------------
  // The scanner's match list

  /** The list of `(rel_path, match_path)` pairs the scanner window keeps. */
  class PathScanner {
    var matches: seq<Match>

    constructor()
      ensures matches == []
    {
      matches := [];
    }

    /** `scan` over the files already listed and read, in list order: the match
        list is rebuilt from nothing, every record at most once. */
    method Scan(files: seq<(string, seq<byte>)>, prefixBytes: seq<seq<byte>>, decode: seq<byte> -> string)
      requires ScanPrefixes(prefixBytes)
      modifies this
      ensures matches == Fresh({}, ScanMatches(files, prefixBytes, decode))
      ensures forall i, j :: 0 <= i < j < |matches| ==> matches[i] != matches[j]
      ensures forall m :: m in ScanMatches(files, prefixBytes, decode) <==> m in matches
    {
      matches := [];
      var unique: set<Match> := {};
      for i := 0 to |files|
        invariant matches == Fresh({}, ScanMatches(files[..i], prefixBytes, decode))
        invariant unique == Elems(ScanMatches(files[..i], prefixBytes, decode))
      {
        ghost var done := ScanMatches(files[..i], prefixBytes, decode);
        ghost var more := FileMatches(files[i].1, files[i].0, prefixBytes, decode);
        unique := ProcessFile(files[i].1, files[i].0, prefixBytes, decode, unique);
        ScanMatchesNext(files, prefixBytes, decode, i);
        FreshAppend({}, done, more);
        ElemsAppend(done, more);
        assert {} + Elems(done) == Elems(done);
      }
      assert files[..|files|] == files;
      FreshIsDistinct({}, ScanMatches(files, prefixBytes, decode));
    }

    /** `_recheck_impl`: every entry is replaced by the paths found in its
        text (the first one where the old one stood), or kept when none is
        found. */
    method Recheck()
      modifies this
      ensures matches == Rechecked(old(matches))
    {
      var ms := matches;
      var newMatches: seq<Match> := [];
      for idx := 0 to |ms|
        invariant newMatches == Rechecked(ms[..idx])
      {
        RecheckedNext(ms, idx);
        var entries := RecheckOne(ms[idx]);
        newMatches := newMatches + entries;
      }
      assert ms[..|ms|] == ms;
      matches := newMatches;
    }

    /** `_model_complete_impl`: every entry whose text ends with one of
        `SUFFIXES` proposes the other three spellings, and each whose
        (file, lowercased text) pair is new is appended. */
    method ModelComplete()
      modifies this
      ensures matches == Completed(old(matches))
    {
      var ms := matches;
      var newMatches := ms;
      var exist := Keys(ms);
      for idx := 0 to |ms|
        invariant newMatches == ms + KeyFresh(Keys(ms), Candidates(ms[..idx]))
        invariant exist == Keys(ms) + Keys(Candidates(ms[..idx]))
      {
        ghost var a := KeyFresh(Keys(ms), Candidates(ms[..idx]));
        CompletionStep(ms, idx);
        newMatches, exist := CompleteEntry(ms[idx], SUFFIXES, newMatches, exist);
        AppendAssoc(ms, a, KeyFresh(Keys(ms) + Keys(Candidates(ms[..idx])), Variants(ms[idx])));
      }
      assert ms[..|ms|] == ms;
      matches := newMatches;
    }

    /** `process_file` on contents already read: every prefix, every match,
        recording each decoded text not yet in `unique`. */
    method ProcessFile(content: seq<byte>, relFilePath: string, prefixBytes: seq<seq<byte>>,
                       decode: seq<byte> -> string, unique: set<Match>) returns (unique': set<Match>)
      requires ScanPrefixes(prefixBytes)
      modifies this
      ensures matches == old(matches) + Fresh(unique, FileMatches(content, relFilePath, prefixBytes, decode))
      ensures unique' == unique + Elems(FileMatches(content, relFilePath, prefixBytes, decode))
    {
      unique' := unique;
      for k := 0 to |prefixBytes|
        invariant matches == old(matches) + Fresh(unique, Records(relFilePath, decode, RawMatches(content, prefixBytes[..k])))
        invariant unique' == unique + Elems(Records(relFilePath, decode, RawMatches(content, prefixBytes[..k])))
      {
        ghost var done := Records(relFilePath, decode, RawMatches(content, prefixBytes[..k]));
        ghost var more := Records(relFilePath, decode, PrefixMatches(content, prefixBytes[k], 0));
        unique' := RecordPrefix(content, relFilePath, prefixBytes[k], decode, unique');
        NextPrefixRecords(content, prefixBytes, k, relFilePath, decode, unique);
        AppendAssoc(old(matches), Fresh(unique, done), Fresh(unique + Elems(done), more));
      }
      assert prefixBytes[..|prefixBytes|] == prefixBytes;
    }

    /** The `for prefix in prefix_bytes` body of `process_file`: every match
        of one prefix, left to right. */
    method RecordPrefix(content: seq<byte>, relFilePath: string, prefix: seq<byte>,
                        decode: seq<byte> -> string, unique: set<Match>) returns (unique': set<Match>)
      requires ScanPrefix(prefix)
      modifies this
      ensures matches == old(matches) + Fresh(unique, Records(relFilePath, decode, PrefixMatches(content, prefix, 0)))
      ensures unique' == unique + Elems(Records(relFilePath, decode, PrefixMatches(content, prefix, 0)))
    {
      ghost var done: seq<seq<byte>> := [];
      unique' := unique;
      var start: nat := 0;
      while true
        invariant start <= |content|
        invariant PrefixMatches(content, prefix, 0) == done + PrefixMatches(content, prefix, start)
        invariant matches == old(matches) + Fresh(unique, Records(relFilePath, decode, done))
        invariant unique' == unique + Elems(Records(relFilePath, decode, done))
        decreases |content| - start
      {
        var found := Find(content, prefix, start);
        if found == -1 {
          break;
        }
        var at: nat := found;
        assert content[at] == content[at..at + |prefix|][0];
        var end := at;
        while end < |content| && !IsStop(content[end])
          invariant at <= end <= |content|
          invariant MatchEnd(content, end) == MatchEnd(content, at)
          decreases |content| - end
        {
          end := end + 1;
        }
        var m := content[at..end];
        var text := decode(m);
        RecordStep(unique, relFilePath, decode, done, m);
        if text != "" {
          if (relFilePath, text) !in unique' {
            AppendAssoc(old(matches), Fresh(unique, Records(relFilePath, decode, done)), [(relFilePath, text)]);
            unique' := unique' + {(relFilePath, text)};
            matches := matches + [(relFilePath, text)];
          } else {
            assert Fresh(unique, Records(relFilePath, decode, done)) + [] == Fresh(unique, Records(relFilePath, decode, done));
          }
        } else {
          assert Fresh(unique, Records(relFilePath, decode, done)) + [] == Fresh(unique, Records(relFilePath, decode, done));
        }
        assert PrefixMatches(content, prefix, start) == [m] + PrefixMatches(content, prefix, end);
        AppendAssoc(done, [m], PrefixMatches(content, prefix, end));
        done := done + [m];
        start := end;
      }
      assert done + [] == done;
    }
  }
}
