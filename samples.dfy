/** `Hashtools/utils.py`: `parse_samples`, which reads `path[,hash]` lines. */
module Samples {

  import opened Options
  import opened PyText
  import opened Numerals
  import opened Seqs

  /** `(path, hash_val)`, with `None` when the line had one field. */
  datatype Sample = Sample(path: string, hash: Option<int>)

  /** `line.replace('\t', ',').replace(';', ',')`. */
  function FoldDelimiters(l: string): string
  {
    Replace(Replace(l, "\t", ","), ";", ",")
  }

  predicate IsDelimiter(c: char)
  {
    c == ',' || c == '\t' || c == ';'
  }

  /** Tab and `;` become `,` and nothing else changes. */
  lemma FoldDelimitersPointwise(l: string)
    ensures |FoldDelimiters(l)| == |l|
    ensures forall i :: 0 <= i < |l| ==>
      FoldDelimiters(l)[i] == if l[i] == '\t' || l[i] == ';' then ',' else l[i]
  {
    ReplaceOne(l, '\t', ',');
    ReplaceOne(Replace(l, "\t", ","), ';', ',');
  }

  /** The fields of a stripped line. */
  function Fields(l: string): (parts: seq<string>)
    ensures |parts| >= 1
  {
    Split(FoldDelimiters(l), ',')
  }

  /** `int(hash_str, 16)` after a `0x` prefix (in either case), else `int(hash_str)`. */
  function ParseHash(h: string): Option<int>
  {
    if StartsWith(Lower(h), "0x") then ParseHexInt(h) else ParseInt(h)
  }

  /** The sample of a stripped line, if any. */
  function LineSample(l: string): Option<Sample>
  {
    if l == [] || StartsWith(l, "#") then None
    else
      var parts := Fields(l);
      if |parts| >= 2 then
        match ParseHash(Strip(parts[1]))
        case Some(v) => Some(Sample(Strip(parts[0]), Some(v)))
        case None => None
      else if Strip(parts[0]) != [] then Some(Sample(Strip(parts[0]), None))
      else None
  }

  /** The sample of one line of `splitlines()`, if any. */
  function SampleOf(raw: string): Option<Sample>
  {
    LineSample(Strip(raw))
  }

  /** The samples of the lines, in line order, at most one per line. */
  function SamplesOf(lines: seq<string>): (samples: seq<Sample>)
    ensures |samples| <= |lines|
  {
    FilterMap(SampleOf, lines)
  }

  /** `parse_samples(text)`. */
  method ParseSamples(text: string) returns (samples: seq<Sample>)
    ensures samples == SamplesOf(SplitLines(text))
  {
    var lines := SplitLines(text);
    samples := [];
    var k := 0;
    while k < |lines|
      invariant 0 <= k <= |lines|
      invariant samples == SamplesOf(lines[..k])
    {
      FilterMapNext(SampleOf, lines, k);
      var sample := ParseLine(lines[k]);
      if sample.Some? {
        samples := samples + [sample.value];
      }
      k := k + 1;
    }
    assert lines[..k] == lines;
  }

  /** The body of the loop of `parse_samples` for one line. */
  method ParseLine(raw: string) returns (r: Option<Sample>)
    ensures r == SampleOf(raw)
  {
    var line := Strip(raw);
    if line == [] || StartsWith(line, "#") {
      return None;
    }
    var parts := Split(FoldDelimiters(line), ',');
    if |parts| >= 2 {
      var path := Strip(parts[0]);
      var hashStr := Strip(parts[1]);
      var hashVal := if StartsWith(Lower(hashStr), "0x") then ParseHexInt(hashStr) else ParseInt(hashStr);
      if hashVal.None? {
        return None;
      }
      return Some(Sample(path, Some(hashVal.value)));
    } else {
      var path := Strip(parts[0]);
      if path != [] {
        return Some(Sample(path, None));
      }
      return None;
    }
  }

  /** Every sample comes from its own line, in line order, and every line
      between them gives none. */
  lemma SamplesOrigin(lines: seq<string>) returns (idx: seq<nat>)
    ensures |idx| == |SamplesOf(lines)|
    ensures forall k :: 0 <= k < |idx| ==> idx[k] < |lines| && SampleOf(lines[idx[k]]) == Some(SamplesOf(lines)[k])
    ensures forall k, j :: 0 <= k < j < |idx| ==> idx[k] < idx[j]
    ensures forall j :: 0 <= j < |lines| && j !in idx ==> SampleOf(lines[j]).None?
  {
    idx := FilterMapOrigin(SampleOf, lines);
  }

  /** Texts that differ only in which delimiters they use fold alike. */
  lemma FoldedAlike(a: string, b: string)
    requires |a| == |b|
    requires forall i :: 0 <= i < |a| ==> a[i] == b[i] || (IsDelimiter(a[i]) && IsDelimiter(b[i]))
    ensures FoldDelimiters(a) == FoldDelimiters(b)
  {
    FoldDelimitersPointwise(a);
    FoldDelimitersPointwise(b);
  }

  /** Lines that differ only in which of `,`, tab and `;` separate the fields
      give the same sample. */
  lemma DelimitersAlike(a: string, b: string)
    requires |Strip(a)| == |Strip(b)|
    requires forall i :: 0 <= i < |Strip(a)| ==>
      Strip(a)[i] == Strip(b)[i] || (IsDelimiter(Strip(a)[i]) && IsDelimiter(Strip(b)[i]))
    ensures SampleOf(a) == SampleOf(b)
  {
    var la, lb := Strip(a), Strip(b);
    FoldedAlike(la, lb);
    if la != [] {
      assert StartsWith(la, "#") <==> la[0] == '#';
      assert StartsWith(lb, "#") <==> lb[0] == '#';
    }
    FieldsDecide(la, lb);
  }

  /** The sample depends only on emptiness, the comment mark and the fields. */
  lemma FieldsDecide(la: string, lb: string)
    requires (la == []) == (lb == [])
    requires StartsWith(la, "#") == StartsWith(lb, "#")
    requires Fields(la) == Fields(lb)
    ensures LineSample(la) == LineSample(lb)
  {
  }

  /** A text without separators, surrounding white space or line breaks. */
  predicate PlainField(s: string)
  {
    && s != []
    && !IsSpace(s[0]) && !IsSpace(s[|s| - 1])
    && forall c :: c in s ==> !IsDelimiter(c)
  }

  /** A path that does not begin a comment. */
  predicate PlainPath(p: string)
  {
    PlainField(p) && p[0] != '#'
  }

  lemma PlainFieldFields(s: string)
    requires PlainField(s)
    ensures Strip(s) == s && FoldDelimiters(s) == s && Split(s, ',') == [s]
  {
    StripNoSpaceEnds(s);
    ReplaceAbsentItem(s, '\t', ",");
    ReplaceAbsentItem(s, ';', ",");
  }

  lemma JoinStripped(p: string, h: string)
    requires PlainField(p) && PlainField(h)
    ensures Strip(p + "," + h) == p + "," + h
  {
    var l := p + "," + h;
    assert l[0] == p[0] && l[|l| - 1] == h[|h| - 1];
    StripNoSpaceEnds(l);
  }

  lemma JoinFolded(p: string, h: string)
    requires PlainField(p) && PlainField(h)
    ensures FoldDelimiters(p + "," + h) == p + "," + h
  {
    var l := p + "," + h;
    assert forall c :: c in l ==> c in p || c == ',' || c in h;
    ReplaceAbsentItem(l, '\t', ",");
    ReplaceAbsentItem(l, ';', ",");
  }

  /** The line `path,hash` splits into exactly those two fields. */
  lemma TwoFields(p: string, h: string)
    requires PlainPath(p) && PlainField(h)
    ensures var l := p + "," + h;
      Strip(l) == l && !StartsWith(l, "#") && Fields(l) == [p, h]
  {
    var l := p + "," + h;
    JoinStripped(p, h);
    JoinFolded(p, h);
    PlainFieldFields(h);
    assert ',' !in p;
    SplitCons(p, ',', h);
    assert l[0] == p[0];
  }

  /** With a second field the sample is the path and the parsed hash, or
      nothing when the hash does not parse. */
  lemma SampleOfTwoFields(p: string, h: string)
    requires PlainPath(p) && PlainField(h)
    ensures SampleOf(p + "," + h) ==
      match ParseHash(h)
      case Some(v) => Some(Sample(p, Some(v)))
      case None => None
  {
    TwoFields(p, h);
    PlainFieldFields(p);
    PlainFieldFields(h);
  }

  /** One field: the sample is the path with no hash. */
  lemma PathOnly(p: string)
    requires PlainPath(p)
    ensures SampleOf(p) == Some(Sample(p, None))
  {
    PlainFieldFields(p);
  }

  /** Letters, digits and `-` make a plain field. */
  lemma AlphanumericField(s: string)
    requires s != []
    requires forall c :: c in s ==> '0' <= c <= '9' || 'A' <= c <= 'Z' || 'a' <= c <= 'z' || c == '-'
    ensures PlainField(s)
  {
    assert s[0] in s && s[|s| - 1] in s;
  }

  lemma HexField(u: nat, width: nat)
    ensures PlainField("0x" + HexPadded(u, width))
    ensures ParseHash("0x" + HexPadded(u, width)) == Some(u)
  {
    var d := HexPadded(u, width);
    var h := "0x" + d;
    assert forall c :: c in d ==> DigitValue(c, 16).Some?;
    assert forall c :: c in h ==> c == '0' || c == 'x' || c in d;
    AlphanumericField(h);
    assert Lower(h)[..2] == "0x";
    HexPaddedRoundTrip(u, width);
  }

  /** A `0x`-prefixed upper-case hash field reads back as its value. */
  lemma HexSample(p: string, u: nat, width: nat)
    requires PlainPath(p)
    ensures SampleOf(p + "," + "0x" + HexPadded(u, width)) == Some(Sample(p, Some(u)))
  {
    HexField(u, width);
    SampleOfTwoFields(p, "0x" + HexPadded(u, width));
    assert p + "," + "0x" + HexPadded(u, width) == p + "," + ("0x" + HexPadded(u, width));
  }

  lemma DecimalChars(n: int)
    ensures forall c :: c in Decimal(n) ==> c == '-' || '0' <= c <= '9'
  {
    var m: nat := if n < 0 then -n else n;
    assert forall c :: c in DecimalDigits(m) ==> '0' <= c <= '9';
  }

  lemma DecimalField(n: int)
    ensures PlainField(Decimal(n))
    ensures ParseHash(Decimal(n)) == Some(n)
  {
    var h := Decimal(n);
    DecimalChars(n);
    AlphanumericField(h);
    NoHexPrefix(h);
    DecimalRoundTrip(n);
  }

  /** Digits and `-` never start with `0x` in either case. */
  lemma NoHexPrefix(h: string)
    requires forall c :: c in h ==> c == '-' || '0' <= c <= '9'
    ensures !StartsWith(Lower(h), "0x")
  {
    if |h| >= 2 {
      assert h[1] in h;
      assert Lower(h)[1] == LowerChar(h[1]) != 'x';
    }
  }

  /** A decimal hash field reads back as its value. */
  lemma DecimalSample(p: string, n: int)
    requires PlainPath(p)
    ensures SampleOf(p + "," + Decimal(n)) == Some(Sample(p, Some(n)))
  {
    DecimalField(n);
    SampleOfTwoFields(p, Decimal(n));
  }

  /** A hash field that does not parse drops the whole line, although the
      path alone would have made a sample. */
  lemma UnparsableDropped(p: string, h: string)
    requires PlainPath(p) && PlainField(h)
    requires ParseHash(h).None?
    ensures SampleOf(p + "," + h).None?
    ensures SampleOf(p).Some?
  {
    SampleOfTwoFields(p, h);
    PathOnly(p);
  }
}
