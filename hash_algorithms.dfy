/** `Hashtools/hash_algorithms.py`: the path hash variant `wdfpck_hash`, the
    string hashes `BKDRHash`, `DJBHash` and `CRC32Hash`, and the dispatcher
    `calc_hash`. */
module HashAlgorithms {

  import opened Options
  import opened Bytes
  import opened PyText
  import opened HashWords

  // ---------------------------------------------------------------------------
  // wdfpck_hash

  /** `string.lower().replace('/', '\\')`: no strip, no collapse of `\\\\`. */
  function WdfpckAdjust(s: string): string
  {
    Replace(Lower(s), "/", "\\")
  }

  /** The hashed bytes: the UTF-8 of the adjusted string, cut to 256. */
  function PckBytes(s: string): (b: seq<byte>)
    ensures |b| <= MAX_BYTES
  {
    Truncated(Utf8(WdfpckAdjust(s)))
  }

  /** `while i < 256 // 4 and m[i]: i += 1` over the words `ws`, started at `k`. */
  function ScanFrom(ws: seq<u32>, k: nat): (i: nat)
    requires k <= 64 <= |ws|
    ensures k <= i <= 64
    decreases 64 - k
  {
    if k == 64 || ws[k] == 0 then k else ScanFrom(ws, k + 1)
  }

  /** The scan passes only non-zero words and stops at a zero word or at 64. */
  lemma {:induction false} ScanFromStops(ws: seq<u32>, k: nat)
    requires k <= 64 <= |ws|
    ensures forall j :: k <= j < ScanFrom(ws, k) ==> ws[j] != 0
    ensures ScanFrom(ws, k) < 64 ==> ws[ScanFrom(ws, k)] == 0
    decreases 64 - k
  {
    if k < 64 && ws[k] != 0 {
      ScanFromStops(ws, k + 1);
    }
  }

  /** The index of the first zero word of `m` after packing, at most 64. */
  function ScanEnd(b: seq<byte>): (i: nat)
    ensures i <= 64
  {
    ScanFrom(Words(b, WORD_SLOTS), 0)
  }

  /** What the scan observes of the bytes. */
  lemma ScanEndStops(b: seq<byte>)
    ensures forall j :: 0 <= j < ScanEnd(b) ==> Word(b, j) != 0
    ensures ScanEnd(b) < 64 ==> Word(b, ScanEnd(b)) == 0
  {
    ScanFromStops(Words(b, WORD_SLOTS), 0);
  }

  /** The scan never passes the packed words: the word after them is zero. */
  lemma ScanEndBound(b: seq<byte>)
    ensures ScanEnd(b) <= WordCount(b)
  {
    ScanEndStops(b);
    if WordCount(b) < 64 {
      WordPastEnd(b, WordCount(b));
    }
  }

  /** Without a NUL character the scan stops exactly after the packed words. */
  lemma ScanEndNoNul(s: string)
    requires '\0' !in s
    ensures ScanEnd(PckBytes(s)) == WordCount(PckBytes(s))
  {
    var b := PckBytes(s);
    var t := WdfpckAdjust(s);
    assert '\0' !in Lower(s) by {
      forall i | 0 <= i < |s| ensures Lower(s)[i] != '\0' {
        assert s[i] in s;
      }
    }
    ReplaceKeepsOut(Lower(s), "/", "\\", '\0');
    Utf8NoZero(t);
    assert 0 !in b by {
      forall i | 0 <= i < |b| ensures b[i] != 0 {
        assert b[i] == Utf8(t)[i];
        assert Utf8(t)[i] in Utf8(t);
      }
    }
    ScanEndBound(b);
    WordCountBound(b);
    ScanEndStops(b);
    if ScanEnd(b) < WordCount(b) {
      PackedWordsNonZero(b, ScanEnd(b));
    }
  }

  /** `m[0 .. i+2)` after the scan: the words before the first zero word, then the trailers. */
  function PckMessage(b: seq<byte>): (ws: seq<u32>)
    ensures |ws| == ScanEnd(b) + 2
    ensures ws[..ScanEnd(b)] == Words(b, ScanEnd(b))
    ensures ws[ScanEnd(b)] == TRAILER_0 && ws[ScanEnd(b) + 1] == TRAILER_1
  {
    Words(b, ScanEnd(b)) + [TRAILER_0, TRAILER_1]
  }

  /** One round of `wdfpck_hash`: x only takes the word by xor (`eax1` is
      never stored back), `e2` is built from that x, and y takes
      `y * e2 + 2 * e2`, plus 2 when that sum is below `2 * e2`. */
  function PckRound(r: Registers, w: u32): Registers
  {
    var v := RotateLeft1(r.v);
    var b := W_XOR ^ v;
    var x := r.x ^ w;
    var y := r.y ^ w;
    var e2 := ((b + x) | OR_2) & AND_2;
    var e3 := e2 << 1;
    var y1 := Mul(y, e2) + e3;
    Registers(v, x, if y1 < e3 then y1 + 2 else y1)
  }

  function PckRounds(ws: seq<u32>): Registers
    decreases |ws|
  {
    if ws == [] then INITIAL else PckRound(PckRounds(ws[..|ws| - 1]), ws[|ws| - 1])
  }

  /** The hash of a string: `x ^ y` after the rounds, below 2^32. */
  function WdfpckHashOf(s: string): (h: nat)
    ensures h < TWO_32
  {
    var r := PckRounds(PckMessage(PckBytes(s)));
    (r.x ^ r.y) as nat
  }

  /** `wdfpck_hash(string, seed, case_sensitive)`: `seed` and `case_sensitive`
      play no part. */
  method WdfpckHash(s: string) returns (h: nat)
    ensures h == WdfpckHashOf(s)
  {
    var b := Truncated(Utf8(WdfpckAdjust(s)));
    var m, i := PackPckMessage(b);
    var r := RunPckRounds(m, i + 2);
    h := (r.x ^ r.y) as nat;
  }

  /** The packing, the scan for the first zero word and the two trailers. */
  method PackPckMessage(b: seq<byte>) returns (m: array<u32>, i: nat)
    requires |b| <= MAX_BYTES
    ensures fresh(m) && m.Length == WORD_SLOTS
    ensures i == ScanEnd(b) && i + 2 <= m.Length
    ensures m[..i + 2] == PckMessage(b)
  {
    m := FillWords(b);
    assert m[..] == Words(b, WORD_SLOTS);
    i := ScanZero(m);
    WordsPrefix(b, i, WORD_SLOTS);
    ghost var words := m[..i];
    m[i] := TRAILER_0;
    m[i + 1] := TRAILER_1;
    assert m[..i] == words;
    assert m[..i + 2] == m[..i] + [TRAILER_0, TRAILER_1];
  }

  /** The scan loop, which reads `m` and changes nothing. */
  method ScanZero(m: array<u32>) returns (i: nat)
    requires 64 <= m.Length
    ensures i == ScanFrom(m[..], 0)
  {
    i := 0;
    while i < 64 && m[i] != 0
      invariant 0 <= i <= 64
      invariant ScanFrom(m[..], i) == ScanFrom(m[..], 0)
    {
      i := i + 1;
    }
  }

  lemma WordsPrefix(b: seq<byte>, k: nat, n: nat)
    requires k <= n
    ensures Words(b, n)[..k] == Words(b, k)
  {
  }

  /** The `while idx < i+2` loop, one `PckRound` per word. */
  method RunPckRounds(m: array<u32>, n: nat) returns (r: Registers)
    requires n <= m.Length
    ensures r == PckRounds(m[..n])
  {
    r := INITIAL;
    var idx := 0;
    while idx < n
      invariant 0 <= idx <= n
      invariant r == PckRounds(m[..idx])
    {
      r := PckRound(r, m[idx]);
      PckRoundsPrefix(m[..], idx);
      idx := idx + 1;
    }
  }

  lemma PckRoundsPrefix(ws: seq<u32>, k: nat)
    requires k < |ws|
    ensures PckRounds(ws[..k + 1]) == PckRound(PckRounds(ws[..k]), ws[k])
  {
    assert ws[..k + 1][..k] == ws[..k];
  }

  /** The xor of an initial value with every word, in order. */
  function XorFold(acc: u32, ws: seq<u32>): u32
    decreases |ws|
  {
    if ws == [] then acc else XorFold(acc, ws[..|ws| - 1]) ^ ws[|ws| - 1]
  }

  /** x never takes a product: after the rounds it is `0x37A8470E ^ m[0] ^ ... ^ m[i+1]`. */
  lemma {:induction false} PckXIsXorFold(ws: seq<u32>)
    ensures PckRounds(ws).x == XorFold(X_INIT, ws)
    decreases |ws|
  {
    if ws != [] {
      PckXIsXorFold(ws[..|ws| - 1]);
    }
  }

  /** v takes the same schedule as in `wdf_string_id`: one left rotation per round. */
  lemma {:induction false} PckRotationSchedule(ws: seq<u32>)
    ensures PckRounds(ws).v == RotateLeftN(V_INIT, |ws|)
    decreases |ws|
  {
    if ws != [] {
      PckRotationSchedule(ws[..|ws| - 1]);
    }
  }

  /** Unlike `string_adjust`, the adjustment keeps surrounding white space. */
  lemma WdfpckAdjustKeepsSpace(s: string)
    requires s != [] && IsSpace(s[0])
    ensures WdfpckAdjust(s) != [] && IsSpace(WdfpckAdjust(s)[0])
  {
    var l := Lower(s);
    ReplaceOne(l, '/', '\\');
    assert Replace(l, "/", "\\")[0] == l[0];
  }

  // ---------------------------------------------------------------------------
  // BKDRHash, DJBHash, CRC32Hash

  /** `h = h * mult + ord(ch)` over the code points, from `start`, unbounded. */
  function Horner(start: int, mult: int, s: string): int
    decreases |s|
  {
    if s == [] then start else Horner(start, mult, s[..|s| - 1]) * mult + s[|s| - 1] as int
  }

  function Pow(m: int, n: nat): int
  {
    if n == 0 then 1 else m * Pow(m, n - 1)
  }

  /** The code points weighted by descending powers of the multiplier. */
  function Poly(mult: int, s: string): int
    decreases |s|
  {
    if s == [] then 0 else s[0] as int * Pow(mult, |s| - 1) + Poly(mult, s[1..])
  }

  lemma {:induction false} PolySnoc(mult: int, s: string, c: char)
    ensures Poly(mult, s + [c]) == Poly(mult, s) * mult + c as int
    decreases |s|
  {
    if s == [] {
      assert [c][1..] == [];
    } else {
      assert (s + [c])[1..] == s[1..] + [c];
      PolySnoc(mult, s[1..], c);
      calc {
        Poly(mult, s + [c]);
        s[0] as int * Pow(mult, |s|) + Poly(mult, s[1..] + [c]);
        s[0] as int * (mult * Pow(mult, |s| - 1)) + (Poly(mult, s[1..]) * mult + c as int);
        { MulAssoc(s[0] as int, mult, Pow(mult, |s| - 1)); }
        (s[0] as int * Pow(mult, |s| - 1) + Poly(mult, s[1..])) * mult + c as int;
      }
    }
  }

  lemma MulAssoc(a: int, b: int, c: int)
    ensures a * (b * c) == (a * c) * b
  {
  }

  /** The fold has the closed form `start * mult^n + sum of ord(s[j]) * mult^(n-1-j)`. */
  lemma {:induction false} HornerClosedForm(start: int, mult: int, s: string)
    ensures Horner(start, mult, s) == start * Pow(mult, |s|) + Poly(mult, s)
    decreases |s|
  {
    if s != [] {
      var init := s[..|s| - 1];
      var c := s[|s| - 1];
      HornerClosedForm(start, mult, init);
      assert s == init + [c];
      PolySnoc(mult, init, c);
      var pw := Pow(mult, |init|);
      assert Pow(mult, |s|) == mult * pw;
      MulAssoc(start, mult, pw);
      Distrib(start * pw, Poly(mult, init), mult);
    }
  }

  lemma Distrib(a: int, b: int, m: int)
    ensures (a + b) * m == a * m + b * m
  {
  }

  /** The text a hash reads: lowered unless `case_sensitive`. */
  function CaseFolded(s: string, caseSensitive: bool): string
  {
    if caseSensitive then s else Lower(s)
  }

  /** `BKDRHash`: the fold from 0 with the seed as multiplier, `& 0x7FFFFFFF`. */
  function BkdrOf(s: string, seed: int, caseSensitive: bool): (h: nat)
    ensures h < TWO_31
  {
    Horner(0, seed, CaseFolded(s, caseSensitive)) % TWO_31
  }

  /** `DJBHash`: the fold from the seed with 33 (`(h << 5) + h`) as multiplier, `& 0xFFFFFFFF`. */
  function DjbOf(s: string, seed: int, caseSensitive: bool): (h: nat)
    ensures h < TWO_32
  {
    Horner(seed, 33, CaseFolded(s, caseSensitive)) % TWO_32
  }

  /** The loop `hash_val = hash_val * mult + ord(ch)` on Python's unbounded integers. */
  method Fold(start: int, mult: int, s: string) returns (h: int)
    ensures h == Horner(start, mult, s)
  {
    h := start;
    var k := 0;
    while k < |s|
      invariant 0 <= k <= |s|
      invariant h == Horner(start, mult, s[..k])
    {
      assert s[..k + 1][..k] == s[..k];
      h := h * mult + s[k] as int;
      k := k + 1;
    }
    assert s[..k] == s;
  }

  method BkdrHash(s: string, seed: int, caseSensitive: bool) returns (h: nat)
    ensures h == BkdrOf(s, seed, caseSensitive)
  {
    var t := if caseSensitive then s else Lower(s);
    var hashVal := Fold(0, seed, t);
    h := hashVal % TWO_31;
  }

  method DjbHash(s: string, seed: int, caseSensitive: bool) returns (h: nat)
    ensures h == DjbOf(s, seed, caseSensitive)
  {
    var t := if caseSensitive then s else Lower(s);
    var hashVal := Fold(seed, 33, t);
    h := hashVal % TWO_32;
  }

  /** Without `case_sensitive`, upper and lower case hash alike. */
  lemma CaseInsensitiveHashes(s: string, seed: int)
    ensures BkdrOf(Lower(s), seed, false) == BkdrOf(s, seed, false)
    ensures DjbOf(Lower(s), seed, false) == DjbOf(s, seed, false)
  {
    LowerIdempotent(s);
  }

  /** `CRC32Hash`: `zlib.crc32` of the UTF-8 bytes, here the parameter `crc32`. */
  function Crc32Of(s: string, caseSensitive: bool, crc32: seq<byte> -> nat): (h: nat)
    ensures h < TWO_32
  {
    crc32(Utf8(CaseFolded(s, caseSensitive))) % TWO_32
  }

  // ---------------------------------------------------------------------------
  // get_algorithm_names, calc_hash

  const WDFPCK_HASH: string := "wdfpck_hash"
  const BKDR_HASH: string := "BKDRHash"
  const CRC32_HASH: string := "CRC32Hash"
  const DJB_HASH: string := "DJBHash"

  const VALUE_ERROR: string := "ValueError"
  const TYPE_ERROR: string := "TypeError"

  function AlgorithmNames(): (names: seq<string>)
    ensures |names| == 4
  {
    [WDFPCK_HASH, BKDR_HASH, CRC32_HASH, DJB_HASH]
  }

  /** `calc_hash`: exact names only.  A seed of None (`seed.None?`) makes the
      arithmetic of BKDR (once a character is read) and DJB (always) raise
      `TypeError`; wdfpck and CRC32 ignore it. */
  function CalcHash(algo: string, s: string, caseSensitive: bool, seed: Option<int>,
                    crc32: seq<byte> -> nat): (r: Result<nat>)
    ensures r.Err? && r.error == VALUE_ERROR <==> algo !in AlgorithmNames()
    ensures r.Ok? ==> r.value < TWO_32
  {
    if algo == WDFPCK_HASH then Ok(WdfpckHashOf(s))
    else if algo == BKDR_HASH then
      if seed.Some? then Ok(BkdrOf(s, seed.value, caseSensitive))
      else if s == [] then Ok(0)
      else Err(TYPE_ERROR)
    else if algo == CRC32_HASH then Ok(Crc32Of(s, caseSensitive, crc32))
    else if algo == DJB_HASH then
      if seed.Some? then Ok(DjbOf(s, seed.value, caseSensitive)) else Err(TYPE_ERROR)
    else Err(VALUE_ERROR)
  }

  /** Each listed name dispatches to its own hash. */
  lemma CalcHashDispatch(s: string, caseSensitive: bool, seed: int, crc32: seq<byte> -> nat)
    ensures CalcHash(WDFPCK_HASH, s, caseSensitive, Some(seed), crc32) == Ok(WdfpckHashOf(s))
    ensures CalcHash(BKDR_HASH, s, caseSensitive, Some(seed), crc32) == Ok(BkdrOf(s, seed, caseSensitive))
    ensures CalcHash(CRC32_HASH, s, caseSensitive, Some(seed), crc32) == Ok(Crc32Of(s, caseSensitive, crc32))
    ensures CalcHash(DJB_HASH, s, caseSensitive, Some(seed), crc32) == Ok(DjbOf(s, seed, caseSensitive))
  {
  }
}
