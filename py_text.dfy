/** The Python string built-ins the tools use, on Dafny strings (sequences of
    Unicode scalar values).  Case mapping is ASCII-only; see README. */
module PyText {

  /** `str.isspace()`: the characters that `str.strip()` removes. */
  predicate IsSpace(c: char)
  {
    var n := c as int;
    n == 0x20 || 0x09 <= n <= 0x0D || 0x1C <= n <= 0x1F || n == 0x85 || n == 0xA0 ||
    n == 0x1680 || 0x2000 <= n <= 0x200A || n == 0x2028 || n == 0x2029 ||
    n == 0x202F || n == 0x205F || n == 0x3000
  }

  /** The line boundaries `str.splitlines()` recognises ("\r\n" counts once). */
  predicate IsLineBreak(c: char)
  {
    var n := c as int;
    0x0A <= n <= 0x0D || 0x1C <= n <= 0x1E || n == 0x85 || n == 0x2028 || n == 0x2029
  }

  predicate IsUpper(c: char)
  {
    'A' <= c <= 'Z'
  }

  function LowerChar(c: char): (d: char)
    ensures !IsUpper(d)
    ensures IsSpace(d) == IsSpace(c)
    ensures IsUpper(c) || d == c
  {
    if IsUpper(c) then (c as int + 32) as char else c
  }

  /** `str.lower()` restricted to ASCII letters. */
  function Lower(s: string): (r: string)
    ensures |r| == |s|
    ensures forall i :: 0 <= i < |s| ==> r[i] == LowerChar(s[i])
  {
    seq(|s|, i requires 0 <= i < |s| => LowerChar(s[i]))
  }

  lemma LowerIdempotent(s: string)
    ensures Lower(Lower(s)) == Lower(s)
  {
  }

  lemma LowerAppend(s: string, t: string)
    ensures Lower(s + t) == Lower(s) + Lower(t)
  {
  }

  // ---------------------------------------------------------------------------
  // Searching

  predicate OccursAt<T(==)>(s: seq<T>, pat: seq<T>, i: int)
  {
    0 <= i && i + |pat| <= |s| && s[i..i + |pat|] == pat
  }

  /** `s.find(pat, from)` for a non-negative start: the lowest index at or
      after `from` where `pat` occurs, or -1. */
  function Find<T(==)>(s: seq<T>, pat: seq<T>, from: nat): (r: int)
    ensures r == -1 || (from <= r && OccursAt(s, pat, r))
    ensures r == -1 ==> forall i :: from <= i ==> !OccursAt(s, pat, i)
    ensures r != -1 ==> forall i :: from <= i < r ==> !OccursAt(s, pat, i)
    decreases |s| - from
  {
    if from + |pat| > |s| then -1
    else if s[from..from + |pat|] == pat then from
    else Find(s, pat, from + 1)
  }

  predicate StartsWith<T(==)>(s: seq<T>, pat: seq<T>)
  {
    |pat| <= |s| && s[..|pat|] == pat
  }

  predicate EndsWith<T(==)>(s: seq<T>, pat: seq<T>)
  {
    |pat| <= |s| && s[|s| - |pat|..] == pat
  }

  // ---------------------------------------------------------------------------
  // strip

  function LeadingSpaces(s: string): (n: nat)
    ensures n <= |s|
    ensures forall i :: 0 <= i < n ==> IsSpace(s[i])
    ensures n < |s| ==> !IsSpace(s[n])
  {
    if s != [] && IsSpace(s[0]) then 1 + LeadingSpaces(s[1..]) else 0
  }

  function TrailingSpaces(s: string): (n: nat)
    ensures n <= |s|
    ensures forall i :: |s| - n <= i < |s| ==> IsSpace(s[i])
    ensures n < |s| ==> !IsSpace(s[|s| - n - 1])
  {
    if s != [] && IsSpace(s[|s| - 1]) then 1 + TrailingSpaces(s[..|s| - 1]) else 0
  }

  /** `str.strip()`. */
  function Strip(s: string): (r: string)
    ensures r == [] || (!IsSpace(r[0]) && !IsSpace(r[|r| - 1]))
  {
    var t := s[LeadingSpaces(s)..];
    t[..|t| - TrailingSpaces(t)]
  }

  lemma StripNoSpaceEnds(s: string)
    requires s == [] || (!IsSpace(s[0]) && !IsSpace(s[|s| - 1]))
    ensures Strip(s) == s
  {
    if s != [] {
      assert LeadingSpaces(s) == 0;
      assert TrailingSpaces(s) == 0;
    }
  }

  /** Two strings of equal length with white space at the same positions. */
  predicate SameSpaces(s: string, t: string)
  {
    |s| == |t| && forall i :: 0 <= i < |s| ==> IsSpace(s[i]) == IsSpace(t[i])
  }

  lemma {:induction false} LeadingSpacesAlike(s: string, t: string)
    requires SameSpaces(s, t)
    ensures LeadingSpaces(s) == LeadingSpaces(t)
    decreases |s|
  {
    if s != [] {
      assert SameSpaces(s[1..], t[1..]);
      LeadingSpacesAlike(s[1..], t[1..]);
    }
  }

  lemma {:induction false} TrailingSpacesAlike(s: string, t: string)
    requires SameSpaces(s, t)
    ensures TrailingSpaces(s) == TrailingSpaces(t)
    decreases |s|
  {
    if s != [] {
      assert SameSpaces(s[..|s| - 1], t[..|t| - 1]);
      TrailingSpacesAlike(s[..|s| - 1], t[..|t| - 1]);
    }
  }

  lemma SameSpacesSuffix(s: string, t: string, n: nat)
    requires SameSpaces(s, t) && n <= |s|
    ensures SameSpaces(s[n..], t[n..])
  {
    forall i | 0 <= i < |s| - n ensures IsSpace(s[n..][i]) == IsSpace(t[n..][i]) {
      assert s[n..][i] == s[n + i] && t[n..][i] == t[n + i];
    }
  }

  /** `Strip(s)` in terms of the two space counts. */
  lemma StripBounds(s: string) returns (n: nat, m: nat)
    ensures n == LeadingSpaces(s) && m == TrailingSpaces(s[n..])
    ensures n + m <= |s| && Strip(s) == s[n..|s| - m]
  {
    n := LeadingSpaces(s);
    m := TrailingSpaces(s[n..]);
  }

  /** Strings with white space at the same positions are stripped at the same bounds. */
  lemma StripAlike(s: string, t: string) returns (a: nat, b: nat)
    requires SameSpaces(s, t)
    ensures a <= b <= |s| && Strip(s) == s[a..b] && Strip(t) == t[a..b]
  {
    LeadingSpacesAlike(s, t);
    var n, m := StripBounds(s);
    SameSpacesSuffix(s, t, n);
    TrailingSpacesAlike(s[n..], t[n..]);
    var n', m' := StripBounds(t);
    a, b := n, |s| - m;
  }

  lemma LowerSameSpaces(s: string)
    ensures SameSpaces(s, Lower(s))
  {
    forall i | 0 <= i < |s| ensures IsSpace(s[i]) == IsSpace(Lower(s)[i]) {
      assert Lower(s)[i] == LowerChar(s[i]);
    }
  }

  /** Lower-casing commutes with stripping. */
  lemma LowerStrip(s: string)
    ensures Strip(Lower(s)) == Lower(Strip(s))
  {
    LowerSameSpaces(s);
    var a, b := StripAlike(s, Lower(s));
    assert Lower(s)[a..b] == Lower(s[a..b]);
  }

  // ---------------------------------------------------------------------------
  // replace

  /** `s.replace(pat, rep)` for a non-empty pattern: occurrences are found
      left to right and do not overlap. */
  function Replace<T(==)>(s: seq<T>, pat: seq<T>, rep: seq<T>): seq<T>
    requires |pat| > 0
    decreases |s|
  {
    if |s| < |pat| then s
    else if s[..|pat|] == pat then rep + Replace(s[|pat|..], pat, rep)
    else [s[0]] + Replace(s[1..], pat, rep)
  }

  lemma {:induction false} ReplaceAbsent<T>(s: seq<T>, pat: seq<T>, rep: seq<T>)
    requires |pat| > 0
    requires forall i :: 0 <= i ==> !OccursAt(s, pat, i)
    ensures Replace(s, pat, rep) == s
    decreases |s|
  {
    if |s| >= |pat| {
      assert !OccursAt(s, pat, 0);
      forall i | 0 <= i ensures !OccursAt(s[1..], pat, i) {
        assert !OccursAt(s, pat, i + 1);
      }
      ReplaceAbsent(s[1..], pat, rep);
      assert s == [s[0]] + s[1..];
    }
  }

  /** A value that is in neither the input nor the replacement is not in the output. */
  lemma {:induction false} ReplaceKeepsOut<T>(s: seq<T>, pat: seq<T>, rep: seq<T>, c: T)
    requires |pat| > 0 && c !in s && c !in rep
    ensures c !in Replace(s, pat, rep)
    decreases |s|
  {
    if |s| >= |pat| {
      if s[..|pat|] == pat {
        ReplaceKeepsOut(s[|pat|..], pat, rep, c);
      } else {
        ReplaceKeepsOut(s[1..], pat, rep, c);
      }
    }
  }

  /** Replacing a one-element pattern by a different element removes it. */
  lemma {:induction false} ReplaceRemoves<T>(s: seq<T>, a: T, b: T)
    requires a != b
    ensures a !in Replace(s, [a], [b])
    decreases |s|
  {
    if |s| >= 1 {
      ReplaceRemoves(s[1..], a, b);
    }
  }

  /** When the replacement is non-empty, the first and last items of the
      output come from the input's first and last items or from the replacement. */
  lemma {:induction false} ReplaceEnds<T>(s: seq<T>, pat: seq<T>, rep: seq<T>)
    requires |pat| > 0 && |rep| > 0 && |s| > 0
    ensures var r := Replace(s, pat, rep);
      |r| > 0 &&
      (r[0] == s[0] || r[0] == rep[0]) &&
      (r[|r| - 1] == s[|s| - 1] || r[|r| - 1] == rep[|rep| - 1])
    decreases |s|
  {
    if |s| >= |pat| {
      if s[..|pat|] == pat {
        if |s| > |pat| {
          ReplaceEnds(s[|pat|..], pat, rep);
        }
      } else if |s| > 1 {
        ReplaceEnds(s[1..], pat, rep);
      }
    }
  }

  /** Replacing never lengthens when the replacement is no longer than the pattern. */
  lemma {:induction false} ReplaceNotLonger<T>(s: seq<T>, pat: seq<T>, rep: seq<T>)
    requires |pat| > 0 && |rep| <= |pat|
    ensures |Replace(s, pat, rep)| <= |s|
    decreases |s|
  {
    if |s| >= |pat| {
      if s[..|pat|] == pat {
        ReplaceNotLonger(s[|pat|..], pat, rep);
      } else {
        ReplaceNotLonger(s[1..], pat, rep);
      }
    }
  }

  /** A shorter replacement strictly shortens a sequence holding the pattern. */
  lemma {:induction false} ReplaceShrinks<T>(s: seq<T>, pat: seq<T>, rep: seq<T>, i: nat)
    requires |pat| > 0 && |rep| < |pat| && OccursAt(s, pat, i)
    ensures |Replace(s, pat, rep)| < |s|
    decreases |s|
  {
    if s[..|pat|] == pat {
      ReplaceNotLonger(s[|pat|..], pat, rep);
    } else {
      assert i != 0;
      assert s[1..][i - 1..i - 1 + |pat|] == s[i..i + |pat|];
      ReplaceShrinks(s[1..], pat, rep, i - 1);
    }
  }

  /** Replacing an item that does not occur changes nothing. */
  lemma ReplaceAbsentItem<T>(s: seq<T>, a: T, rep: seq<T>)
    requires a !in s
    ensures Replace(s, [a], rep) == s
  {
    forall i | 0 <= i ensures !OccursAt(s, [a], i) {
      if i < |s| {
        assert s[i] in s;
      }
    }
    ReplaceAbsent(s, [a], rep);
  }

  /** Replacing one item by another is a pointwise map. */
  lemma {:induction false} ReplaceOne<T>(s: seq<T>, a: T, b: T)
    ensures |Replace(s, [a], [b])| == |s|
    ensures forall i :: 0 <= i < |s| ==> Replace(s, [a], [b])[i] == if s[i] == a then b else s[i]
    decreases |s|
  {
    if |s| >= 1 {
      ReplaceOne(s[1..], a, b);
      assert s[..1] == [s[0]];
    }
  }

  /** Replacing one item by another commutes with slicing. */
  lemma ReplaceOneSlice<T>(s: seq<T>, a: T, b: T, lo: nat, hi: nat)
    requires lo <= hi <= |s|
    ensures |Replace(s, [a], [b])| == |s|
    ensures Replace(s, [a], [b])[lo..hi] == Replace(s[lo..hi], [a], [b])
  {
    var u := Replace(s, [a], [b]);
    var v := Replace(s[lo..hi], [a], [b]);
    ReplaceOne(s, a, b);
    ReplaceOne(s[lo..hi], a, b);
    forall i | 0 <= i < hi - lo ensures u[lo..hi][i] == v[i] {
      assert u[lo..hi][i] == u[lo + i];
      assert s[lo..hi][i] == s[lo + i];
    }
  }

  lemma ReplaceOneSameSpaces(s: string, a: char, b: char)
    requires !IsSpace(a) && !IsSpace(b)
    ensures SameSpaces(s, Replace(s, [a], [b]))
  {
    var u := Replace(s, [a], [b]);
    ReplaceOne(s, a, b);
    forall i | 0 <= i < |s| ensures IsSpace(s[i]) == IsSpace(u[i]) {
      assert u[i] == if s[i] == a then b else s[i];
    }
  }

  /** Replacing one white-space-free item by another keeps the white space
      where it was, so it commutes with stripping. */
  lemma ReplaceOneStrip(s: string, a: char, b: char)
    requires !IsSpace(a) && !IsSpace(b)
    ensures Strip(Replace(s, [a], [b])) == Replace(Strip(s), [a], [b])
  {
    var u := Replace(s, [a], [b]);
    ReplaceOneSameSpaces(s, a, b);
    var lo, hi := StripAlike(s, u);
    ReplaceOneSlice(s, a, b, lo, hi);
  }

  /** Lower-casing commutes with a replacement whose pattern holds no letter
      and whose replacement holds no upper-case letter. */
  lemma {:induction false} LowerReplace(s: string, pat: string, rep: string)
    requires |pat| > 0
    requires forall i :: 0 <= i < |pat| ==> !IsUpper(pat[i]) && !('a' <= pat[i] <= 'z')
    requires Lower(rep) == rep
    ensures Lower(Replace(s, pat, rep)) == Replace(Lower(s), pat, rep)
    decreases |s|
  {
    var ls := Lower(s);
    if |s| >= |pat| {
      if s[..|pat|] == pat {
        assert ls[..|pat|] == pat by {
          forall i | 0 <= i < |pat| ensures ls[i] == pat[i] {
            assert s[i] == pat[i];
          }
        }
        assert ls[|pat|..] == Lower(s[|pat|..]);
        LowerReplace(s[|pat|..], pat, rep);
        LowerAppend(rep, Replace(s[|pat|..], pat, rep));
      } else {
        var i :| 0 <= i < |pat| && s[..|pat|][i] != pat[i];
        assert ls[..|pat|][i] == LowerChar(s[i]) != pat[i];
        assert ls[1..] == Lower(s[1..]);
        LowerReplace(s[1..], pat, rep);
        LowerAppend([s[0]], Replace(s[1..], pat, rep));
      }
    }
  }

  // ---------------------------------------------------------------------------
  // split and splitlines

  /** `s.split(d)` for a one-character separator. */
  function Split(s: string, d: char): (parts: seq<string>)
    ensures |parts| >= 1
    ensures d !in s ==> parts == [s]
    ensures d in s ==> |parts| >= 2
    ensures forall i :: 0 <= i < |parts| ==> d !in parts[i]
    decreases |s|
  {
    var k := Find(s, [d], 0);
    if k == -1 then
      assert forall i :: 0 <= i < |s| ==> s[i] != d by {
        forall i | 0 <= i < |s| ensures s[i] != d { assert !OccursAt(s, [d], i); }
      }
      [s]
    else
      assert forall i :: 0 <= i < k ==> s[i] != d by {
        forall i | 0 <= i < k ensures s[i] != d { assert !OccursAt(s, [d], i); }
      }
      assert s[k] == d by { assert s[k..k + 1] == [d]; }
      [s[..k]] + Split(s[k + 1..], d)
  }

  function LineEnd(s: string): (k: nat)
    ensures k <= |s|
    ensures forall i :: 0 <= i < k ==> !IsLineBreak(s[i])
    ensures k < |s| ==> IsLineBreak(s[k])
  {
    if s == [] || IsLineBreak(s[0]) then 0 else 1 + LineEnd(s[1..])
  }

  /** `a + [d] + b` splits at that separator when `a` has none. */
  lemma SplitCons(a: string, d: char, b: string)
    requires d !in a
    ensures Split(a + [d] + b, d) == [a] + Split(b, d)
  {
    var s := a + [d] + b;
    var k := Find(s, [d], 0);
    assert OccursAt(s, [d], |a|) by { assert s[|a|..|a| + 1] == [d]; }
    forall i | 0 <= i < |a| ensures !OccursAt(s, [d], i) {
      assert s[i..i + 1] == [a[i]] && a[i] in a;
    }
    assert k == |a|;
    assert s[..k] == a && s[k + 1..] == b;
  }

  /** `s.splitlines()`: the lines without their terminators, and no empty
      line after a final terminator. */
  function SplitLines(s: string): (lines: seq<string>)
    ensures forall i :: 0 <= i < |lines| ==> forall c :: c in lines[i] ==> !IsLineBreak(c)
    decreases |s|
  {
    if s == [] then []
    else
      var k := LineEnd(s);
      if k == |s| then [s]
      else
        var skip := if s[k] == '\r' && k + 1 < |s| && s[k + 1] == '\n' then 2 else 1;
        [s[..k]] + SplitLines(s[k + skip..])
  }
}
