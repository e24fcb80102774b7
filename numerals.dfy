/** Integer rendering (`str(n)`, `'%08X' % n`, `bytes.hex()`) and parsing
    (`int(s)`, `int(s, 16)`) as Python does them, on ASCII digits. */
module Numerals {

  import opened Options
  import opened Bytes

  function DigitChar(d: nat, upper: bool): (c: char)
    requires d < 16
  {
    if d < 10 then ('0' as int + d) as char
    else if upper then ('A' as int + d - 10) as char
    else ('a' as int + d - 10) as char
  }

  /** The value of an ASCII digit in the given base, if it is one. */
  function DigitValue(c: char, base: nat): (r: Option<nat>)
    ensures r.Some? ==> r.value < base
  {
    var d :=
      if '0' <= c <= '9' then c as int - '0' as int
      else if 'a' <= c <= 'f' then c as int - 'a' as int + 10
      else if 'A' <= c <= 'F' then c as int - 'A' as int + 10
      else 16;
    if d < base then Some(d) else None
  }

  lemma DigitCharValue(d: nat, base: nat, upper: bool)
    requires d < base <= 16
    ensures DigitValue(DigitChar(d, upper), base) == Some(d)
  {
  }

  // ---------------------------------------------------------------------------
  // Rendering

  /** The decimal digits of `n`, most significant first, without leading zeros. */
  function DecimalDigits(n: nat): (r: string)
    ensures |r| >= 1
    ensures forall i :: 0 <= i < |r| ==> '0' <= r[i] <= '9'
  {
    if n < 10 then [DigitChar(n, true)] else DecimalDigits(n / 10) + [DigitChar(n % 10, true)]
  }

  /** `str(n)`. */
  function Decimal(n: int): string
  {
    if n < 0 then "-" + DecimalDigits(-n) else DecimalDigits(n)
  }

  /** The last `width` hexadecimal digits of `v`, zero-padded. */
  function HexFixed(v: nat, width: nat, upper: bool): (r: string)
    ensures |r| == width
    ensures forall i :: 0 <= i < |r| ==> DigitValue(r[i], 16).Some?
  {
    if width == 0 then [] else HexFixed(v / 16, width - 1, upper) + [DigitChar(v % 16, upper)]
  }

  /** `'%0*X' % (width, v)`: the upper-case hexadecimal digits of `v`
      without leading zeros, left-padded with zeros to `width`. */
  function HexPadded(v: nat, width: nat): (r: string)
    ensures |r| >= width && |r| >= 1
    ensures forall i :: 0 <= i < |r| ==> DigitValue(r[i], 16).Some?
    decreases v + width
  {
    if v < 16 && width <= 1 then [DigitChar(v, true)]
    else HexPadded(v / 16, if width == 0 then 0 else width - 1) + [DigitChar(v % 16, true)]
  }

  lemma {:induction false} HexPaddedZero(width: nat)
    requires width >= 1
    ensures HexPadded(0, width) == seq(width, _ => '0')
    decreases width
  {
    if width > 1 {
      HexPaddedZero(width - 1);
    }
  }

  /** A single digit is preceded by `width - 1` zeros. */
  lemma HexPaddedDigit(v: nat, width: nat)
    requires v < 16 && width >= 2
    ensures HexPadded(v, width) == seq(width - 1, _ => '0') + [DigitChar(v, true)]
  {
    HexPaddedZero(width - 1);
  }

  /** `bytes.hex()`: two lower-case digits per byte. */
  function HexBytes(b: seq<byte>): (r: string)
    ensures |r| == 2 * |b|
  {
    if b == [] then [] else HexFixed(b[0], 2, false) + HexBytes(b[1..])
  }

  // ---------------------------------------------------------------------------
  // Parsing

  /** The value of a string of digits, most significant first. */
  function DigitsValue(s: string, base: nat): Option<nat>
    decreases |s|
  {
    if s == [] then Some(0)
    else
      match (DigitsValue(s[..|s| - 1], base), DigitValue(s[|s| - 1], base))
      case (Some(high), Some(low)) => Some(high * base + low)
      case _ => None
  }

  function WithoutUnderscores(s: string): (r: string)
    ensures '_' !in r
  {
    if s == [] then [] else (if s[0] == '_' then [] else [s[0]]) + WithoutUnderscores(s[1..])
  }

  /** Python's digit grammar: at least one digit, and single underscores only
      between digits (or, when `lead` holds, also before the first digit). */
  predicate UnderscoresWellPlaced(s: string, lead: bool)
  {
    && s != []
    && s[|s| - 1] != '_'
    && (s[0] == '_' ==> lead && |s| >= 2 && s[1] != '_')
    && forall i :: 0 <= i < |s| - 1 ==> !(s[i] == '_' && s[i + 1] == '_')
  }

  function ParseDigits(s: string, base: nat, lead: bool): Option<nat>
  {
    if UnderscoresWellPlaced(s, lead) then DigitsValue(WithoutUnderscores(s), base) else None
  }

  function ApplySign(negative: bool, r: Option<nat>): Option<int>
  {
    match r
    case None => None
    case Some(v) => var i: int := v; Some(if negative then -i else i)
  }

  /** `int(s)` for a string without surrounding white space, on ASCII digits
      only: other Unicode decimal digits, which `int` also accepts, give `None`. */
  function ParseInt(s: string): Option<int>
  {
    if s != [] && (s[0] == '-' || s[0] == '+') then ApplySign(s[0] == '-', ParseDigits(s[1..], 10, false))
    else ParseDigits(s, 10, false)
  }

  /** `int(s, 16)` for a string without surrounding white space: an optional
      sign, an optional `0x`/`0X` prefix, and an underscore allowed after it.
      As in `ParseInt`, only ASCII digits are recognised. */
  function ParseHexInt(s: string): Option<int>
  {
    var negative := s != [] && s[0] == '-';
    var body := if s != [] && (s[0] == '-' || s[0] == '+') then s[1..] else s;
    if |body| >= 2 && body[0] == '0' && (body[1] == 'x' || body[1] == 'X') then
      ApplySign(negative, ParseDigits(body[2..], 16, true))
    else
      ApplySign(negative, ParseDigits(body, 16, false))
  }

  // ---------------------------------------------------------------------------
  // Round trips

  lemma {:induction false} DecimalDigitsValue(n: nat)
    ensures DigitsValue(DecimalDigits(n), 10) == Some(n)
    decreases n
  {
    var s := DecimalDigits(n);
    if n >= 10 {
      DecimalDigitsValue(n / 10);
      assert s[..|s| - 1] == DecimalDigits(n / 10);
      DigitCharValue(n % 10, 10, true);
    } else {
      DigitCharValue(n, 10, true);
      assert s[..0] == [];
    }
  }

  lemma {:induction false} NoUnderscoreUnchanged(s: string)
    requires '_' !in s
    ensures WithoutUnderscores(s) == s
    decreases |s|
  {
    if s != [] {
      NoUnderscoreUnchanged(s[1..]);
      assert s == [s[0]] + s[1..];
    }
  }

  lemma {:induction false} HexFixedValue(v: nat, width: nat, upper: bool)
    requires v < Pow16(width)
    ensures DigitsValue(HexFixed(v, width, upper), 16) == Some(v)
    decreases width
  {
    var s := HexFixed(v, width, upper);
    if width > 0 {
      HexFixedValue(v / 16, width - 1, upper);
      assert s[..|s| - 1] == HexFixed(v / 16, width - 1, upper);
      DigitCharValue(v % 16, 16, upper);
    }
  }

  function Pow16(k: nat): (r: nat)
    ensures r >= 1
  {
    if k == 0 then 1 else 16 * Pow16(k - 1)
  }

  lemma DigitsParse(digits: string, m: nat)
    requires digits != [] && forall i :: 0 <= i < |digits| ==> '0' <= digits[i] <= '9'
    requires DigitsValue(digits, 10) == Some(m)
    ensures ParseDigits(digits, 10, false) == Some(m)
  {
    assert '_' !in digits by {
      forall i | 0 <= i < |digits| ensures digits[i] != '_' {}
    }
    NoUnderscoreUnchanged(digits);
  }

  /** `str(n)` parses back with `int`. */
  lemma DecimalRoundTrip(n: int)
    ensures ParseInt(Decimal(n)) == Some(n)
  {
    var m: nat := if n < 0 then -n else n;
    var digits := DecimalDigits(m);
    DecimalDigitsValue(m);
    DigitsParse(digits, m);
    if n < 0 {
      var s := "-" + digits;
      assert s[0] == '-' && s[1..] == digits;
      assert Decimal(n) == s;
    } else {
      assert Decimal(n) == digits;
    }
  }

  lemma {:induction false} HexPaddedValue(v: nat, width: nat)
    ensures DigitsValue(HexPadded(v, width), 16) == Some(v)
    decreases v + width
  {
    var s := HexPadded(v, width);
    if v < 16 && width <= 1 {
      DigitCharValue(v, 16, true);
      assert s[..0] == [];
    } else {
      var w := if width == 0 then 0 else width - 1;
      HexPaddedValue(v / 16, w);
      assert s[..|s| - 1] == HexPadded(v / 16, w);
      DigitCharValue(v % 16, 16, true);
    }
  }

  /** The `0x%08X` rendering parses back with `int(_, 16)`. */
  lemma HexPaddedRoundTrip(u: nat, width: nat)
    ensures ParseHexInt("0x" + HexPadded(u, width)) == Some(u)
  {
    var digits := HexPadded(u, width);
    HexPaddedValue(u, width);
    assert '_' !in digits by {
      forall i | 0 <= i < |digits| ensures digits[i] != '_' {
        assert DigitValue(digits[i], 16).Some?;
      }
    }
    NoUnderscoreUnchanged(digits);
    assert ("0x" + digits)[2..] == digits;
  }
}
