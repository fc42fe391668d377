/** Text on the wire and in files: `Encoding.ASCII` and the `Int32` text
    conversions (`ToString`, `TryParse`) the job protocol relies on. */
module Ascii {
  import opened Wrappers

  type Byte = b: int | 0 <= b < 256

  /** The byte `Encoding.ASCII` substitutes for a character or byte it cannot map ('?'). */
  const Replacement: Byte := 63

  predicate IsAsciiChar(c: char) { c as int < 128 }

  predicate IsAscii(s: string) { forall i :: 0 <= i < |s| ==> IsAsciiChar(s[i]) }

  /** `Encoding.ASCII.GetBytes`: one byte per character; a character outside
      0..127 becomes '?'. */
  function GetBytes(s: string): (r: seq<Byte>)
    ensures |r| == |s|
    ensures forall i :: 0 <= i < |r| ==> r[i] < 128
  {
    if s == [] then []
    else GetBytes(s[..|s| - 1]) + [if IsAsciiChar(s[|s| - 1]) then s[|s| - 1] as int else Replacement]
  }

  /** `Encoding.ASCII.GetString`: one character per byte; a byte above 127 becomes '?'. */
  function GetString(b: seq<Byte>): (r: string)
    ensures |r| == |b|
    ensures IsAscii(r)
  {
    if b == [] then ""
    else GetString(b[..|b| - 1]) + [if b[|b| - 1] < 128 then b[|b| - 1] as char else '?']
  }

  lemma {:induction false} GetBytesAt(s: string, i: nat)
    requires i < |s|
    ensures GetBytes(s)[i] == if IsAsciiChar(s[i]) then s[i] as int else Replacement
  {
    if i < |s| - 1 {
      GetBytesAt(s[..|s| - 1], i);
    }
  }

  lemma {:induction false} GetStringAt(b: seq<Byte>, i: nat)
    requires i < |b|
    ensures GetString(b)[i] == if b[i] < 128 then b[i] as char else '?'
  {
    if i < |b| - 1 {
      GetStringAt(b[..|b| - 1], i);
    }
  }

  lemma GetBytesAppend(s: string, t: string)
    ensures GetBytes(s + t) == GetBytes(s) + GetBytes(t)
  {
    var l, r := GetBytes(s + t), GetBytes(s) + GetBytes(t);
    forall i | 0 <= i < |l| ensures l[i] == r[i] {
      GetBytesAt(s + t, i);
      if i < |s| { GetBytesAt(s, i); } else { GetBytesAt(t, i - |s|); }
    }
  }

  /** Decoding what was encoded gives the text back exactly when every
      character of it is ASCII; otherwise some character came back as '?'. */
  lemma AsciiRoundTrip(s: string)
    ensures GetString(GetBytes(s)) == s <==> IsAscii(s)
  {
    var b := GetBytes(s);
    if IsAscii(s) {
      forall i | 0 <= i < |s| ensures GetString(b)[i] == s[i] {
        GetBytesAt(s, i);
        GetStringAt(b, i);
      }
    } else {
      var i :| 0 <= i < |s| && !IsAsciiChar(s[i]);
      GetBytesAt(s, i);
      GetStringAt(b, i);
    }
  }

  // ---- Int32 text ----

  const Int32Min: int := -0x8000_0000
  const Int32Max: int := 0x7FFF_FFFF

  predicate IsInt32(n: int) { Int32Min <= n <= Int32Max }

  predicate IsDigit(c: char) { '0' <= c <= '9' }

  /** The white space `NumberStyles.Integer` lets `TryParse` skip: U+0009..U+000D and U+0020. */
  predicate IsWhite(c: char) { c == ' ' || '\t' <= c <= '\r' }

  /** Decimal digits of a natural number, most significant first, no leading zeros. */
  function Digits(n: nat): (r: string)
    ensures |r| > 0 && forall i :: 0 <= i < |r| ==> IsDigit(r[i])
  {
    if n < 10 then [('0' as int + n) as char]
    else Digits(n / 10) + [('0' as int + n % 10) as char]
  }

  /** `Int32.ToString()` in the invariant culture. */
  function Int32ToString(n: int): (r: string)
    ensures |r| > 0 && IsDigit(r[|r| - 1])
    ensures IsDigit(r[0]) || r[0] == '-'
  {
    if n < 0 then "-" + Digits(-n) else Digits(n)
  }

  function DigitsValue(s: string): nat
    requires forall i :: 0 <= i < |s| ==> IsDigit(s[i])
  {
    if s == [] then 0
    else
      assert IsDigit(s[|s| - 1]);
      DigitsValue(s[..|s| - 1]) * 10 + (s[|s| - 1] as int - '0' as int)
  }

  lemma {:induction false} DigitsRoundTrip(n: nat)
    ensures DigitsValue(Digits(n)) == n
  {
    if n >= 10 {
      DigitsRoundTrip(n / 10);
      var d := Digits(n);
      assert d[..|d| - 1] == Digits(n / 10);
    }
  }

  function TrimStart(s: string): (r: string)
    ensures |r| <= |s|
  {
    if s != [] && IsWhite(s[0]) then TrimStart(s[1..]) else s
  }

  function TrimEnd(s: string): (r: string)
    ensures |r| <= |s|
  {
    if s != [] && IsWhite(s[|s| - 1]) then TrimEnd(s[..|s| - 1]) else s
  }

  predicate AllDigits(s: string) { |s| > 0 && forall i :: 0 <= i < |s| ==> IsDigit(s[i]) }

  /** `Int32.TryParse(s, out v)` with the default `NumberStyles.Integer`:
      optional surrounding white space, an optional leading sign, one or more
      decimal digits, and a value that fits in an Int32. `None` is the `false`
      return (the out value is then 0); a null string is also `None`. */
  function TryParseInt32(s: Option<string>): (r: Option<int>)
    ensures r.Some? ==> IsInt32(r.value)
  {
    if s.None? then None
    else
      var v := ParseTrimmed(TrimEnd(TrimStart(s.value)));
      if v.Some? && IsInt32(v.value) then v else None
  }

  /** The number a trimmed text denotes: an optional sign, then one or more
      decimal digits. */
  function ParseTrimmed(t: string): Option<int>
  {
    if |t| > 0 && (t[0] == '-' || t[0] == '+') && AllDigits(t[1..]) then
      Some(if t[0] == '-' then 0 - DigitsValue(t[1..]) as int else DigitsValue(t[1..]) as int)
    else if AllDigits(t) then Some(DigitsValue(t))
    else None
  }

  /** What `Int32.TryParse` leaves in its out parameter: the value, or 0 on failure. */
  function ParsedOrZero(s: Option<string>): (r: int)
    ensures IsInt32(r)
    ensures TryParseInt32(s).None? ==> r == 0
  {
    match TryParseInt32(s)
    case Some(v) => v
    case None => 0
  }

  /** The width the worker prints is the width the controller parses. */
  lemma Int32TextRoundTrip(n: int)
    requires IsInt32(n)
    ensures TryParseInt32(Some(Int32ToString(n))) == Some(n)
  {
    var s := Int32ToString(n);
    if n < 0 {
      NegativeText(n);
      ParseNegative(s);
    } else {
      DigitsRoundTrip(n);
      assert TrimStart(s) == s;
      assert TrimEnd(s) == s;
      assert AllDigits(s);
      assert !(s[0] == '-' || s[0] == '+');
    }
  }

  /** A minus sign followed by digits parses to the negated digit value. */
  lemma ParseNegative(s: string)
    requires |s| > 0 && s[0] == '-' && AllDigits(s[1..])
    requires IsInt32(0 - DigitsValue(s[1..]) as int)
    ensures TryParseInt32(Some(s)) == Some(0 - DigitsValue(s[1..]) as int)
  {
    assert TrimStart(s) == s;
    assert s[|s| - 1] == s[1..][|s| - 2];
    assert TrimEnd(s) == s;
    assert ParseTrimmed(s) == Some(0 - DigitsValue(s[1..]) as int);
  }

  lemma NegativeText(n: int)
    requires n < 0
    ensures var s := Int32ToString(n);
      && s[0] == '-' && s[1..] == Digits(-n) && AllDigits(s[1..])
      && 0 - DigitsValue(s[1..]) as int == n
  {
    var s, d := Int32ToString(n), Digits(-n);
    assert s == "-" + d;
    assert s[1..] == d;
    DigitsRoundTrip(-n);
    assert DigitsValue(d) == -n;
  }
}
