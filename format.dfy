/**
 * Text encodings the type printer relies on: decimal integers
 * (strconv.FormatInt), double-quoted strings (strconv.Quote) and slash-quoted
 * patterns, each with the parser-side inverse that reads it back.
 */
module Format {
  import opened Wrappers

  const MinInt64: int := -0x8000_0000_0000_0000
  const MaxInt64: int := 0x7FFF_FFFF_FFFF_FFFF

  predicate IsDigit(c: char) { '0' <= c <= '9' }

  predicate AllDigits(s: string) { forall i :: 0 <= i < |s| ==> IsDigit(s[i]) }

  function DigitChar(d: nat): (c: char)
    requires d < 10
    ensures IsDigit(c)
  {
    ('0' as int + d) as char
  }

  function DigitValue(c: char): nat
    requires IsDigit(c)
  {
    c as int - '0' as int
  }

  /** Decimal digits of a natural number, most significant first, no leading zeros. */
  function NatToString(n: nat): (s: string)
    ensures |s| > 0 && AllDigits(s)
    decreases n
  {
    if n < 10 then [DigitChar(n)] else NatToString(n / 10) + [DigitChar(n % 10)]
  }

  /** strconv.FormatInt(n, 10): an optional minus sign followed by the digits of |n|. */
  function FormatInt(n: int): string {
    if n < 0 then "-" + NatToString(-n) else NatToString(n)
  }

  /** The value of a string of decimal digits. */
  function DigitsValue(s: string): nat
    requires AllDigits(s)
  {
    if s == [] then 0 else DigitsValue(s[..|s| - 1]) * 10 + DigitValue(s[|s| - 1])
  }

  /** Reads back what FormatInt writes: an optional '-' and at least one digit. */
  function ParseInt(s: string): Option<int> {
    if |s| > 0 && s[0] == '-' then
      if |s| > 1 && AllDigits(s[1..]) then Some(-(DigitsValue(s[1..]) as int)) else None
    else if |s| > 0 && AllDigits(s) then Some(DigitsValue(s))
    else None
  }

  lemma {:induction false} NatToStringValue(n: nat)
    ensures DigitsValue(NatToString(n)) == n
    decreases n
  {
    var s := NatToString(n);
    if n >= 10 {
      NatToStringValue(n / 10);
      assert s[..|s| - 1] == NatToString(n / 10);
    }
  }

  /** Reading back the decimal text of any integer yields that integer. */
  lemma FormatIntRoundTrip(n: int)
    ensures ParseInt(FormatInt(n)) == Some(n)
  {
    if n < 0 {
      NatToStringValue(-n);
      assert FormatInt(n)[1..] == NatToString(-n);
    } else {
      NatToStringValue(n);
    }
  }

  /** The text of an integer is a minus sign and digits only: it holds no ',' or '.'. */
  lemma FormatIntChars(n: int, i: nat)
    requires i < |FormatInt(n)|
    ensures FormatInt(n)[i] == '-' || IsDigit(FormatInt(n)[i])
    ensures FormatInt(n)[i] == '-' <==> (n < 0 && i == 0)
  {
  }

  // ---- double-quoted strings ----

  /** The escape sequence strconv.Quote writes for one character. */
  function EscapeChar(c: char): string {
    if c == '"' || c == '\\' then ['\\', c] else [c]
  }

  function Escape(s: string): string {
    if s == [] then "" else EscapeChar(s[0]) + Escape(s[1..])
  }

  /** strconv.Quote: the string between double quotes, with '"' and '\' escaped. */
  function Quote(s: string): string {
    "\"" + Escape(s) + "\""
  }

  /** Inverse of Escape: fails on a bare '"' or an escape Quote never writes. */
  function Unescape(t: string): Option<string> {
    if t == [] then Some("")
    else if t[0] == '\\' then
      if |t| >= 2 && (t[1] == '"' || t[1] == '\\') then
        match Unescape(t[2..])
        case Some(r) => Some([t[1]] + r)
        case None => None
      else None
    else if t[0] == '"' then None
    else
      match Unescape(t[1..])
      case Some(r) => Some([t[0]] + r)
      case None => None
  }

  /** Reads a double-quoted literal back. */
  function Unquote(q: string): Option<string> {
    if |q| >= 2 && q[0] == '"' && q[|q| - 1] == '"' then Unescape(q[1..|q| - 1]) else None
  }

  lemma {:induction false} UnescapeEscape(s: string)
    ensures Unescape(Escape(s)) == Some(s)
  {
    if s != [] {
      UnescapeEscape(s[1..]);
      var e := EscapeChar(s[0]);
      var t := e + Escape(s[1..]);
      if s[0] == '"' || s[0] == '\\' {
        assert t[2..] == Escape(s[1..]);
      } else {
        assert t[1..] == Escape(s[1..]);
      }
      assert [s[0]] + s[1..] == s;
    }
  }

  /** Every string survives quoting and reading back. */
  lemma QuoteRoundTrip(s: string)
    ensures Unquote(Quote(s)) == Some(s)
  {
    var q := Quote(s);
    assert q[1..|q| - 1] == Escape(s);
    UnescapeEscape(s);
  }

  // ---- slash-quoted patterns ----

  function EscapeSlashes(s: string): string {
    if s == [] then "" else (if s[0] == '/' then "\\/" else [s[0]]) + EscapeSlashes(s[1..])
  }

  /** RegexpSlashQuote: the pattern between slashes, with '/' escaped. */
  function SlashQuote(p: string): string {
    "/" + EscapeSlashes(p) + "/"
  }
}
