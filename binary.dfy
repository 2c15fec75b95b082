/**
 * The Binary value (dgo/binary.go): a byte buffer with a frozen flag, a
 * defensive-copy accessor and a string form that is strict base64 (section 4
 * of RFC 4648: the standard alphabet, '=' padding to a multiple of four
 * characters, and no non-zero bits in the unused part of the last symbol).
 */
module Binaries {
  import opened Wrappers

  type byte = b: int | 0 <= b < 256
  type sextet = d: int | 0 <= d < 64

  // ---- base64 ----

  /** The symbol of a 6-bit group: A-Z, a-z, 0-9, '+', '/'. */
  function Sym(d: sextet): char {
    if d < 26 then ('A' as int + d) as char
    else if d < 52 then ('a' as int + (d - 26)) as char
    else if d < 62 then ('0' as int + (d - 52)) as char
    else if d == 62 then '+'
    else '/'
  }

  /** The 6-bit group of a symbol; None for any other character, '=' included. */
  function SymValue(c: char): Option<sextet> {
    if 'A' <= c <= 'Z' then Some(c as int - 'A' as int)
    else if 'a' <= c <= 'z' then Some(c as int - 'a' as int + 26)
    else if '0' <= c <= '9' then Some(c as int - '0' as int + 52)
    else if c == '+' then Some(62)
    else if c == '/' then Some(63)
    else None
  }

  lemma SymInverse(d: sextet)
    ensures SymValue(Sym(d)) == Some(d)
  {
  }

  lemma SymValueInverse(c: char)
    requires SymValue(c).Some?
    ensures Sym(SymValue(c).value) == c
  {
  }

  /** Encoding: three bytes to four symbols; a final one or two bytes are padded with '='. */
  function Encode(bs: seq<byte>): string
    decreases |bs|
  {
    if |bs| == 0 then ""
    else if |bs| == 1 then [Sym(bs[0] / 4), Sym(bs[0] % 4 * 16), '=', '=']
    else if |bs| == 2 then [Sym(bs[0] / 4), Sym(bs[0] % 4 * 16 + bs[1] / 16), Sym(bs[1] % 16 * 4), '=']
    else
      [Sym(bs[0] / 4), Sym(bs[0] % 4 * 16 + bs[1] / 16), Sym(bs[1] % 16 * 4 + bs[2] / 64), Sym(bs[2] % 64)]
      + Encode(bs[3..])
  }

  /** Strict decoding of one quad; padding is accepted only in the last quad, with zero unused bits. */
  function DecodeQuad(q: string, last: bool): Option<seq<byte>>
    requires |q| == 4
  {
    var a, b, c, d := SymValue(q[0]), SymValue(q[1]), SymValue(q[2]), SymValue(q[3]);
    if a.None? || b.None? then None
    else if q[2] == '=' then
      if last && q[3] == '=' && b.value % 16 == 0 then Some([a.value * 4 + b.value / 16]) else None
    else if c.None? then None
    else if q[3] == '=' then
      if last && c.value % 4 == 0 then Some([a.value * 4 + b.value / 16, b.value % 16 * 16 + c.value / 4]) else None
    else if d.None? then None
    else Some([a.value * 4 + b.value / 16, b.value % 16 * 16 + c.value / 4, c.value % 4 * 64 + d.value])
  }

  /** Strict decoding: a multiple of four symbols; None for anything else. */
  function Decode(s: string): Option<seq<byte>>
    decreases |s|
  {
    if |s| == 0 then Some([])
    else if |s| < 4 then None
    else
      match DecodeQuad(s[..4], |s| == 4)
      case None => None
      case Some(q) =>
        if |s| == 4 then Some(q)
        else if |q| < 3 then None
        else
          match Decode(s[4..])
          case None => None
          case Some(rest) => Some(q + rest)
  }

  /** The encoded length is 4 * ceil(n / 3). */
  lemma {:induction false} EncodeLength(bs: seq<byte>)
    ensures |Encode(bs)| == 4 * ((|bs| + 2) / 3)
    decreases |bs|
  {
    var n := |bs|;
    if n >= 3 {
      EncodeLength(bs[3..]);
      assert |Encode(bs)| == 4 + |Encode(bs[3..])|;
      assert (n + 2) / 3 == (n - 3 + 2) / 3 + 1;
    } else if n > 0 {
      assert |Encode(bs)| == 4;
    }
  }

  // Proof helpers: division facts the group arithmetic needs, not properties of base64.
  lemma Div4(q: int, r: int)
    requires 0 <= r < 4
    ensures (q * 4 + r) / 4 == q && (q * 4 + r) % 4 == r
  {
  }

  lemma Div16(q: int, r: int)
    requires 0 <= r < 16
    ensures (q * 16 + r) / 16 == q && (q * 16 + r) % 16 == r
  {
  }

  lemma Div64(q: int, r: int)
    requires 0 <= r < 64
    ensures (q * 64 + r) / 64 == q && (q * 64 + r) % 64 == r
  {
  }

  lemma QuadRoundTrip(b0: byte, b1: byte, b2: byte)
    ensures var q := [Sym(b0 / 4), Sym(b0 % 4 * 16 + b1 / 16), Sym(b1 % 16 * 4 + b2 / 64), Sym(b2 % 64)];
      DecodeQuad(q, false) == Some([b0, b1, b2]) && DecodeQuad(q, true) == Some([b0, b1, b2])
  {
    SymInverse(b0 / 4);
    SymInverse(b0 % 4 * 16 + b1 / 16);
    SymInverse(b1 % 16 * 4 + b2 / 64);
    SymInverse(b2 % 64);
    Div16(b0 % 4, b1 / 16);
    Div4(b1 % 16, b2 / 64);
  }

  lemma PairRoundTrip(b0: byte, b1: byte)
    ensures DecodeQuad([Sym(b0 / 4), Sym(b0 % 4 * 16 + b1 / 16), Sym(b1 % 16 * 4), '='], true) == Some([b0, b1])
  {
    SymInverse(b0 / 4);
    SymInverse(b0 % 4 * 16 + b1 / 16);
    SymInverse(b1 % 16 * 4);
    Div16(b0 % 4, b1 / 16);
    Div4(b1 % 16, 0);
  }

  lemma SingleRoundTrip(b0: byte)
    ensures DecodeQuad([Sym(b0 / 4), Sym(b0 % 4 * 16), '=', '='], true) == Some([b0])
  {
    SymInverse(b0 / 4);
    SymInverse(b0 % 4 * 16);
    Div16(b0 % 4, 0);
  }

  /** A whole group of three bytes encodes on its own. */
  lemma EncodeGroup(q: seq<byte>, rest: seq<byte>)
    requires |q| == 3
    ensures Encode(q + rest) == Encode(q) + Encode(rest)
  {
    assert (q + rest)[3..] == rest;
    assert q[3..] == [];
    assert (q + rest)[..3] == q;
  }

  /** A four-symbol string decodes as a last quad. */
  lemma DecodeLastQuad(s: string)
    requires |s| == 4
    ensures Decode(s) == DecodeQuad(s, true)
  {
    assert s[..4] == s;
  }

  lemma PairEncodeRoundTrip(b0: byte, b1: byte)
    ensures Decode(Encode([b0, b1])) == Some([b0, b1])
  {
    var s := [Sym(b0 / 4), Sym(b0 % 4 * 16 + b1 / 16), Sym(b1 % 16 * 4), '='];
    assert Encode([b0, b1]) == s;
    DecodeLastQuad(s);
    PairRoundTrip(b0, b1);
  }

  lemma SingleEncodeRoundTrip(b0: byte)
    ensures Decode(Encode([b0])) == Some([b0])
  {
    var s := [Sym(b0 / 4), Sym(b0 % 4 * 16), '=', '='];
    assert Encode([b0]) == s;
    DecodeLastQuad(s);
    SingleRoundTrip(b0);
  }

  lemma ShortRoundTrip(bs: seq<byte>)
    requires 1 <= |bs| <= 2
    ensures Decode(Encode(bs)) == Some(bs)
  {
    if |bs| == 1 {
      assert bs == [bs[0]];
      SingleEncodeRoundTrip(bs[0]);
    } else {
      assert bs == [bs[0], bs[1]];
      PairEncodeRoundTrip(bs[0], bs[1]);
    }
  }

  /** Decoding undoes encoding. */
  lemma {:induction false} DecodeEncode(bs: seq<byte>)
    ensures Decode(Encode(bs)) == Some(bs)
    decreases |bs|
  {
    if 1 <= |bs| <= 2 {
      ShortRoundTrip(bs);
    } else if |bs| >= 3 {
      var q, rest := bs[..3], bs[3..];
      assert bs == q + rest;
      EncodeGroup(q, rest);
      var s := Encode(bs);
      QuadRoundTrip(q[0], q[1], q[2]);
      assert q == [q[0], q[1], q[2]];
      assert s[..4] == Encode(q);
      assert s[4..] == Encode(rest);
      EncodeLength(rest);
      DecodeEncode(rest);
      if rest == [] {
        assert q + rest == q;
      }
    }
  }

  /** Encoding is injective: two buffers with the same string form hold the same bytes. */
  lemma EncodeInjective(a: seq<byte>, b: seq<byte>)
    ensures Encode(a) == Encode(b) <==> a == b
  {
    if Encode(a) == Encode(b) {
      DecodeEncode(a);
      DecodeEncode(b);
    }
  }

  lemma FullQuadCanonical(a: sextet, b: sextet, c: sextet, d: sextet)
    ensures Encode([a * 4 + b / 16, b % 16 * 16 + c / 4, c % 4 * 64 + d]) == [Sym(a), Sym(b), Sym(c), Sym(d)]
  {
    var bs: seq<byte> := [a * 4 + b / 16, b % 16 * 16 + c / 4, c % 4 * 64 + d];
    Div4(a, b / 16);
    Div16(b % 16, c / 4);
    Div64(c % 4, d);
    assert bs[3..] == [];
  }

  lemma PairCanonical(a: sextet, b: sextet, c: sextet)
    requires c % 4 == 0
    ensures Encode([a * 4 + b / 16, b % 16 * 16 + c / 4]) == [Sym(a), Sym(b), Sym(c), '=']
  {
    Div4(a, b / 16);
    Div16(b % 16, c / 4);
  }

  lemma SingleCanonical(a: sextet, b: sextet)
    requires b % 16 == 0
    ensures Encode([a * 4 + b / 16]) == [Sym(a), Sym(b), '=', '=']
  {
    Div4(a, b / 16);
  }

  /** What a quad that decodes looks like, case by case. */
  lemma DecodedQuadShape(q: string, last: bool)
    requires |q| == 4 && DecodeQuad(q, last).Some?
    ensures SymValue(q[0]).Some? && SymValue(q[1]).Some?
    ensures var a, b, r := SymValue(q[0]).value, SymValue(q[1]).value, DecodeQuad(q, last).value;
      if q[2] == '=' then
        q[3] == '=' && b % 16 == 0 && r == [a * 4 + b / 16]
      else
        SymValue(q[2]).Some? &&
        var c := SymValue(q[2]).value;
        if q[3] == '=' then
          c % 4 == 0 && r == [a * 4 + b / 16, b % 16 * 16 + c / 4]
        else
          SymValue(q[3]).Some? && r == [a * 4 + b / 16, b % 16 * 16 + c / 4, c % 4 * 64 + SymValue(q[3]).value]
  {
  }

  lemma SingleQuadCanonical(q: string, last: bool)
    requires |q| == 4 && DecodeQuad(q, last).Some? && q[2] == '='
    ensures Encode(DecodeQuad(q, last).value) == q
  {
    DecodedQuadShape(q, last);
    var a, b := SymValue(q[0]).value, SymValue(q[1]).value;
    SymValueInverse(q[0]);
    SymValueInverse(q[1]);
    SingleCanonical(a, b);
    assert q == [Sym(a), Sym(b), '=', '='];
  }

  lemma PairQuadCanonical(q: string, last: bool)
    requires |q| == 4 && DecodeQuad(q, last).Some? && q[2] != '=' && q[3] == '='
    ensures Encode(DecodeQuad(q, last).value) == q
  {
    DecodedQuadShape(q, last);
    var a, b, c := SymValue(q[0]).value, SymValue(q[1]).value, SymValue(q[2]).value;
    SymValueInverse(q[0]);
    SymValueInverse(q[1]);
    SymValueInverse(q[2]);
    PairCanonical(a, b, c);
    assert q == [Sym(a), Sym(b), Sym(c), '='];
  }

  lemma FullQuadCanonicalAt(q: string, last: bool)
    requires |q| == 4 && DecodeQuad(q, last).Some? && q[2] != '=' && q[3] != '='
    ensures Encode(DecodeQuad(q, last).value) == q
  {
    DecodedQuadShape(q, last);
    var a, b, c, d := SymValue(q[0]).value, SymValue(q[1]).value, SymValue(q[2]).value, SymValue(q[3]).value;
    SymValueInverse(q[0]);
    SymValueInverse(q[1]);
    SymValueInverse(q[2]);
    SymValueInverse(q[3]);
    FullQuadCanonical(a, b, c, d);
    assert q == [Sym(a), Sym(b), Sym(c), Sym(d)];
  }

  /** A quad that decodes is the encoding of its bytes. */
  lemma QuadCanonical(q: string, last: bool)
    requires |q| == 4 && DecodeQuad(q, last).Some?
    ensures Encode(DecodeQuad(q, last).value) == q
  {
    if q[2] == '=' {
      SingleQuadCanonical(q, last);
    } else if q[3] == '=' {
      PairQuadCanonical(q, last);
    } else {
      FullQuadCanonicalAt(q, last);
    }
  }

  /** Strictness: every string that decodes is the encoding of what it decodes to. */
  lemma {:induction false} EncodeDecode(s: string)
    requires Decode(s).Some?
    ensures Encode(Decode(s).value) == s
    decreases |s|
  {
    if |s| >= 4 {
      var q := DecodeQuad(s[..4], |s| == 4).value;
      QuadCanonical(s[..4], |s| == 4);
      if |s| == 4 {
        assert s[..4] == s;
      } else {
        var rest := Decode(s[4..]).value;
        assert Decode(s).value == q + rest;
        EncodeDecode(s[4..]);
        EncodeGroup(q, rest);
        assert s == s[..4] + s[4..];
      }
    }
  }

  // ---- the value ----

  class Binary {
    var bytes: array<byte>
    var frozen: bool

    constructor (src: seq<byte>, frozen: bool)
      ensures fresh(bytes) && bytes[..] == src && this.frozen == frozen
    {
      bytes := new byte[|src|](i requires 0 <= i < |src| => src[i]);
      this.frozen := frozen;
    }

    /** The string form: strict base64 of the bytes, which decodes back to them. */
    function String(): (s: string)
      reads this, bytes
      ensures Decode(s) == Some(bytes[..])
    {
      DecodeEncode(bytes[..]);
      Encode(bytes[..])
    }

    /** Two binaries are equal when they hold the same bytes, which is when their string forms agree. */
    function Equals(other: Binary): (r: bool)
      reads this, bytes, other, other.bytes
      ensures r <==> String() == other.String()
    {
      EncodeInjective(bytes[..], other.bytes[..]);
      bytes[..] == other.bytes[..]
    }

    /** GoBytes: a new array with the bytes, so that writing to it cannot change this value. */
    method GoBytes() returns (a: array<byte>)
      ensures fresh(a) && a[..] == bytes[..]
    {
      a := new byte[bytes.Length](_ => 0);
      var i := 0;
      while i < bytes.Length
        invariant 0 <= i <= bytes.Length
        invariant a[..i] == bytes[..i]
        modifies a
      {
        a[i] := bytes[i];
        i := i + 1;
      }
    }

    /**
     * Copy: a frozen copy of a frozen binary is the binary itself; otherwise a
     * new binary over a new copy of the bytes, frozen as the argument says.
     */
    method Copy(frozen: bool) returns (b: Binary)
      ensures this.frozen && frozen ==> b == this
      ensures !(this.frozen && frozen) ==> fresh(b) && fresh(b.bytes) && b.frozen == frozen
      ensures b.bytes[..] == bytes[..]
    {
      if this.frozen && frozen {
        b := this;
      } else {
        var copy := GoBytes();
        b := new Binary(copy[..], frozen);
      }
    }
  }

  /** Writing to the array GoBytes returns leaves the binary and its string form as they were. */
  method WriteThroughGoBytes(b: Binary) returns (a: array<byte>)
    requires b.bytes.Length > 0
    ensures fresh(a) && a[..] == old(b.bytes[..])[0 := 0]
    ensures b.bytes[..] == old(b.bytes[..]) && b.String() == old(b.String())
  {
    a := b.GoBytes();
    a[0] := 0;
  }
}
