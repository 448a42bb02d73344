/** Percent-encoding (RFC 3986 section 2.1) and UTF-8 validity (RFC 3629 section 4) on byte strings. */
module Percent {
  import opened Base
  import opened Text

  /** Characters every encoder here leaves alone (RFC 3986 section 2.3). */
  predicate IsUnreserved(c: char) {
    'a' <= c <= 'z' || 'A' <= c <= 'Z' || IsDigit(c) || c == '-' || c == '_' || c == '.' || c == '~'
  }

  const HEX := "0123456789ABCDEF"

  function HexValue(c: char): Option<nat> {
    if IsDigit(c) then Some(c as int - '0' as int)
    else if 'A' <= c <= 'F' then Some(c as int - 'A' as int + 10)
    else if 'a' <= c <= 'f' then Some(c as int - 'a' as int + 10)
    else None
  }

  function EncodeByte(c: char, keep: string): string {
    if IsUnreserved(c) || c in keep then [c]
    else ['%', HEX[c as int / 16 % 16], HEX[c as int % 16]]
  }

  /** Unreserved characters and those in `keep` stay; every other byte becomes an upper-case escape. */
  function Encode(s: string, keep: string): string {
    if s == "" then "" else EncodeByte(s[0], keep) + Encode(s[1..], keep)
  }

  /** Complete escapes become bytes, anything else stays as it is. */
  function Decode(s: string): string {
    if s == "" then ""
    else if s[0] == '%' && |s| >= 3 && HexValue(s[1]).Some? && HexValue(s[2]).Some? then
      [(HexValue(s[1]).value * 16 + HexValue(s[2]).value) as char] + Decode(s[3..])
    else [s[0]] + Decode(s[1..])
  }

  predicate Bytewise(s: string) {
    forall i :: 0 <= i < |s| ==> s[i] as int < 256
  }

  lemma HexRoundTrip(c: char)
    requires c as int < 256
    ensures HexValue(HEX[c as int / 16 % 16]) == Some(c as int / 16)
    ensures HexValue(HEX[c as int % 16]) == Some(c as int % 16)
  {
  }

  lemma DecodeOfEncodedByte(c: char, keep: string, rest: string)
    requires c as int < 256 && '%' !in keep
    ensures Decode(EncodeByte(c, keep) + rest) == [c] + Decode(rest)
  {
    var e := EncodeByte(c, keep);
    HexRoundTrip(c);
    if IsUnreserved(c) || c in keep {
      assert (e + rest)[0] == c && (e + rest)[1..] == rest;
    } else {
      assert (e + rest)[0] == e[0] && (e + rest)[1] == e[1] && (e + rest)[2] == e[2] && (e + rest)[3..] == rest;
    }
  }

  /** Decoding is a left inverse of encoding. */
  lemma {:induction false} DecodeOfEncode(s: string, keep: string)
    requires Bytewise(s) && '%' !in keep
    ensures Decode(Encode(s, keep)) == s
  {
    if s != "" {
      DecodeOfEncode(s[1..], keep);
      DecodeOfEncodedByte(s[0], keep, Encode(s[1..], keep));
    }
  }

  /** Encoded text holds only unreserved characters, kept ones, and percent signs. */
  lemma {:induction false} EncodedCharacters(s: string, keep: string)
    ensures forall c :: c in Encode(s, keep) ==> IsUnreserved(c) || c in keep || c == '%'
  {
    if s != "" {
      EncodedCharacters(s[1..], keep);
      var e := EncodeByte(s[0], keep);
      assert forall h :: 0 <= h < 16 ==> IsUnreserved(HEX[h]);
      assert forall c :: c in e ==> IsUnreserved(c) || c in keep || c == '%';
    }
  }

  /** The byte values of capital and small letters, digits, hyphen, full stop, low line and tilde. */
  predicate UnreservedByte(n: int) {
    65 <= n <= 90 || 97 <= n <= 122 || 48 <= n <= 57 || n in {45, 46, 95, 126}
  }

  /**
   One byte, encoded: itself when unreserved or kept, and else a percent sign and the two digits of its
   value in base sixteen, upper case.
   */
  lemma EscapesAreUpperCase(c: char, keep: string)
    requires c as int < 256
    ensures Encode([c], keep) ==
      if UnreservedByte(c as int) || c in keep then [c]
      else ['%', "0123456789ABCDEF"[c as int / 16], "0123456789ABCDEF"[c as int % 16]]
  {
    hide Encode;
    EncodeOne(c, keep);
    assert c as int / 16 % 16 == c as int / 16;
    assert IsUnreserved(c) <==> UnreservedByte(c as int);
  }

  lemma UpperDigits(v: nat)
    requires v < 16
    ensures HexValue("0123456789ABCDEF"[v]) == Some(v)
  {
  }

  lemma LowerDigits(v: nat)
    requires v < 16
    ensures HexValue("0123456789abcdef"[v]) == Some(v)
  {
  }

  lemma OnlyDigits(c: char)
    requires HexValue(c).Some?
    ensures var v := HexValue(c).value;
            v < 16 && (c == "0123456789ABCDEF"[v] || c == "0123456789abcdef"[v])
  {
  }

  /** Hexadecimal digits have either case, and nothing else is one. */
  lemma HexDigitsHaveEitherCase(c: char, v: nat)
    ensures HexValue(c) == Some(v) <==> v < 16 && (c == "0123456789ABCDEF"[v] || c == "0123456789abcdef"[v])
  {
    hide HexValue;
    if v < 16 {
      UpperDigits(v);
      LowerDigits(v);
    }
    if HexValue(c).Some? {
      OnlyDigits(c);
    }
  }

  /** Decoding a complete escape, in any mixture of cases. */
  lemma DecodesEscapes(high: char, low: char, h: nat, l: nat, rest: string)
    requires HexValue(high) == Some(h) && HexValue(low) == Some(l)
    ensures 16 * h + l < 256 && Decode(['%', high, low] + rest) == [(16 * h + l) as char] + Decode(rest)
  {
    var s := ['%', high, low] + rest;
    assert s[3..] == rest;
  }

  /** Decoding leaves every other character alone, an incomplete escape's percent sign included. */
  lemma DecodesNothingElse(c: char, rest: string)
    requires c != '%' || |rest| < 2 || HexValue(rest[0]).None? || HexValue(rest[1]).None?
    ensures Decode([c] + rest) == [c] + Decode(rest)
  {
    var s := [c] + rest;
    assert s[1..] == rest;
    assert |rest| >= 2 ==> s[1] == rest[0] && s[2] == rest[1];
  }

  lemma {:induction false} EncodeAppends(a: string, b: string, keep: string)
    ensures Encode(a + b, keep) == Encode(a, keep) + Encode(b, keep)
  {
    hide EncodeByte;
    if a == "" {
      assert a + b == b;
    } else {
      EncodeAppends(a[1..], b, keep);
      assert (a + b)[1..] == a[1..] + b;
    }
  }

  lemma EncodeNothing(keep: string)
    ensures Encode("", keep) == ""
  {
  }

  lemma EncodeOne(c: char, keep: string)
    ensures Encode([c], keep) == EncodeByte(c, keep)
  {
  }

  /** `uri_encode`: the byte loop. */
  method UriEncode(input: string, preserveSlash: bool) returns (out: string)
    ensures out == Encode(input, if preserveSlash then "/" else "")
  {
    hide Encode;
    var keep := if preserveSlash then "/" else "";
    out := "";
    EncodeNothing(keep);
    assert input[..0] == "";
    for i := 0 to |input|
      invariant out == Encode(input[..i], keep)
    {
      var c := input[i];
      EncodeAppends(input[..i], [c], keep);
      assert input[..i + 1] == input[..i] + [c];
      EncodeOne(c, keep);
      if IsUnreserved(c) {
        out := out + [c];
      } else if preserveSlash && c == '/' {
        out := out + [c];
      } else {
        out := out + ['%', HEX[c as int / 16 % 16], HEX[c as int % 16]];
      }
    }
    assert input[..|input|] == input;
  }

  // ---- UTF-8 ----

  predicate Between(s: string, i: nat, low: int, high: int) {
    i < |s| && low <= s[i] as int <= high
  }

  /** Length of the well-formed character a text starts with, or 0. */
  function FirstLength(s: string): (n: nat)
    ensures n <= |s|
    ensures forall k :: 1 <= k < n ==> 0x80 <= s[k] as int < 256
    ensures n > 0 ==> s[0] as int < 256
  {
    if Between(s, 0, 0, 0x7F) then 1
    else if Between(s, 0, 0xC2, 0xDF) && Between(s, 1, 0x80, 0xBF) then 2
    else if && (|| (Between(s, 0, 0xE0, 0xE0) && Between(s, 1, 0xA0, 0xBF))
                || (Between(s, 0, 0xE1, 0xEC) && Between(s, 1, 0x80, 0xBF))
                || (Between(s, 0, 0xED, 0xED) && Between(s, 1, 0x80, 0x9F))
                || (Between(s, 0, 0xEE, 0xEF) && Between(s, 1, 0x80, 0xBF)))
            && Between(s, 2, 0x80, 0xBF) then 3
    else if && (|| (Between(s, 0, 0xF0, 0xF0) && Between(s, 1, 0x90, 0xBF))
                || (Between(s, 0, 0xF1, 0xF3) && Between(s, 1, 0x80, 0xBF))
                || (Between(s, 0, 0xF4, 0xF4) && Between(s, 1, 0x80, 0x8F)))
            && Between(s, 2, 0x80, 0xBF) && Between(s, 3, 0x80, 0xBF) then 4
    else 0
  }

  predicate Utf8(s: string)
    decreases |s|
  {
    s == "" || (FirstLength(s) > 0 && Utf8(s[FirstLength(s)..]))
  }

  /** A Unicode scalar value: a code point that is no surrogate. */
  predicate IsScalar(v: int) {
    0 <= v < 0xD800 || 0xE000 <= v < 0x11_0000
  }

  function Continuation(v: nat): char {
    (0x80 + v % 64) as char
  }

  /** The encoding of one scalar value (RFC 3629 section 3). */
  function EncodeScalar(v: nat): (s: string)
    requires IsScalar(v)
    ensures 1 <= |s| <= 4
  {
    if v < 0x80 then [v as char]
    else if v < 0x800 then [(0xC0 + v / 64) as char, Continuation(v)]
    else if v < 0x1_0000 then [(0xE0 + v / 4096) as char, Continuation(v / 64), Continuation(v)]
    else [(0xF0 + v / 262144) as char, Continuation(v / 4096), Continuation(v / 64), Continuation(v)]
  }

  /** The scalar value a well-formed character stands for. */
  function ScalarOf(s: string): nat
    requires FirstLength(s) > 0
  {
    var n := FirstLength(s);
    if n == 1 then s[0] as int
    else if n == 2 then (s[0] as int - 0xC0) * 64 + (s[1] as int - 0x80)
    else if n == 3 then (s[0] as int - 0xE0) * 4096 + (s[1] as int - 0x80) * 64 + (s[2] as int - 0x80)
    else (s[0] as int - 0xF0) * 262144 + (s[1] as int - 0x80) * 4096 + (s[2] as int - 0x80) * 64 + (s[3] as int - 0x80)
  }

  lemma FirstIsScalar(s: string)
    requires FirstLength(s) > 0
    ensures IsScalar(ScalarOf(s)) && s[..FirstLength(s)] == EncodeScalar(ScalarOf(s))
  {
    var n := FirstLength(s);
    if n == 1 {
      assert s[..1] == [s[0]];
    } else if n == 2 {
      TwoBytes(s);
    } else if n == 3 {
      ThreeBytes(s);
    } else {
      FourBytes(s);
    }
  }

  lemma TwoBytes(s: string)
    requires FirstLength(s) == 2
    ensures IsScalar(ScalarOf(s)) && s[..2] == EncodeScalar(ScalarOf(s))
  {
    var a, b := s[0] as int - 0xC0, s[1] as int - 0x80;
    Digits64(a, b);
    assert s[..2] == [s[0], s[1]];
  }

  lemma ThreeBytes(s: string)
    requires FirstLength(s) == 3
    ensures IsScalar(ScalarOf(s)) && s[..3] == EncodeScalar(ScalarOf(s))
  {
    var a, b, c := s[0] as int - 0xE0, s[1] as int - 0x80, s[2] as int - 0x80;
    Digits64(a * 64 + b, c);
    Digits64(a, b);
    assert s[..3] == [s[0], s[1], s[2]];
  }

  lemma FourBytes(s: string)
    requires FirstLength(s) == 4
    ensures IsScalar(ScalarOf(s)) && s[..4] == EncodeScalar(ScalarOf(s))
  {
    var a, b, c, d := s[0] as int - 0xF0, s[1] as int - 0x80, s[2] as int - 0x80, s[3] as int - 0x80;
    Digits64((a * 64 + b) * 64 + c, d);
    Digits64(a * 64 + b, c);
    Digits64(a, b);
    assert s[..4] == [s[0], s[1], s[2], s[3]];
  }

  lemma Digits64(high: int, low: int)
    requires 0 <= low < 64
    ensures (high * 64 + low) / 64 == high && (high * 64 + low) % 64 == low
  {
  }

  lemma ScalarIsFirst(v: nat, rest: string)
    requires IsScalar(v)
    ensures FirstLength(EncodeScalar(v) + rest) == |EncodeScalar(v)|
  {
  }

  function EncodeScalars(values: seq<nat>): string
    requires forall v :: v in values ==> IsScalar(v)
  {
    if values == [] then "" else EncodeScalar(values[0]) + EncodeScalars(values[1..])
  }

  /** Valid text is exactly what encoding some scalar values gives. */
  lemma Utf8IsEncodedScalars(s: string)
    ensures Utf8(s) <==> exists values: seq<nat> :: (forall v :: v in values ==> IsScalar(v)) && EncodeScalars(values) == s
  {
    hide EncodeScalar, FirstLength, EncodeScalars, Utf8;
    if Utf8(s) {
      var values := ScalarsOf(s);
    }
    forall values: seq<nat> | (forall v :: v in values ==> IsScalar(v)) && EncodeScalars(values) == s
      ensures Utf8(s)
    {
      ScalarsAreUtf8(values);
    }
  }

  lemma {:induction false} ScalarsOf(s: string) returns (values: seq<nat>)
    requires Utf8(s)
    ensures (forall v :: v in values ==> IsScalar(v)) && EncodeScalars(values) == s
    decreases |s|
  {
    hide EncodeScalar, FirstLength, ScalarOf;
    if s == "" {
      values := [];
    } else {
      FirstIsScalar(s);
      var rest := ScalarsOf(s[FirstLength(s)..]);
      values := [ScalarOf(s)] + rest;
      assert values[1..] == rest;
    }
  }

  lemma {:induction false} ScalarsAreUtf8(values: seq<nat>)
    requires forall v :: v in values ==> IsScalar(v)
    ensures Utf8(EncodeScalars(values))
  {
    hide EncodeScalar, FirstLength;
    if values != [] {
      var first, rest := EncodeScalar(values[0]), EncodeScalars(values[1..]);
      ScalarIsFirst(values[0], rest);
      ScalarsAreUtf8(values[1..]);
      assert (first + rest)[|first|..] == rest;
    }
  }

  lemma {:induction false} Utf8IsBytewise(s: string)
    requires Utf8(s)
    ensures Bytewise(s)
    decreases |s|
  {
    if s != "" {
      var n := FirstLength(s);
      Utf8IsBytewise(s[n..]);
      assert forall i :: n <= i < |s| ==> s[i] == s[n..][i - n];
    }
  }

  lemma FirstLengthOfPrefix(s: string, a: string)
    requires a <= s && 0 < FirstLength(s) <= |a|
    ensures FirstLength(a) == FirstLength(s)
  {
  }

  /** Cutting valid text at an ASCII character leaves valid text on both sides. */
  lemma {:induction false} Utf8Splits(a: string, c: char, b: string)
    requires c as int < 0x80 && Utf8(a + [c] + b)
    ensures Utf8(a) && Utf8(b)
    decreases |a|
  {
    hide FirstLength;
    var s := a + [c] + b;
    var n := FirstLength(s);
    assert s[|a|] == c;
    if a == "" {
      assert s[0] == c && s[1..] == b;
      AsciiFirst(s);
    } else {
      assert n <= |a|;
      FirstLengthOfPrefix(s, a);
      assert s[n..] == a[n..] + [c] + b;
      Utf8Splits(a[n..], c, b);
    }
  }

  lemma AsciiFirst(s: string)
    requires s != "" && s[0] as int < 0x80
    ensures FirstLength(s) == 1
  {
  }

  lemma {:induction false} SplitPiecesAreUtf8(s: string, c: char)
    requires c as int < 0x80 && Utf8(s)
    ensures forall p :: p in Split(s, c) ==> Utf8(p)
    decreases |s|
  {
    match SplitOnce(s, c)
    case None =>
    case Some((a, b)) =>
      Utf8Splits(a, c, b);
      SplitPiecesAreUtf8(b, c);
  }

  /** `urlencoding::decode(s)`, falling back to the text itself when the bytes are not valid UTF-8. */
  function DecodeOrOriginal(s: string): string {
    if Utf8(Decode(s)) then Decode(s) else s
  }

  /** Text that does not decode to valid text is left as it is. */
  lemma UndecodableStays(s: string)
    ensures DecodeOrOriginal(s) in {Decode(s), s}
    ensures DecodeOrOriginal(s) == s || Utf8(DecodeOrOriginal(s))
    ensures Utf8(Decode(s)) ==> DecodeOrOriginal(s) == Decode(s)
  {
  }

  lemma DecodeOrOriginalIsUtf8(s: string)
    requires Utf8(s)
    ensures Utf8(DecodeOrOriginal(s))
  {
  }

  /** On encoded text, decoding with fallback never needs the fallback. */
  lemma DecodeOrOriginalOfEncode(s: string, keep: string)
    requires Utf8(s) && '%' !in keep
    ensures DecodeOrOriginal(Encode(s, keep)) == s
  {
    Utf8IsBytewise(s);
    DecodeOfEncode(s, keep);
  }
}
