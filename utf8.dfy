/** Text codecs the addon relies on: `str.encode('utf-8')`, the strict
    `bytes.decode('utf-8')` (the well-formed byte sequences of Table 3-7 of the
    Unicode Standard: no overlong forms, no surrogates, nothing above U+10FFFF)
    and `bytes.decode('latin-1')`. A Dafny `char` is a Unicode scalar value. */
module Utf8 {
  import opened Wrappers

  type Byte = b: int | 0 <= b < 256

  predicate IsScalar(v: int) {
    0 <= v < 0xD800 || 0xE000 <= v < 0x11_0000
  }

  predicate IsCont(b: Byte) {
    0x80 <= b <= 0xBF
  }

  /** The UTF-8 form of one scalar value: one to four bytes by magnitude, the
      value's base-64 digits spread over the continuation bytes. */
  function EncodeChar(c: char): (r: seq<Byte>)
    ensures 1 <= |r| <= 4
  {
    var v := c as int;
    var q1 := v / 64;
    var q2 := q1 / 64;
    if v < 0x80 then [v]
    else if v < 0x800 then [0xC0 + q1, 0x80 + v % 64]
    else if v < 0x1_0000 then [0xE0 + q2, 0x80 + q1 % 64, 0x80 + v % 64]
    else [0xF0 + q2 / 64, 0x80 + q2 % 64, 0x80 + q1 % 64, 0x80 + v % 64]
  }

  /** `s.encode('utf-8')`. */
  function Encode(s: string): (r: seq<Byte>)
    ensures |r| >= |s|
    decreases |s|
  {
    if s == [] then [] else EncodeChar(s[0]) + Encode(s[1..])
  }

  /** The first character of `b` and the number of bytes it takes, or `None` when
      `b` does not start with a well-formed sequence. */
  function DecodeFirst(b: seq<Byte>): (r: Option<(char, nat)>)
    ensures r.Some? ==> 1 <= r.value.1 <= |b|
  {
    if |b| == 0 then None
    else
      var b0: int := b[0];
      if b0 < 0x80 then Some((b0 as char, 1))
      else if 0xC2 <= b0 <= 0xDF then
        if |b| >= 2 && IsCont(b[1]) then
          Some((((b0 - 0xC0) * 64 + (b[1] as int - 0x80)) as char, 2))
        else None
      else if 0xE0 <= b0 <= 0xEF then
        var lo := if b0 == 0xE0 then 0xA0 else 0x80;
        var hi := if b0 == 0xED then 0x9F else 0xBF;
        if |b| >= 3 && lo <= b[1] <= hi && IsCont(b[2]) then
          Some((((b0 - 0xE0) * 4096 + (b[1] as int - 0x80) * 64 + (b[2] as int - 0x80)) as char, 3))
        else None
      else if 0xF0 <= b0 <= 0xF4 then
        var lo := if b0 == 0xF0 then 0x90 else 0x80;
        var hi := if b0 == 0xF4 then 0x8F else 0xBF;
        if |b| >= 4 && lo <= b[1] <= hi && IsCont(b[2]) && IsCont(b[3]) then
          Some((((b0 - 0xF0) * 262144 + (b[1] as int - 0x80) * 4096 + (b[2] as int - 0x80) * 64 + (b[3] as int - 0x80)) as char, 4))
        else None
      else None
  }

  /** `b.decode('utf-8')`: `None` stands for the `UnicodeDecodeError`. */
  function Decode(b: seq<Byte>): (r: Option<string>)
    decreases |b|
  {
    if b == [] then Some([])
    else match DecodeFirst(b)
      case None => None
      case Some((c, n)) =>
        match Decode(b[n..])
        case None => None
        case Some(rest) => Some([c] + rest)
  }

  /** `b.decode('latin-1')`: every byte is the code point of the same value, so it
      cannot fail. */
  function Latin1(b: seq<Byte>): (r: string)
    ensures |r| == |b|
    ensures forall i :: 0 <= i < |b| ==> r[i] as int == b[i]
  {
    seq(|b|, i requires 0 <= i < |b| => b[i] as char)
  }

  // ---------------------------------------------------------------------------
  // Round trips

  lemma DivMod64(a: int, d: int)
    requires 0 <= d < 64
    ensures (a * 64 + d) / 64 == a && (a * 64 + d) % 64 == d
  {
  }

  lemma DecodeFirstOfEncodeChar(c: char, rest: seq<Byte>)
    ensures DecodeFirst(EncodeChar(c) + rest) == Some((c, |EncodeChar(c)|))
  {
    var v := c as int;
    var b := EncodeChar(c) + rest;
    var q1 := v / 64;
    var q2 := q1 / 64;
    assert v == q1 * 64 + v % 64;
    assert q1 == q2 * 64 + q1 % 64;
    if 0x800 <= v < 0x1_0000 {
      assert b[0] as int - 0xE0 == q2;
      assert (b[0] as int - 0xE0) * 4096 + (b[1] as int - 0x80) * 64 + (b[2] as int - 0x80) == v;
    } else if 0x1_0000 <= v {
      var q3 := q2 / 64;
      assert q2 == q3 * 64 + q2 % 64;
      assert b[0] as int - 0xF0 == q3;
      assert (b[0] as int - 0xF0) * 262144 + (b[1] as int - 0x80) * 4096 + (b[2] as int - 0x80) * 64 + (b[3] as int - 0x80) == v;
    }
  }

  /** Decoding what was encoded gives the text back. */
  lemma {:induction false} DecodeEncode(s: string)
    ensures Decode(Encode(s)) == Some(s)
    decreases |s|
  {
    if s != [] {
      var e := EncodeChar(s[0]);
      DecodeFirstOfEncodeChar(s[0], Encode(s[1..]));
      assert (e + Encode(s[1..]))[|e|..] == Encode(s[1..]);
      DecodeEncode(s[1..]);
      assert [s[0]] + s[1..] == s;
    }
  }

  lemma EncodeTwoBytes(b: seq<Byte>)
    requires |b| >= 2 && 0xC2 <= b[0] <= 0xDF && IsCont(b[1])
    ensures EncodeChar(((b[0] as int - 0xC0) * 64 + (b[1] as int - 0x80)) as char) == b[..2]
  {
    DivMod64(b[0] as int - 0xC0, b[1] - 0x80);
  }

  lemma EncodeThreeBytes(b: seq<Byte>, v: int)
    requires |b| >= 3 && 0xE0 <= b[0] <= 0xEF && IsCont(b[1]) && IsCont(b[2])
    requires v == (b[0] as int - 0xE0) * 4096 + (b[1] as int - 0x80) * 64 + (b[2] as int - 0x80)
    requires 0x800 <= v && IsScalar(v)
    ensures EncodeChar(v as char) == b[..3]
  {
    var q1 := (b[0] as int - 0xE0) * 64 + (b[1] - 0x80);
    assert v == q1 * 64 + (b[2] - 0x80);
    DivMod64(q1, b[2] - 0x80);
    DivMod64(b[0] as int - 0xE0, b[1] - 0x80);
  }

  lemma EncodeFourBytes(b: seq<Byte>, v: int)
    requires |b| >= 4 && 0xF0 <= b[0] <= 0xF4 && IsCont(b[1]) && IsCont(b[2]) && IsCont(b[3])
    requires v == (b[0] as int - 0xF0) * 262144 + (b[1] as int - 0x80) * 4096 + (b[2] as int - 0x80) * 64 + (b[3] as int - 0x80)
    requires 0x1_0000 <= v && IsScalar(v)
    ensures EncodeChar(v as char) == b[..4]
  {
    var q2 := (b[0] as int - 0xF0) * 64 + (b[1] - 0x80);
    var q1 := q2 * 64 + (b[2] - 0x80);
    assert v == q1 * 64 + (b[3] - 0x80);
    DivMod64(q1, b[3] - 0x80);
    DivMod64(q2, b[2] - 0x80);
    DivMod64(b[0] as int - 0xF0, b[1] - 0x80);
  }

  lemma EncodeCharOfDecodeFirst(b: seq<Byte>)
    requires DecodeFirst(b).Some?
    ensures EncodeChar(DecodeFirst(b).value.0) == b[..DecodeFirst(b).value.1]
  {
    var b0: int := b[0];
    if 0xC2 <= b0 <= 0xDF {
      EncodeTwoBytes(b);
    } else if 0xE0 <= b0 <= 0xEF {
      EncodeThreeBytes(b, (b0 - 0xE0) * 4096 + (b[1] as int - 0x80) * 64 + (b[2] as int - 0x80));
    } else if 0xF0 <= b0 {
      EncodeFourBytes(b, (b0 - 0xF0) * 262144 + (b[1] as int - 0x80) * 4096 + (b[2] as int - 0x80) * 64 + (b[3] as int - 0x80));
    }
  }

  /** Whatever decodes re-encodes to the very same bytes: the strict decoder
      accepts no alternative spelling of a character. */
  lemma {:induction false} EncodeDecode(b: seq<Byte>)
    requires Decode(b).Some?
    ensures Encode(Decode(b).value) == b
    decreases |b|
  {
    if b != [] {
      var (c, n) := DecodeFirst(b).value;
      EncodeCharOfDecodeFirst(b);
      EncodeDecode(b[n..]);
      var s := Decode(b).value;
      assert s == [c] + Decode(b[n..]).value;
      assert s[0] == c && s[1..] == Decode(b[n..]).value;
      assert b[..n] + b[n..] == b;
    }
  }

  /** Latin-1 decoding is injective and loses nothing. */
  lemma Latin1Injective(a: seq<Byte>, b: seq<Byte>)
    requires Latin1(a) == Latin1(b)
    ensures a == b
  {
    assert |a| == |b|;
    forall i | 0 <= i < |a| ensures a[i] == b[i] {
      assert Latin1(a)[i] == Latin1(b)[i];
    }
  }

  /** Every ASCII character encodes as the single byte of its own code point. */
  lemma AsciiEncodesAsItself(s: string)
    requires forall i :: 0 <= i < |s| ==> s[i] as int < 0x80
    ensures |Encode(s)| == |s|
    ensures forall i :: 0 <= i < |s| ==> Encode(s)[i] == s[i] as int
    decreases |s|
  {
    if s != [] {
      AsciiEncodesAsItself(s[1..]);
    }
  }
}
