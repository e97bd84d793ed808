/**
 * UTF-8 as defined in RFC 3629: `str.encode()` (whose default codec is UTF-8)
 * and the strict `bytes.decode("utf-8")`, which refuses overlong forms,
 * encoded surrogates, code points above U+10FFFF and truncated sequences.
 */
module Utf8 {
  import opened Prelude

  /** A trailing byte of a multi-byte sequence: 10xxxxxx. */
  predicate IsContinuation(x: byte) {
    0x80 <= x < 0xC0
  }

  /** The one to four bytes RFC 3629 assigns to a Unicode scalar value. */
  function EncodeChar(c: char): (b: seq<byte>)
    ensures 1 <= |b| <= 4
    ensures c as int < 0x80 ==> b == [c as int]
    ensures c as int >= 0x80 ==> b[0] >= 0xC2 && forall i :: 1 <= i < |b| ==> IsContinuation(b[i])
  {
    var cp := c as int;
    if cp < 0x80 then [cp]
    else if cp < 0x800 then [0xC0 + cp / 0x40, 0x80 + cp % 0x40]
    else if cp < 0x1_0000 then
      [0xE0 + cp / 0x40 / 0x40, 0x80 + cp / 0x40 % 0x40, 0x80 + cp % 0x40]
    else
      [0xF0 + cp / 0x40 / 0x40 / 0x40, 0x80 + cp / 0x40 / 0x40 % 0x40,
       0x80 + cp / 0x40 % 0x40, 0x80 + cp % 0x40]
  }

  /** `str.encode()`: the concatenated encodings of the characters, in order. */
  function Encode(s: string): (b: seq<byte>)
    ensures |s| <= |b| <= 4 * |s|
  {
    if |s| == 0 then [] else EncodeChar(s[0]) + Encode(s[1..])
  }

  /**
   * The character at the front of `b` and the number of bytes it occupies,
   * or None where the strict decoder reports an invalid start or continuation byte.
   */
  function DecodeChar(b: seq<byte>): (r: Option<(char, nat)>)
    requires |b| > 0
    ensures r.Some? ==> 1 <= r.value.1 <= |b|
  {
    var b0 := b[0] as int;
    if b0 < 0x80 then Some((b0 as char, 1))
    else if 0xC2 <= b0 < 0xE0 then
      if |b| >= 2 && IsContinuation(b[1]) then
        Some((((b0 - 0xC0) * 0x40 + (b[1] as int - 0x80)) as char, 2))
      else None
    else if 0xE0 <= b0 < 0xF0 then
      // E0 would otherwise admit overlong forms, ED the UTF-16 surrogates
      var lo := if b0 == 0xE0 then 0xA0 else 0x80;
      var hi := if b0 == 0xED then 0xA0 else 0xC0;
      if |b| >= 3 && lo <= b[1] < hi && IsContinuation(b[2]) then
        Some((((b0 - 0xE0) * 0x1000 + (b[1] as int - 0x80) * 0x40 + (b[2] as int - 0x80)) as char, 3))
      else None
    else if 0xF0 <= b0 < 0xF5 then
      // F0 would otherwise admit overlong forms, F4 code points above U+10FFFF
      var lo := if b0 == 0xF0 then 0x90 else 0x80;
      var hi := if b0 == 0xF4 then 0x90 else 0xC0;
      if |b| >= 4 && lo <= b[1] < hi && IsContinuation(b[2]) && IsContinuation(b[3]) then
        Some((((b0 - 0xF0) * 0x4_0000 + (b[1] as int - 0x80) * 0x1000
               + (b[2] as int - 0x80) * 0x40 + (b[3] as int - 0x80)) as char, 4))
      else None
    else None
  }

  /** `bytes.decode("utf-8")`: None where Python raises UnicodeDecodeError. */
  function Decode(b: seq<byte>): (r: Option<string>)
    ensures r.Some? ==> |r.value| <= |b| && 4 * |r.value| >= |b|
    ensures |b| > 0 && DecodeChar(b).None? ==> r.None?
    decreases |b|
  {
    if |b| == 0 then Some("")
    else match DecodeChar(b)
      case None => None
      case Some((c, k)) =>
        match Decode(b[k..])
        case None => None
        case Some(rest) => Some([c] + rest)
  }

  /** The strict decoder reads an encoded character back, whatever follows it. */
  lemma DecodeEncodeChar(c: char, rest: seq<byte>)
    ensures DecodeChar(EncodeChar(c) + rest) == Some((c, |EncodeChar(c)|))
  {
    var cp := c as int;
    var b := EncodeChar(c) + rest;
    if cp < 0x80 {
    } else if cp < 0x800 {
      var q, r := cp / 0x40, cp % 0x40;
      assert cp == q * 0x40 + r;
      assert b[0] == 0xC0 + q && b[1] == 0x80 + r;
    } else if cp < 0x1_0000 {
      var q, r := cp / 0x40, cp % 0x40;
      var q2, m := q / 0x40, q % 0x40;
      assert cp == q2 * 0x1000 + m * 0x40 + r;
      assert b[0] == 0xE0 + q2 && b[1] == 0x80 + m && b[2] == 0x80 + r;
    } else {
      var q, r := cp / 0x40, cp % 0x40;
      var q2, m := q / 0x40, q % 0x40;
      var q3, m2 := q2 / 0x40, q2 % 0x40;
      assert cp == q3 * 0x4_0000 + m2 * 0x1000 + m * 0x40 + r;
      assert b[0] == 0xF0 + q3 && b[1] == 0x80 + m2 && b[2] == 0x80 + m && b[3] == 0x80 + r;
    }
  }

  /** A character the strict decoder accepts is re-encoded as exactly the bytes it came from. */
  lemma EncodeDecodeChar(b: seq<byte>)
    requires |b| > 0 && DecodeChar(b).Some?
    ensures EncodeChar(DecodeChar(b).value.0) == b[..DecodeChar(b).value.1]
  {
    var (c, k) := DecodeChar(b).value;
    var cp := c as int;
    var b0 := b[0] as int;
    if b0 < 0x80 {
      assert b[..k] == [b0];
    } else if b0 < 0xE0 {
      var q, r := b0 - 0xC0, b[1] as int - 0x80;
      assert cp == q * 0x40 + r;
      assert cp / 0x40 == q && cp % 0x40 == r;
      assert b[..k] == [b0, b[1]];
    } else if b0 < 0xF0 {
      var q2, m, r := b0 - 0xE0, b[1] as int - 0x80, b[2] as int - 0x80;
      var q := q2 * 0x40 + m;
      assert cp == q * 0x40 + r;
      assert cp / 0x40 == q && cp % 0x40 == r;
      assert q / 0x40 == q2 && q % 0x40 == m;
      assert b[..k] == [b0, b[1], b[2]];
    } else {
      var q3, m2, m, r := b0 - 0xF0, b[1] as int - 0x80, b[2] as int - 0x80, b[3] as int - 0x80;
      var q2 := q3 * 0x40 + m2;
      var q := q2 * 0x40 + m;
      assert cp == q * 0x40 + r;
      assert cp / 0x40 == q && cp % 0x40 == r;
      assert q / 0x40 == q2 && q % 0x40 == m;
      assert q2 / 0x40 == q3 && q2 % 0x40 == m2;
      assert b[..k] == [b0, b[1], b[2], b[3]];
    }
  }

  /** Decoding what `str.encode()` produced gives the original text back. */
  lemma {:induction false} DecodeEncode(s: string)
    ensures Decode(Encode(s)) == Some(s)
  {
    if |s| > 0 {
      var head := EncodeChar(s[0]);
      var tail := Encode(s[1..]);
      DecodeEncodeChar(s[0], tail);
      assert (head + tail)[|head|..] == tail;
      DecodeEncode(s[1..]);
      assert s == [s[0]] + s[1..];
    }
  }

  /** Encoding a text with a known first character: that character's bytes, then the rest's. */
  lemma EncodeCons(c: char, t: string)
    ensures Encode([c] + t) == EncodeChar(c) + Encode(t)
  {
    assert ([c] + t)[0] == c && ([c] + t)[1..] == t;
  }

  /** Whatever the strict decoder accepts is exactly the encoding of the text it returns. */
  lemma {:induction false} EncodeDecode(b: seq<byte>)
    requires Decode(b).Some?
    ensures Encode(Decode(b).value) == b
    decreases |b|
  {
    if |b| > 0 {
      var (c, k) := DecodeChar(b).value;
      var t := Decode(b[k..]).value;
      calc {
        Encode(Decode(b).value);
        Encode([c] + t);
        { EncodeCons(c, t); }
        EncodeChar(c) + Encode(t);
        { EncodeDecodeChar(b); EncodeDecode(b[k..]); }
        b[..k] + b[k..];
        b;
      }
    }
  }

  /** The decoder accepts `b` as the text `s` exactly when `s` encodes to `b`. */
  lemma DecodeIffEncode(b: seq<byte>, s: string)
    ensures Decode(b) == Some(s) <==> Encode(s) == b
  {
    if Decode(b) == Some(s) {
      EncodeDecode(b);
    }
    if Encode(s) == b {
      DecodeEncode(s);
    }
  }

  /** Encoding a concatenation concatenates the encodings. */
  lemma {:induction false} EncodeAppend(s: string, t: string)
    ensures Encode(s + t) == Encode(s) + Encode(t)
    decreases |s|
  {
    if |s| > 0 {
      assert s == [s[0]] + s[1..];
      assert s + t == [s[0]] + (s[1..] + t);
      EncodeCons(s[0], s[1..] + t);
      EncodeCons(s[0], s[1..]);
      EncodeAppend(s[1..], t);
    } else {
      assert s + t == t;
    }
  }

  /** A run of NUL characters encodes to the same number of zero bytes. */
  lemma {:induction false} EncodeNuls(k: nat)
    ensures Encode(seq(k, _ => '\0')) == seq(k, _ => 0)
  {
    if k > 0 {
      var z := seq(k, _ => '\0');
      assert z[1..] == seq(k - 1, _ => '\0');
      EncodeNuls(k - 1);
      assert seq(k, _ => 0) == [0] + seq(k - 1, _ => 0);
    }
  }
}
