/**
 * Hexadecimal text as the identifier generator uses it: `bytes.hex()`,
 * `int(s, 16)` and `hex(n)[2:]`, together with a digit-pair decoder that
 * serves as the reference inverse of `bytes.hex()`.
 */
module Hex {
  import opened Prelude

  /** A digit `int(s, 16)` accepts: 0-9, a-f and A-F. */
  predicate IsHexDigit(c: char) {
    ('0' <= c <= '9') || ('a' <= c <= 'f') || ('A' <= c <= 'F')
  }

  /** A digit Python writes when it renders hexadecimal: 0-9 and a-f. */
  predicate IsLowerDigit(c: char) {
    ('0' <= c <= '9') || ('a' <= c <= 'f')
  }

  predicate AllHexDigits(s: string) {
    forall i :: 0 <= i < |s| ==> IsHexDigit(s[i])
  }

  predicate IsLowerHex(s: string) {
    forall i :: 0 <= i < |s| ==> IsLowerDigit(s[i])
  }

  /** The shape of `hex(n)[2:]`: non-empty, lowercase, no leading zero unless it is "0". */
  predicate IsCanonical(s: string) {
    |s| > 0 && IsLowerHex(s) && (s[0] == '0' ==> |s| == 1)
  }

  function DigitValue(c: char): (v: nat)
    requires IsHexDigit(c)
    ensures v < 16
  {
    if '0' <= c <= '9' then c as int - '0' as int
    else if 'a' <= c <= 'f' then c as int - 'a' as int + 10
    else c as int - 'A' as int + 10
  }

  /** The lowercase digit Python prints for a nibble. */
  function DigitChar(d: nat): (c: char)
    requires d < 16
    ensures IsLowerDigit(c)
    ensures DigitValue(c) == d
  {
    if d < 10 then ('0' as int + d) as char else ('a' as int + d - 10) as char
  }

  /** A lowercase digit is the one `DigitChar` prints for its own value. */
  lemma DigitRoundTrip(c: char)
    requires IsLowerDigit(c)
    ensures DigitChar(DigitValue(c)) == c
  {
  }

  /** The natural a digit string denotes, big-endian in base 16 (the empty string denotes 0). */
  function HexValue(s: string): nat
    requires AllHexDigits(s)
  {
    if |s| == 0 then 0 else 16 * HexValue(s[..|s| - 1]) + DigitValue(s[|s| - 1])
  }

  /** `int(s, 16)` on ASCII digit text: None where Python raises ValueError, on empty text or a non-digit. */
  function ParseHex(s: string): (r: Option<nat>)
    ensures r.Some? <==> |s| > 0 && AllHexDigits(s)
    ensures IsCanonical(s) ==> r.Some? && NatToHex(r.value) == s
  {
    if !(|s| > 0 && AllHexDigits(s)) then None
    else if IsCanonical(s) then (CanonicalRoundTrip(s); Some(HexValue(s)))
    else Some(HexValue(s))
  }

  /** A leading zero digit does not change the value of a digit string. */
  lemma {:induction false} LeadingZeroDigit(s: string)
    requires |s| > 1 && s[0] == '0' && AllHexDigits(s)
    ensures HexValue(s) == HexValue(s[1..])
    decreases |s|
  {
    var p := s[..|s| - 1];
    assert s[1..][..|s| - 2] == p[1..];
    if |p| > 1 {
      LeadingZeroDigit(p);
    } else {
      assert HexValue(p) == 16 * HexValue([]) + DigitValue('0');
    }
  }

  /**
   * `int(s, 16)` ignores leading zeros, as in the token `uuid4().hex` when its
   * first digit is 0: together with the canonical clause of `ParseHex` this
   * fixes the value of every lowercase digit string.
   */
  lemma ParseHexLeadingZero(s: string)
    requires |s| > 1 && s[0] == '0' && AllHexDigits(s)
    ensures ParseHex(s) == ParseHex(s[1..])
  {
    LeadingZeroDigit(s);
  }

  /** `hex(n)[2:]`: the canonical lowercase rendering, read back by `HexValue`. */
  function NatToHex(n: nat): (s: string)
    ensures IsCanonical(s)
    ensures HexValue(s) == n
    decreases n
  {
    if n < 16 then [DigitChar(n)]
    else
      var p := NatToHex(n / 16);
      var s := p + [DigitChar(n % 16)];
      assert s[..|s| - 1] == p;
      s
  }

  /** A digit string whose leading digit is not zero denotes a positive number. */
  lemma {:induction false} LeadingDigitPositive(s: string)
    requires |s| > 0 && AllHexDigits(s) && DigitValue(s[0]) > 0
    ensures HexValue(s) > 0
    decreases |s|
  {
    if |s| > 1 {
      var p := s[..|s| - 1];
      assert p[0] == s[0];
      LeadingDigitPositive(p);
    }
  }

  /** Any non-zero digit makes the whole string denote a positive number. */
  lemma {:induction false} SomeDigitPositive(s: string, i: nat)
    requires AllHexDigits(s) && i < |s| && DigitValue(s[i]) > 0
    ensures HexValue(s) > 0
    decreases |s|
  {
    if i < |s| - 1 {
      var p := s[..|s| - 1];
      assert p[i] == s[i];
      SomeDigitPositive(p, i);
    }
  }

  /**
   * `hex(n)[2:]` is a bijection between naturals and canonical digit strings:
   * rendering the value of a canonical string gives that string back.
   */
  lemma {:induction false} CanonicalRoundTrip(s: string)
    requires IsCanonical(s)
    ensures NatToHex(HexValue(s)) == s
    decreases |s|
  {
    var last := s[|s| - 1];
    DigitRoundTrip(last);
    if |s| > 1 {
      var p := s[..|s| - 1];
      assert p[0] == s[0] && p[0] != '0';
      LeadingDigitPositive(p);
      CanonicalRoundTrip(p);
      var n := HexValue(s);
      assert n == 16 * HexValue(p) + DigitValue(last);
      assert n / 16 == HexValue(p) && n % 16 == DigitValue(last);
      assert s == p + [last];
    }
  }

  /** Two naturals with the same rendering are equal, and two equal naturals render alike. */
  lemma NatToHexInjective(m: nat, n: nat)
    ensures NatToHex(m) == NatToHex(n) <==> m == n
  {
  }

  /** The natural a byte string denotes, big-endian in base 256. */
  function BytesValue(b: seq<byte>): nat {
    if |b| == 0 then 0 else 256 * BytesValue(b[..|b| - 1]) + b[|b| - 1]
  }

  /** `bytes.hex()`: each byte becomes two lowercase digits, high nibble first. */
  function BytesToHex(b: seq<byte>): (s: string)
    ensures |s| == 2 * |b|
    ensures IsLowerHex(s)
  {
    if |b| == 0 then ""
    else
      var p := BytesToHex(b[..|b| - 1]);
      var x := b[|b| - 1];
      p + [DigitChar(x / 16), DigitChar(x % 16)]
  }

  /** Byte i of the input is printed at positions 2i (high nibble) and 2i + 1 (low nibble). */
  lemma {:induction false} BytesToHexDigits(b: seq<byte>, i: nat)
    requires i < |b|
    ensures BytesToHex(b)[2 * i] == DigitChar(b[i] / 16)
    ensures BytesToHex(b)[2 * i + 1] == DigitChar(b[i] % 16)
  {
    var pre := b[..|b| - 1];
    var x := b[|b| - 1];
    assert BytesToHex(b) == BytesToHex(pre) + [DigitChar(x / 16), DigitChar(x % 16)];
    if i < |b| - 1 {
      BytesToHexDigits(pre, i);
    }
  }

  /** Reading the hex text of a byte string as a number gives the byte string's own value. */
  lemma {:induction false} BytesToHexValue(b: seq<byte>)
    ensures HexValue(BytesToHex(b)) == BytesValue(b)
  {
    if |b| > 0 {
      var pre := b[..|b| - 1];
      var x := b[|b| - 1];
      var p := BytesToHex(pre);
      var s := BytesToHex(b);
      assert s == p + [DigitChar(x / 16), DigitChar(x % 16)];
      assert s[..|s| - 1] == p + [DigitChar(x / 16)];
      assert (p + [DigitChar(x / 16)])[..|p|] == p;
      BytesToHexValue(pre);
    }
  }

  /**
   * The reference inverse of `bytes.hex()`: reads the text back as digit pairs,
   * high nibble first; None on odd length or a non-digit.
   */
  function HexToBytes(s: string): (r: Option<seq<byte>>)
    ensures r.Some? <==> |s| % 2 == 0 && AllHexDigits(s)
    ensures r.Some? ==> 2 * |r.value| == |s|
    decreases |s|
  {
    if |s| == 0 then Some([])
    else if |s| < 2 || !IsHexDigit(s[|s| - 2]) || !IsHexDigit(s[|s| - 1]) then None
    else
      var p := s[..|s| - 2];
      assert forall i :: 0 <= i < |p| ==> p[i] == s[i];
      match HexToBytes(p)
      case None => None
      case Some(pre) => Some(pre + [16 * DigitValue(s[|s| - 2]) + DigitValue(s[|s| - 1])])
  }

  /** One more digit pair on the right decodes to one more byte on the right. */
  lemma HexToBytesSnoc(p: string, h: char, l: char)
    requires IsHexDigit(h) && IsHexDigit(l)
    ensures HexToBytes(p).None? ==> HexToBytes(p + [h, l]).None?
    ensures HexToBytes(p).Some? ==>
      HexToBytes(p + [h, l]) == Some(HexToBytes(p).value + [16 * DigitValue(h) + DigitValue(l)])
  {
    var s := p + [h, l];
    assert s[..|s| - 2] == p;
  }

  /** Decoding the digit pairs of `bytes.hex()` recovers the original bytes. */
  lemma {:induction false} BytesHexRoundTrip(b: seq<byte>)
    ensures HexToBytes(BytesToHex(b)) == Some(b)
  {
    if |b| > 0 {
      var pre := b[..|b| - 1];
      var x := b[|b| - 1];
      var h, l := DigitChar(x / 16), DigitChar(x % 16);
      assert BytesToHex(b) == BytesToHex(pre) + [h, l];
      BytesHexRoundTrip(pre);
      HexToBytesSnoc(BytesToHex(pre), h, l);
      assert b == pre + [x];
    }
  }

  /** One more byte on the right prints as one more digit pair on the right. */
  lemma BytesToHexSnoc(pre: seq<byte>, x: byte)
    ensures BytesToHex(pre + [x]) == BytesToHex(pre) + [DigitChar(x / 16), DigitChar(x % 16)]
  {
    assert (pre + [x])[..|pre|] == pre;
  }

  /** Lowercase even-length hex text is exactly the `bytes.hex()` of what it decodes to. */
  lemma {:induction false} HexBytesRoundTrip(s: string)
    requires IsLowerHex(s) && |s| % 2 == 0
    ensures HexToBytes(s).Some? && BytesToHex(HexToBytes(s).value) == s
    decreases |s|
  {
    if |s| > 0 {
      var p := s[..|s| - 2];
      var h, l := s[|s| - 2], s[|s| - 1];
      assert s == p + [h, l];
      HexBytesRoundTrip(p);
      var pre := HexToBytes(p).value;
      var x: byte := 16 * DigitValue(h) + DigitValue(l);
      HexToBytesSnoc(p, h, l);
      assert x / 16 == DigitValue(h) && x % 16 == DigitValue(l);
      calc {
        BytesToHex(HexToBytes(s).value);
        BytesToHex(pre + [x]);
        { BytesToHexSnoc(pre, x); }
        BytesToHex(pre) + [DigitChar(x / 16), DigitChar(x % 16)];
        { DigitRoundTrip(h); DigitRoundTrip(l); }
        p + [h, l];
      }
    }
  }

  /** Zero bytes in front of a byte string do not change the number it denotes. */
  lemma {:induction false} LeadingZeroBytes(k: nat, b: seq<byte>)
    ensures BytesValue(seq(k, _ => 0) + b) == BytesValue(b)
    decreases |b|, k
  {
    var z: seq<byte> := seq(k, _ => 0);
    if |b| > 0 {
      var zb := z + b;
      assert zb[..|zb| - 1] == z + b[..|b| - 1];
      LeadingZeroBytes(k, b[..|b| - 1]);
    } else if k > 0 {
      assert z + b == z;
      assert z[..k - 1] == seq(k - 1, _ => 0) + [];
      LeadingZeroBytes(k - 1, []);
    }
  }

  /**
   * Among lowercase digit strings of one length, the value decides the text:
   * with the length fixed, leading zeros cannot make two strings alike.
   */
  lemma {:induction false} SameLengthInjective(a: string, b: string)
    requires |a| == |b| && IsLowerHex(a) && IsLowerHex(b)
    requires HexValue(a) == HexValue(b)
    ensures a == b
    decreases |a|
  {
    if |a| > 0 {
      var pa, pb := a[..|a| - 1], b[..|b| - 1];
      var la, lb := a[|a| - 1], b[|b| - 1];
      assert HexValue(a) == 16 * HexValue(pa) + DigitValue(la);
      assert HexValue(b) == 16 * HexValue(pb) + DigitValue(lb);
      assert DigitValue(la) == DigitValue(lb) && HexValue(pa) == HexValue(pb);
      DigitRoundTrip(la);
      DigitRoundTrip(lb);
      SameLengthInjective(pa, pb);
      assert a == pa + [la] && b == pb + [lb];
    }
  }
}
