/**
 * The product identifier of `idGen`: the random token and the hex text of the
 * product code's UTF-8 bytes are read as base-16 naturals, added, and the sum
 * is rendered by `hex(...)[2:]`.
 */
module IdGen {
  import opened Prelude
  import Hex
  import Utf8

  /** What `uuid.uuid4().hex` returns: 32 lowercase hex digits. */
  predicate IsToken(t: string) {
    |t| == 32 && Hex.IsLowerHex(t)
  }

  /**
   * The finer shape of a version-4 UUID (section 4.4 of RFC 4122) in that
   * rendering: version nibble 4 at digit 12, variant bits 10 at digit 16.
   */
  predicate IsUuid4Token(t: string) {
    IsToken(t) && t[12] == '4' && t[16] in "89ab"
  }

  /**
   * `idGen` on an already-encoded product code: None where `int(asin, 16)` would
   * raise, which happens exactly when the code is empty.
   */
  function GenId(token: string, code: seq<byte>): (r: Option<string>)
    requires IsToken(token)
    ensures r.Some? <==> |code| > 0
    ensures r.Some? ==> Hex.IsCanonical(r.value)
    ensures r.Some? ==> Hex.HexValue(r.value) == Hex.HexValue(token) + Hex.BytesValue(code)
  {
    Hex.BytesToHexValue(code);
    var t := Hex.ParseHex(token);
    var c := Hex.ParseHex(Hex.BytesToHex(code));
    if t.Some? && c.Some? then Some(Hex.NatToHex(t.value + c.value)) else None
  }

  /** `idGen` on the product code as typed: `asin.encode().hex()` feeds the sum. */
  function ProductId(token: string, asin: string): (r: Option<string>)
    requires IsToken(token)
    ensures r.Some? <==> |asin| > 0
    ensures r.Some? ==> Hex.IsCanonical(r.value)
    ensures r.Some? ==>
      Hex.HexValue(r.value) == Hex.HexValue(token) + Hex.BytesValue(Utf8.Encode(asin))
  {
    GenId(token, Utf8.Encode(asin))
  }

  /** A version-4 token is never zero: its version digit alone is 4. */
  lemma Uuid4Positive(token: string)
    requires IsUuid4Token(token)
    ensures Hex.HexValue(token) > 0
  {
    Hex.SomeDigitPositive(token, 12);
  }

  /**
   * With a version-4 token the identifier is never "0", so it never starts
   * with a zero digit and contains only 0-9 and a-f.
   */
  lemma GenIdNoLeadingZero(token: string, code: seq<byte>)
    requires IsUuid4Token(token) && |code| > 0
    ensures GenId(token, code).Some?
    ensures var id := GenId(token, code).value;
      |id| > 0 && id[0] != '0' && Hex.IsLowerHex(id)
  {
    Uuid4Positive(token);
  }

  /**
   * For one token, two product codes give the same identifier exactly when
   * their bytes denote the same number.
   */
  lemma GenIdInjective(token: string, a: seq<byte>, b: seq<byte>)
    requires IsToken(token) && |a| > 0 && |b| > 0
    ensures GenId(token, a) == GenId(token, b) <==> Hex.BytesValue(a) == Hex.BytesValue(b)
  {
  }

  /**
   * For one product code, two tokens give the same identifier exactly when
   * they are the same token: a repeated code collides only through a repeated
   * token.
   */
  lemma GenIdTokenInjective(t1: string, t2: string, code: seq<byte>)
    requires IsToken(t1) && IsToken(t2) && |code| > 0
    ensures GenId(t1, code) == GenId(t2, code) <==> t1 == t2
  {
    if GenId(t1, code) == GenId(t2, code) {
      Hex.SameLengthInjective(t1, t2);
    }
  }

  /**
   * The identifier is the canonical rendering of the sum, and nothing else:
   * any canonical text whose value is the sum is that identifier.
   */
  lemma GenIdUnique(token: string, code: seq<byte>, id: string)
    requires IsToken(token) && |code| > 0
    requires Hex.IsCanonical(id)
    requires Hex.HexValue(id) == Hex.HexValue(token) + Hex.BytesValue(code)
    ensures GenId(token, code) == Some(id)
  {
    Hex.CanonicalRoundTrip(id);
    Hex.CanonicalRoundTrip(GenId(token, code).value);
  }

  /**
   * The smallest instance of `LeadingNulsIgnored`: the product codes "A" and
   * "\0A" receive the same identifier under every token.
   */
  lemma LeadingNulCollides(token: string)
    requires IsToken(token)
    ensures ProductId(token, "\0A") == ProductId(token, "A")
  {
    assert seq(1, _ => '\0') + "A" == "\0A";
    LeadingNulsIgnored(token, 1, "A");
  }

  /**
   * The general rule: any number of NUL characters in front of a non-empty
   * product code leaves its identifier unchanged, because they encode to zero
   * bytes that add nothing to the code's value.
   */
  lemma LeadingNulsIgnored(token: string, k: nat, asin: string)
    requires IsToken(token) && |asin| > 0
    ensures ProductId(token, seq(k, _ => '\0') + asin) == ProductId(token, asin)
  {
    var nuls := seq(k, _ => '\0');
    Utf8.EncodeAppend(nuls, asin);
    Utf8.EncodeNuls(k);
    Hex.LeadingZeroBytes(k, Utf8.Encode(asin));
    GenIdInjective(token, Utf8.Encode(nuls + asin), Utf8.Encode(asin));
  }
}
