/** The session cookie value: `value + "." + hex(HMAC-SHA256(secret, value))`,
    verified by splitting at the last `.`. */
module SessionCodec {
  import opened Wrappers
  import opened Encoding
  import opened JsText
  import opened Platform

  /** `createHmac("sha256", secret).update(value).digest("hex")`. */
  function MacHex(platform: Primitives, secret: seq<byte>, value: string): (mac: string)
    ensures '.' !in mac && '|' !in mac && IsAscii(mac)
    ensures platform.Valid() ==> |mac| == 2 * DIGEST_SIZE
  {
    var mac := Hex(platform.hmacSha256(secret, Utf8(value)));
    HexAvoids(platform.hmacSha256(secret, Utf8(value)), '.');
    HexAvoids(platform.hmacSha256(secret, Utf8(value)), '|');
    mac
  }

  /** `signValue(value)`: the value, then a `.`, then its hex MAC; the inserted
      `.` is the last one, so it separates the two parts again. */
  function SignValue(platform: Primitives, secret: seq<byte>, value: string): (signed: string)
    ensures LastIndexOf(signed, '.') == |value|
    ensures signed[..|value|] == value && signed[|value| + 1..] == MacHex(platform, secret, value)
  {
    LastIndexOfSeparator(value, '.', MacHex(platform, secret, value));
    value + "." + MacHex(platform, secret, value)
  }

  /** What `verifySigned` does: return the value, return null, or let
      `timingSafeEqual` throw because the two buffers differ in length. */
  datatype Verification = Verified(value: string) | Refused | Throws

  /** `verifySigned(signedValue)`; `None` is an undefined argument. Both MACs are
      compared as UTF-8 buffers, as `Buffer.from(string)` makes them. */
  function VerifySigned(platform: Primitives, secret: seq<byte>, signed: Option<string>): (r: Verification)
    ensures signed.None? || signed == Some("") || '.' !in signed.value ==> r == Refused
  {
    if signed.None? || signed.value == "" then Refused
    else
      var s := signed.value;
      var idx := LastIndexOf(s, '.');
      if idx == -1 then Refused
      else
        CheckMac(platform, secret, s[..idx], s[idx + 1..])
  }

  /** The end of `verifySigned`: `timingSafeEqual` of the UTF-8 buffers of the
      expected and the given MAC. It throws exactly on a length difference, which
      for a 32-byte digest means a given MAC that is not 64 bytes long, and it
      accepts only the expected MAC itself. */
  function CheckMac(platform: Primitives, secret: seq<byte>, value: string, mac: string): (r: Verification)
    ensures r == Verified(value) <==> mac == MacHex(platform, secret, value)
    ensures r.Verified? ==> r == Verified(value)
    ensures platform.Valid() ==> (r == Throws <==> |Utf8(mac)| != 2 * DIGEST_SIZE)
  {
    var expected := MacHex(platform, secret, value);
    match TimingSafeEqual(Utf8(expected), Utf8(mac))
    case None => Throws
    case Some(equal) =>
      if equal then
        Utf8MatchesAscii(mac, expected);
        Verified(value)
      else Refused
  }

  /** Every value survives signing and verification unchanged, including values
      that themselves contain `.`. */
  lemma SignVerifyRoundTrip(platform: Primitives, secret: seq<byte>, value: string)
    ensures VerifySigned(platform, secret, Some(SignValue(platform, secret, value))) == Verified(value)
  {
    var s := SignValue(platform, secret, value);
    assert s[|value| + 1..] == MacHex(platform, secret, value);
  }

  /** Only signed values verify: a string accepted as carrying `value` is exactly
      `signValue(value)`. */
  lemma VerifiedIsSigned(platform: Primitives, secret: seq<byte>, signed: Option<string>)
    requires VerifySigned(platform, secret, signed).Verified?
    ensures signed == Some(SignValue(platform, secret, VerifySigned(platform, secret, signed).value))
  {
    var s := signed.value;
    var idx := LastIndexOf(s, '.');
    assert idx != -1;
    var value, mac := s[..idx], s[idx + 1..];
    assert VerifySigned(platform, secret, signed) == CheckMac(platform, secret, value, mac);
    assert mac == MacHex(platform, secret, value);
    SplitAround(s, idx);
  }

  /** `verifySigned` throws exactly when the part after the last `.` is not 64
      bytes long once UTF-8 encoded; the comparison itself is not length-guarded. */
  lemma ThrowsOnMacLength(platform: Primitives, secret: seq<byte>, s: string)
    requires platform.Valid()
    ensures VerifySigned(platform, secret, Some(s)) == Throws <==>
      s != "" && '.' in s && |Utf8(s[LastIndexOf(s, '.') + 1..])| != 2 * DIGEST_SIZE
  {
    if s != "" && '.' in s {
      var idx := LastIndexOf(s, '.');
      assert idx != -1;
      var verdict := CheckMac(platform, secret, s[..idx], s[idx + 1..]);
      assert VerifySigned(platform, secret, Some(s)) == verdict;
      assert verdict == Throws <==> |Utf8(s[idx + 1..])| != 2 * DIGEST_SIZE;
    }
  }

  /** A 64-character ASCII MAC that is not the right one is refused, not thrown on. */
  lemma ForgedMacRefused(platform: Primitives, secret: seq<byte>, value: string, mac: string)
    requires platform.Valid()
    requires IsAscii(mac) && '.' !in mac && |mac| == 2 * DIGEST_SIZE
    requires mac != MacHex(platform, secret, value)
    ensures VerifySigned(platform, secret, Some(value + "." + mac)) == Refused
  {
    var s := value + "." + mac;
    LastIndexOfSeparator(value, '.', mac);
    assert s[..|value|] == value && s[|value| + 1..] == mac;
  }
}
