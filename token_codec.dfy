/** The handoff token: `base64url(iv).base64url(ciphertext).base64url(mac)`, with
    an HMAC-SHA256 over `iv ++ ciphertext` checked before AES-256-CBC decryption,
    and an expiry check on the decrypted payload. */
module TokenCodec {
  import opened Wrappers
  import opened Encoding
  import opened JsText
  import opened Platform

  // ---- b64urlDecode ----

  /** The standard-alphabet character for a base64url one (section 5 of RFC 4648). */
  function StdChar(c: char): char
  {
    if c == '-' then '+' else if c == '_' then '/' else c
  }

  /** `s.replace(/-/g, "+").replace(/_/g, "/")`. */
  function ToStdAlphabet(s: string): string
  {
    seq(|s|, i requires 0 <= i < |s| => StdChar(s[i]))
  }

  /** `k` padding characters. */
  function Padding(k: nat): (r: string)
    ensures |r| == k && forall i :: 0 <= i < k ==> r[i] == '='
  {
    if k == 0 then [] else Padding(k - 1) + "="
  }

  /** How many `=` the padding loop appends to a string of length `n`. */
  function PaddingLength(n: nat): nat
  {
    (4 - n % 4) % 4
  }

  /** The string `b64urlDecode` hands to the base64 decoder. */
  function Normalised(s: string): (r: string)
    ensures |r| % 4 == 0 && |s| <= |r| <= |s| + 3
    ensures '-' !in r && '_' !in r
    ensures forall i :: 0 <= i < |s| ==> r[i] == StdChar(s[i])
    ensures forall i :: |s| <= i < |r| ==> r[i] == '='
  {
    ToStdAlphabet(s) + Padding(PaddingLength(|s|))
  }

  /** `b64urlDecode(s)`: normalise to the standard alphabet, pad with `=` up to a
      multiple of four, then decode. */
  method B64UrlDecode(platform: Primitives, s: string) returns (bytes: seq<byte>)
    ensures bytes == platform.base64Decode(Normalised(s))
  {
    var t := ToStdAlphabet(s);
    while |t| % 4 != 0
      invariant |s| <= |t| <= |s| + PaddingLength(|s|)
      invariant t == ToStdAlphabet(s) + Padding(|t| - |s|)
      decreases |s| + PaddingLength(|s|) - |t|
    {
      t := t + "=";
    }
    bytes := platform.base64Decode(t);
  }

  /** The base64url character for a standard one. */
  function UrlSafeChar(c: char): char
  {
    if c == '+' then '-' else if c == '/' then '_' else c
  }

  /** Unpadded base64url text for standard base64 text: trailing `=` dropped and
      the alphabet of section 5 of RFC 4648 restored. */
  function ToUrlSafe(std: string): string
  {
    var body := StripPadding(std);
    seq(|body|, i requires 0 <= i < |body| => UrlSafeChar(body[i]))
  }

  function StripPadding(s: string): string
  {
    if s != [] && s[|s| - 1] == '=' then StripPadding(s[..|s| - 1]) else s
  }

  lemma {:induction false} StripPaddingOfPadded(body: string, k: nat)
    requires body == [] || body[|body| - 1] != '='
    ensures StripPadding(body + Padding(k)) == body
  {
    if k > 0 {
      var shorter := body + Padding(k - 1);
      var s := body + Padding(k);
      assert s == shorter + "=";
      assert s[|s| - 1] == '=' && s[..|s| - 1] == shorter;
      assert StripPadding(s) == StripPadding(shorter);
      StripPaddingOfPadded(body, k - 1);
    } else {
      assert body + Padding(0) == body;
    }
  }

  /** Normalisation loses nothing: unpadded base64url text is recovered from what
      `b64urlDecode` passes to the decoder. */
  lemma NormalisedRoundTrip(s: string)
    requires '+' !in s && '/' !in s && '=' !in s
    ensures ToUrlSafe(Normalised(s)) == s
  {
    var std := ToStdAlphabet(s);
    assert std == [] || std[|std| - 1] != '=';
    StripPaddingOfPadded(std, PaddingLength(|s|));
  }

  // ---- decryptToken ----

  /** The reasons `decryptToken` throws, in the order they are tried. */
  datatype TokenError =
    | MissingToken      // "Missing token"
    | InvalidFormat     // "Invalid token format"
    | HmacMismatch      // "HMAC mismatch"
    | DecryptFailed     // thrown by the decipher
    | MalformedPayload  // thrown by JSON.parse
    | TokenExpired      // "Token expired"

  datatype TokenResult = Accepted(payload: Payload) | Rejected(error: TokenError)

  /** The three decoded segments of a token. */
  datatype Segments = Segments(iv: seq<byte>, ciphertext: seq<byte>, mac: seq<byte>)

  /** The segments of a token that splits on `.` into exactly three parts. */
  function DecodeSegments(platform: Primitives, token: string): (r: Option<Segments>)
    ensures r.Some? <==> Count(token, '.') == 2
  {
    var parts := Split(token, '.');
    if |parts| != 3 then None
    else
      Some(Segments(platform.base64Decode(Normalised(parts[0])),
                    platform.base64Decode(Normalised(parts[1])),
                    platform.base64Decode(Normalised(parts[2]))))
  }

  /** The MAC carried by the token is the HMAC of `iv ++ ciphertext`. */
  predicate Authentic(platform: Primitives, secret: seq<byte>, seg: Segments)
  {
    platform.hmacSha256(secret, seg.iv + seg.ciphertext) == seg.mac
  }

  /** The deciphered bytes of the ciphertext, or `None` when the decipher throws. */
  function Plaintext(platform: Primitives, secret: seq<byte>, seg: Segments): Option<seq<byte>>
  {
    platform.aes256CbcDecrypt(secret, seg.iv, seg.ciphertext)
  }

  /** The payload expiry rule: `exp` present, non-zero and not before `now`. */
  predicate Unexpired(exp: Option<int>, now: int)
  {
    exp.Some? && exp.value != 0 && now <= exp.value
  }

  /** What `decryptToken(token)` returns or throws when the clock reads `now`. */
  function TokenOutcome(platform: Primitives, secret: seq<byte>, token: Option<string>, now: int): (r: TokenResult)
    ensures r == Rejected(MissingToken) <==> token.None? || token.value == ""
    ensures r == Rejected(InvalidFormat) <==>
      token.Some? && token.value != "" && Count(token.value, '.') != 2
    ensures r == Rejected(HmacMismatch) <==>
      token.Some? && token.value != "" && DecodeSegments(platform, token.value).Some?
      && !Authentic(platform, secret, DecodeSegments(platform, token.value).value)
    ensures r == Rejected(DecryptFailed) <==>
      token.Some? && token.value != "" && DecodeSegments(platform, token.value).Some?
      && Authentic(platform, secret, DecodeSegments(platform, token.value).value)
      && Plaintext(platform, secret, DecodeSegments(platform, token.value).value).None?
    ensures r == Rejected(MalformedPayload) <==>
      token.Some? && token.value != "" && DecodeSegments(platform, token.value).Some?
      && Authentic(platform, secret, DecodeSegments(platform, token.value).value)
      && Plaintext(platform, secret, DecodeSegments(platform, token.value).value).Some?
      && platform.parsePayload(Plaintext(platform, secret, DecodeSegments(platform, token.value).value).value).None?
    ensures r.Accepted? ==>
      token.Some? && DecodeSegments(platform, token.value).Some?
      && Authentic(platform, secret, DecodeSegments(platform, token.value).value)
      && Plaintext(platform, secret, DecodeSegments(platform, token.value).value).Some?
      && platform.parsePayload(Plaintext(platform, secret, DecodeSegments(platform, token.value).value).value) == Some(r.payload)
      && Unexpired(r.payload.exp, now)
  {
    if token.None? || token.value == "" then Rejected(MissingToken)
    else match DecodeSegments(platform, token.value)
      case None => Rejected(InvalidFormat)
      case Some(seg) =>
        var expected := platform.hmacSha256(secret, seg.iv + seg.ciphertext);
        if |expected| != |seg.mac| || expected != seg.mac then Rejected(HmacMismatch)
        else match Plaintext(platform, secret, seg)
          case None => Rejected(DecryptFailed)
          case Some(plaintext) =>
            match platform.parsePayload(plaintext)
            case None => Rejected(MalformedPayload)
            case Some(payload) =>
              if payload.exp.None? || payload.exp.value == 0 || now > payload.exp.value
              then Rejected(TokenExpired)
              else Accepted(payload)
  }

  /** Once a token authenticates, decrypts and parses, the clock alone decides:
      it is accepted exactly while its expiry rule holds (so `exp == now` passes,
      and an absent or zero `exp` never does), and rejected as expired otherwise. */
  lemma ExpiryRule(platform: Primitives, secret: seq<byte>, token: string, now: int,
                   seg: Segments, plaintext: seq<byte>, payload: Payload)
    requires token != "" && DecodeSegments(platform, token) == Some(seg)
    requires Authentic(platform, secret, seg)
    requires Plaintext(platform, secret, seg) == Some(plaintext)
    requires platform.parsePayload(plaintext) == Some(payload)
    ensures TokenOutcome(platform, secret, Some(token), now) ==
      if Unexpired(payload.exp, now) then Accepted(payload) else Rejected(TokenExpired)
  {
  }

  /** A token accepted at `now` is accepted at every earlier instant, and one
      rejected as expired stays rejected at every later instant. */
  lemma ExpiryMonotone(platform: Primitives, secret: seq<byte>, token: Option<string>,
                       earlier: int, later: int)
    requires earlier <= later
    ensures TokenOutcome(platform, secret, token, later).Accepted? ==>
      TokenOutcome(platform, secret, token, earlier) == TokenOutcome(platform, secret, token, later)
    ensures TokenOutcome(platform, secret, token, earlier) == Rejected(TokenExpired) ==>
      TokenOutcome(platform, secret, token, later) == Rejected(TokenExpired)
  {
  }

  /** The library calls `decryptToken` makes, in order. */
  datatype Step = DecodeSegment | ComputeHmac | Decipher | ParseJson

  const DECODE_AND_MAC := [DecodeSegment, DecodeSegment, DecodeSegment, ComputeHmac]

  /** `decryptToken(token)`, with the clock passed in, recording which library
      calls it makes. */
  method DecryptToken(platform: Primitives, secret: seq<byte>, token: Option<string>, now: int)
    returns (r: TokenResult, ghost trace: seq<Step>)
    ensures r == TokenOutcome(platform, secret, token, now)
    ensures r == Rejected(MissingToken) || r == Rejected(InvalidFormat) <==> trace == []
    ensures r == Rejected(HmacMismatch) <==> trace == DECODE_AND_MAC
    ensures Decipher in trace ==>
      |trace| >= 5 && trace[..5] == DECODE_AND_MAC + [Decipher]
      && token.Some? && DecodeSegments(platform, token.value).Some?
      && Authentic(platform, secret, DecodeSegments(platform, token.value).value)
    ensures r.Accepted? ==> trace == DECODE_AND_MAC + [Decipher, ParseJson]
  {
    trace := [];
    if token.None? || token.value == "" {
      return Rejected(MissingToken), trace;
    }
    var parts := Split(token.value, '.');
    if |parts| != 3 {
      return Rejected(InvalidFormat), trace;
    }
    var iv := B64UrlDecode(platform, parts[0]);
    var ciphertext := B64UrlDecode(platform, parts[1]);
    var hmac := B64UrlDecode(platform, parts[2]);
    trace := trace + [DecodeSegment, DecodeSegment, DecodeSegment];

    var expected := platform.hmacSha256(secret, iv + ciphertext);
    trace := trace + [ComputeHmac];
    if |expected| != |hmac| || expected != hmac {
      return Rejected(HmacMismatch), trace;
    }

    var dec := platform.aes256CbcDecrypt(secret, iv, ciphertext);
    trace := trace + [Decipher];
    if dec.None? {
      return Rejected(DecryptFailed), trace;
    }
    var payload := platform.parsePayload(dec.value);
    trace := trace + [ParseJson];
    if payload.None? {
      return Rejected(MalformedPayload), trace;
    }

    var p := payload.value;
    if p.exp.None? || p.exp.value == 0 || now > p.exp.value {
      return Rejected(TokenExpired), trace;
    }
    return Accepted(p), trace;
  }
}
