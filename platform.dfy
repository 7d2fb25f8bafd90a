/** The foreign primitives the server calls, kept uninterpreted. Each is a field of
    `Primitives`, so every fact proved below holds for every implementation of
    them; only determinism (they are functions) and the digest size are assumed. */
module Platform {
  import opened Wrappers
  import opened Encoding

  /** Size of an HMAC-SHA256 digest in bytes. */
  const DIGEST_SIZE := 32

  /** What the server reads out of a decrypted payload: `email` and `user_id` as a
      template literal renders them, and `exp` when it is a (non-null) integer. */
  datatype Payload = Payload(email: string, userId: string, exp: Option<int>)

  datatype Primitives = Primitives(
    /** `createHmac("sha256", key).update(message).digest()`. */
    hmacSha256: (seq<byte>, seq<byte>) -> seq<byte>,
    /** `Buffer.from(s, "base64")`, which never throws. */
    base64Decode: string -> seq<byte>,
    /** `createDecipheriv("aes-256-cbc", key, iv)` followed by `update(ciphertext)`
        and `final()`; `None` when any of them throws (bad IV length, bad padding). */
    aes256CbcDecrypt: (seq<byte>, seq<byte>, seq<byte>) -> Option<seq<byte>>,
    /** `JSON.parse(plaintext.toString("utf8"))` and the field reads; `None` when
        the parse throws. */
    parsePayload: seq<byte> -> Option<Payload>)
  {
    /** The one fact about HMAC-SHA256 that the code relies on: its digest size. */
    ghost predicate Valid()
    {
      forall key, message :: |hmacSha256(key, message)| == DIGEST_SIZE
    }
  }

  /** `crypto.timingSafeEqual(a, b)`: whether the buffers are equal, or `None`
      when it throws because their lengths differ. Its timing is not modelled. */
  function TimingSafeEqual(a: seq<byte>, b: seq<byte>): (r: Option<bool>)
    ensures r.None? <==> |a| != |b|
    ensures r.Some? ==> (r.value <==> a == b)
  {
    if |a| != |b| then None else Some(a == b)
  }
}
