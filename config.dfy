/** Start-up: the shared secret comes from the `SECRET_HEX` environment variable,
    decoded from hex, and the process refuses to start unless it is 32 bytes. */
module Config {
  import opened Wrappers
  import opened Encoding

  /** AES-256 key size, also used as the HMAC key. */
  const KEY_SIZE := 32

  /** The secret the server runs with, or `None` when it exits at start-up
      (variable unset or empty, or not decoding to exactly 32 bytes). */
  function LoadSecret(env: Option<string>): (key: Option<seq<byte>>)
    ensures key.Some? ==> |key.value| == KEY_SIZE
    ensures key.Some? ==> env.Some? && |env.value| >= 2 * KEY_SIZE
  {
    var secretHex := if env.Some? then env.value else "";
    if secretHex == "" then None
    else
      var secret := HexDecode(secretHex);
      if |secret| != KEY_SIZE then None else Some(secret)
  }

  /** Every 32-byte key, written as 64 hex characters, is accepted as itself. */
  lemma LoadSecretOfHex(key: seq<byte>)
    requires |key| == KEY_SIZE
    ensures LoadSecret(Some(Hex(key))) == Some(key)
  {
    HexDecodeHex(key);
  }
}
