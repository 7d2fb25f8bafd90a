# Stateless token-to-session protocol of the ERI test app server

This project models the core of `server/server.mjs`: the exchange of an
encrypted, provider-issued handoff token for a signed session cookie, and the
checks made on that cookie afterwards.

- **Token codec** (`TokenCodec`). `b64urlDecode` rewrites a base64url segment to
  the standard alphabet and pads it with `=` to a multiple of four. It is a
  method with the padding loop. `decryptToken` is a method that records the
  library calls it makes. It is proved equal to the specification function
  `TokenOutcome`. Its steps are:
  - reject a missing or empty token;
  - reject a token that does not split on `.` into exactly three parts;
  - decode the three segments;
  - compare HMAC-SHA256 (RFC 2104) over `iv ++ ciphertext` with the third segment;
  - only then decrypt with AES-256-CBC and parse the JSON;
  - apply the expiry rule: `exp` present, non-zero, and `now <= exp`.
- **Session codec** (`SessionCodec`). `signValue` appends `.` and the hex
  HMAC of the value. `verifySigned` splits at the last `.` and compares the two
  MACs as UTF-8 buffers. It has three outcomes: the value, null, or an exception
  from `timingSafeEqual` when the lengths differ.
- **Routes** (`Routes`). `/api/login`, `/api/me` and `/api/logout` are pure
  functions of the input, the secret and the clock. Each returns a status, a body
  and a cookie action (keep, set or clear).
- **Start-up** (`Config`). `SECRET_HEX` is decoded with Node's lenient hex
  decoder, and the process exits unless the result is exactly 32 bytes.
- **Supporting modules**. `JsText` models the JavaScript built-ins used:
  `split` and `lastIndexOf` with a one-character separator, `parseInt(s, 10)`
  and the template-literal rendering of integers. `Encoding` models UTF-8,
  lower-case hex and `Buffer.from(s, "hex")`.

The cryptographic and parsing library calls are the fields of
`Platform.Primitives`: HMAC-SHA256, `Buffer.from(s, "base64")`, AES-256-CBC
decryption and `JSON.parse`. They are uninterpreted function values, so every
result holds for every implementation of them. The only fact assumed about them
is that an HMAC-SHA256 digest is 32 bytes (`Primitives.Valid`), and it is used
only where the 64-character digest length matters. Determinism is free, since
they are functions. The clock is the parameter `now`, in epoch seconds.

Behaviours of the code a reader may not expect:
- A token with `exp == now` is accepted, because the code rejects only `now > exp`.
- The token's three segments may be empty.
- In `verifySigned`, a MAC of the wrong length makes `timingSafeEqual` throw.
  The exception escapes `/api/me`, which then answers with a server error
  (status 500) instead of "unauthenticated".
- Fields of the cookie identity are not escaped. An email containing `|` shifts
  the fields, and the user id is then read as the expiry
  (`PipeInEmailShiftsFields`).
- An unparsable or missing expiry in a verified cookie is reported as "expired"
  and clears the cookie. It is not treated as a malformed credential.
- A correctly signed empty value is answered like a refused one, because `!raw`
  holds of the empty string (`SignedEmptyValueNotAuthenticated`).

## Model

| member | source | states |
|---|---|---|
| `TokenCodec.Normalised` | server/server.mjs:25-27 | the normalised segment has no `-` or `_`, its length is a multiple of 4, at most three `=` are appended, and every original character is kept in place, mapped `-`→`+`, `_`→`/` |
| `TokenCodec.B64UrlDecode` | server/server.mjs:25-29 | the padding loop stops at the next multiple of four, and the bytes returned are the base64 decoding of the normalised segment |
| `TokenCodec.NormalisedRoundTrip` | server/server.mjs:25-27 | for unpadded base64url text, stripping the padding and restoring the URL-safe alphabet gives the segment back, so normalisation loses nothing |
| `TokenCodec.DecodeSegments` | server/server.mjs:33-38 | the token yields three decoded segments iff it contains exactly two `.` |
| `TokenCodec.TokenOutcome` | server/server.mjs:31-60 | missing or empty token ⇔ "Missing token"; non-empty with a `.`-count other than 2 ⇔ "Invalid token format"; three parts with a MAC differing from HMAC(iv‖ciphertext) ⇔ "HMAC mismatch"; authentic and the decipher throws ⇔ rejected by the decipher; authentic, deciphered, and `JSON.parse` throws ⇔ rejected by the parser; an accepted payload is exactly what `JSON.parse` made of the deciphered bytes of an authentic token, and is unexpired |
| `TokenCodec.ExpiryRule` | server/server.mjs:52-60 | once a token authenticates, decrypts and parses, it is accepted iff `exp` is present, non-zero and `now <= exp`, otherwise "Token expired" |
| `TokenCodec.ExpiryMonotone` | server/server.mjs:57-58 | a token accepted at some time is accepted, with the same payload, at every earlier time; one expired stays expired later |
| `TokenCodec.DecryptToken` | server/server.mjs:31-61 | returns what `TokenOutcome` specifies; structural rejections make no library call; an HMAC mismatch stops after decoding and the HMAC; the decipher is invoked only after the HMAC step and only on an authentic token; acceptance runs decode×3, HMAC, decipher, parse |
| `SessionCodec.MacHex` | server/server.mjs:64 | the hex digest is ASCII, holds no `.` and no `|`, and is 64 characters long for a 32-byte digest |
| `SessionCodec.SignValue` | server/server.mjs:63-66 | the signed string is the value, a `.` and its hex MAC, and that `.` is the last one, so it separates the two parts again |
| `SessionCodec.VerifySigned` | server/server.mjs:68-80 | a missing or empty input, or one without a `.`, gives null |
| `SessionCodec.CheckMac` | server/server.mjs:73-78 | the given value is returned iff the given MAC equals the expected one, and no other value is ever returned; otherwise null or a throw, and with a 32-byte digest it throws iff the given MAC is not 64 bytes once UTF-8 encoded |
| `Platform.TimingSafeEqual` | server/server.mjs:77 | `timingSafeEqual` throws iff the buffer lengths differ, and otherwise answers whether the buffers are equal |
| `SessionCodec.SignVerifyRoundTrip` | server/server.mjs:63-80 | `verifySigned(signValue(v))` returns `v` for every string `v`, including those that contain `.` |
| `SessionCodec.VerifiedIsSigned` | server/server.mjs:68-80 | a string that `verifySigned` accepts as carrying `v` is exactly `signValue(v)` |
| `SessionCodec.ThrowsOnMacLength` | server/server.mjs:68-78 | `verifySigned` throws exactly when the input is non-empty, has a `.`, and the part after the last `.` is not 64 bytes once UTF-8 encoded |
| `SessionCodec.ForgedMacRefused` | server/server.mjs:73-78 | a wrong 64-character ASCII MAC makes `verifySigned` return null, not throw |
| `Routes.Identity` | server/server.mjs:94 | the identity `email\|user_id\|exp` splits on `\|` back into the email, the user id and the rendered expiry when the first two contain no `\|` |
| `Routes.SessionExpiry` | server/server.mjs:132-133 | `parseInt` of the third `\|`-field; NaN (`None`) whenever there are fewer than three fields |
| `Routes.Login` | server/server.mjs:85-121 | a cookie is set iff `decryptToken` accepts, with status 200 and `{ok:true}`, and the cookie verifies to exactly the identity `email\|user_id\|exp` of the accepted payload; any failure gives 401, the single message "Invalid or expired token", and no cookie |
| `Routes.Me` | server/server.mjs:124-146 | never sets a cookie; clears it iff the reply is "expired"; no or empty cookie gives 401 unauthenticated; 500 iff `verifySigned` throws; 401 unauthenticated iff it returns null or the empty value; 401 "expired" with a clear iff the verified value is non-empty and its expiry is NaN, zero or before `now`; otherwise 200 with the first two `\|`-fields and the parsed expiry, and the cookie is exactly `signValue` of that value |
| `Routes.SignedEmptyValueNotAuthenticated` | server/server.mjs:129-130 | a correctly signed empty value gets 401 unauthenticated and the cookie is kept |
| `Routes.Logout` | server/server.mjs:148-156 | always status 200, `{ok:true}` and a cookie-clear instruction |
| `Routes.LoginThenMe` | server/server.mjs:89-96 | after a successful login, `/api/me` returns the token's email, user id and expiry while `now <= exp`, and "expired" with a clear afterwards, for fields without `\|` |
| `Routes.LogoutEndsSession` | server/server.mjs:148-156 | whatever cookie the browser held, after logout the identity check answers 401 unauthenticated |
| `Routes.PipeInEmailShiftsFields` | server/server.mjs:94 | with email `a\|b`, the check reads `a` as the email, `b` as the user id, and the user id as the expiry |
| `JsText.Split` | server/server.mjs:33 | `split` yields one more part than there are separators, no part holds the separator, and joining the parts gives the input |
| `JsText.SplitJoin` | server/server.mjs:132 | splitting a join of separator-free fields returns those fields |
| `JsText.SplitThreeFields` | server/server.mjs:132 | three `\|`-free fields joined with `\|` split back into exactly those three fields |
| `JsText.LastIndexOf` | server/server.mjs:69 | the result is -1 or a position holding the character, and no later position holds it |
| `JsText.LastIndexOfSeparator` | server/server.mjs:65-72 | in `v + "." + tail` with no `.` in `tail`, the last `.` is at position `\|v\|` |
| `JsText.ParseInt` | server/server.mjs:133 | `parseInt(s, 10)` is NaN whenever `s` holds no digit, and negative only when `s` holds a `-` |
| `JsText.Decimal` | server/server.mjs:94 | the template-literal rendering of an integer is non-empty, starts with `-` exactly for negative numbers, and is otherwise decimal digits |
| `JsText.ParseIntDecimal` | server/server.mjs:133 | `parseInt` of the decimal rendering of an integer is that integer |
| `JsText.DecimalAvoids` | server/server.mjs:94 | the rendering of an integer contains no `\|` or other non-digit character except `-` |
| `Encoding.Utf8MatchesAscii` | server/server.mjs:77 | the only string whose UTF-8 buffer equals that of an ASCII string is that string |
| `Encoding.Utf8` | server/server.mjs:64-77 | `Buffer.from(s)` and `update(s)` produce one to four bytes per character, and exactly one per character iff the string is ASCII |
| `Encoding.Hex` | server/server.mjs:64 | the hex digest has two characters per byte, all from `0-9a-f` |
| `Encoding.HexAvoids` | server/server.mjs:64 | a hex digest is ASCII and contains no character outside `0-9a-f` |
| `Encoding.HexDecode` | server/server.mjs:18 | `Buffer.from(s, "hex")` yields at most `\|s\|/2` bytes |
| `Encoding.HexDecodeHex` | server/server.mjs:18 | decoding a lower-case hex rendering gives the bytes back |
| `Config.LoadSecret` | server/server.mjs:9-22 | the server starts only with a key of exactly 32 bytes, which needs at least 64 characters of `SECRET_HEX` |
| `Config.LoadSecretOfHex` | server/server.mjs:14-22 | every 32-byte key written as 64 hex characters is accepted as itself |

## Left out

- HMAC-SHA256, AES-256-CBC with PKCS#7 removal, `Buffer.from(s, "base64")` and `JSON.parse` are uninterpreted parameters. They are foreign library calls. The only fact assumed is the 32-byte digest size.
- The decipher's `update`/`final` pair is one partial call, `aes256CbcDecrypt`. The split between the two buffers is not observable outside the library.
- The constant-time property of `crypto.timingSafeEqual` is not modelled. Timing cannot be expressed; the comparison is equality plus the throw on unequal lengths.
- `Date.now()` is not read. The clock is the parameter `now`, already in whole seconds.
- `process.env`, `process.exit`, `PORT`, `SESSION_COOKIE_NAME` and `IS_PROD` are boundary code. Only the 32-byte secret check is kept, as `Config.LoadSecret`.
- The Hono app, `/api/health`, `serve`, `getCookie`/`setCookie`/`deleteCookie`, the cookie attributes and `console.log`/`console.error` are HTTP and logging plumbing. Cookie effects are the abstract `CookieAction`.
- `/api/me` clears the cookie with `c.cookie(...)`, unlike the other handlers. Whether that method exists depends on the Hono version, which is not part of this model. The call is modelled as a clear instruction.
- A payload `exp` that is not an integer or null (a string, a boolean, a fraction) is not modelled. `Payload.exp` is an optional integer.
- `email` and `user_id` are modelled as the strings a template literal makes of them. Their JSON types are not modelled.
- Numbers are unbounded integers. JavaScript renders numbers of 1e21 and above in exponent form, loses precision above 2^53, and `parseInt` overflows to Infinity; none of this is modelled.
- TokenCodec.Normalised: lengths are counted in Unicode scalar values, while JavaScript's `s.length % 4` counts UTF-16 code units. A segment holding a character above U+FFFF gets different padding (for `😀`, JavaScript appends `==` and the model `===`); `TokenCodec.PaddingLength` and `TokenCodec.B64UrlDecode` share this unit.
- Strings are sequences of Unicode scalar values. Lone UTF-16 surrogates, which `Buffer.from` turns into U+FFFD, are not modelled.
- `Encoding.HexDecode` treats every character outside `0-9a-fA-F` as a non-hex digit. Node first truncates a UTF-16 code unit to its low byte, so a character above U+00FF could read as a digit; that is not modelled.
- `client/src/App.jsx` is not part of this model. It holds React UI state and `fetch` calls.
- `ecosystem.config.js` is not part of this model. It holds process-manager configuration.
