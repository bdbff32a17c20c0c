# jose-java: the Base64 codec and the JSON Web Token engine, in Dafny

This project models the core of jose-java in Dafny and proves properties of the model. The core is two Java classes:

- `net.kuralab.codec.Base64` is a hand-written standard-alphabet Base64 codec. It spells every byte as text digits, regroups the digits and looks each group up in a 64-entry table.
- `net.kuralab.jose.JsonWebToken` is a small stateful token class:
  - a builder that signs and assembles a three-segment token;
  - a parser that splits a token and reads its header and payload;
  - `verify`, an ordered chain of eight checks that records the first failure in `verifyError`.

Files:

- `java_types.dfy` (module `JavaTypes`) holds what the Java code relies on:
  - Java's signed `byte` (`JByte`) and its unsigned reading;
  - nullable references (`Option`);
  - exceptions that escape a method (`Result` with `Failure(Exception)`).
- `base64.dfy` (module `Base64`) is the codec.
  - `Encode` and `Decode` are imperative methods over the same buffers the Java code builds, one helper method per loop.
  - Each is proved equal to a specification function, `Encoded` and `Decoded`.
  - The properties are lemmas about those functions: the round trip, the output shape, and how decoding treats characters outside the table.
- `token_text.dfy` (module `TokenText`) is the dotted token text: joining segments with '.', and Java's `String.split("\\.")`.
- `json_web_token.dfy` (module `JsonWebTokens`) is the token engine.
  - The fields of `JsonWebToken` become fields of a Dafny class. The setters, `Decode` and `Verify` change them in place under `modifies` frames.
  - `Encode` and the getters only read them.
  - What the engine receives from code it does not define is a parameter of type `Environment`. That is the platform charset, `javax.json` text and parsing, `Base64.encodeUrlSafe`/`decodeUrlSafe`, and `javax.crypto.Mac`.
  - The clock is a parameter `now`, in seconds.

Behaviour reproduced as the code has it, some of it far from what a standard Base64 codec or JWT library does:

- **Encoding pads unconditionally.** `encode` always appends 1 to 6 zero digits and 1 to 4 '=' characters. A bit count that is already a multiple of 6 therefore gets an extra symbol 'A', and the empty array encodes to "A===".
- **Small bytes throw.** A byte whose unsigned value is below 0x10 has a one-digit hexadecimal spelling. `substring(1, 2)` on it throws `StringIndexOutOfBoundsException`, modelled as `Failure(StringIndexOutOfBounds)`.
- **Decoding skips unknown characters.** `decode` ignores every character that is not in the table, '=' included. It keeps floor(6k/8) bytes for k table characters.
- **The signature check is inverted.** `verify` rejects a token whose stored signature segment equals the recomputed signature, and accepts one whose segment differs.
- **`encode` and `verify` sign different inputs.**
  - `encode` signs the two JSON texts written one after the other.
  - `verify` signs the two stored URL-safe segments written one after the other.
  - Neither puts a '.' between them, unlike section 5.1 of RFC 7515.
  - `verify` always signs with `HS256` = "hmacSHA256", whatever algorithm `encode` used.
- **The stored signature is encoded twice.** The segment is the URL-safe encoding of the standard Base64 text of the MAC bytes.
- **The header always says HS256.** Its `alg` is the literal "HS256", whatever algorithm signs.
- **Split follows Java exactly.** `decode` uses Java's split, not a plain split on '.'.
  - A text without '.' comes back whole, and "" gives one empty piece.
  - Otherwise trailing empty pieces are dropped, so ".." gives no piece at all.
  - The contract of `JavaSplit` relates the two splits.
- **`decode` stores what it can before failing.** It assigns the pieces before checking their count. Fewer than three pieces throw `ArrayIndexOutOfBoundsException` after storing the ones there are. Pieces after the third are ignored.

Where the code departs from the standards it follows, the model follows the code:

- Section 10 of RFC 4648 gives BASE64("") = "". This `encode` gives "A===" (`EncodedEmpty`).
- Section 3.3 of RFC 4648 has a decoder reject characters outside the alphabet. This `decode` skips them (`DecodeIgnoresOthers`).
- Section 7.1 of RFC 7515 gives the compact serialisation exactly three parts. This `decode` takes the first three pieces and ignores any more (`DecodeStoresPieces`).
- Section 5.2 of RFC 7515 validates a MAC when the recomputed value equals the stored one. This `verify` rejects exactly that case (`SignatureCheck`).

The table `BASE64_TABLE` is defined entry by entry through `Symbol`, one range of code points per alphabet block. It holds the same 64 characters in the same order as the Java array.

## Model

| member | source | states |
|---|---|---|
| Base64.TableIndex | Jose/src/net/kuralab/codec/Base64.java:11-16 | The table has 64 entries, and `SymbolIndex` is its inverse: the index of entry i is i, and a character is in the table exactly when its index is not -1. |
| Base64.PaddedBinary | Jose/src/net/kuralab/codec/Base64.java:30-39 | Prepending "0" to `toBinaryString(v)` until the width is reached gives the width-digit big-endian spelling of v, for v below 2^width. |
| Base64.PaddedBinaryString | Jose/src/net/kuralab/codec/Base64.java:30-39 | `toBinaryString(v)` never has more digits than the width that holds v, and zeros in front of it give the fixed-width spelling. |
| Base64.FixedBitsValue | Jose/src/net/kuralab/codec/Base64.java:30-39 | The fixed-width spelling of v denotes v. |
| Base64.BinaryString | Jose/src/net/kuralab/codec/Base64.java:30-31 | `Integer.toBinaryString(v)` has at least one digit and no leading zero: it is "0" for 0 and starts with 1 otherwise. |
| Base64.BinaryStringValue | Jose/src/net/kuralab/codec/Base64.java:30 | `Integer.toBinaryString(v)` denotes v. |
| Base64.ByteBitsValue | Jose/src/net/kuralab/codec/Base64.java:27-40 | The eight digits written for a byte denote its unsigned value: the first four are the high hexadecimal digit and the last four the low one, most significant bit first. |
| Base64.SpellBytes | Jose/src/net/kuralab/codec/Base64.java:26-41 | The first loop of `encode` yields the digits of every byte in order when each byte is at least 0x10, and fails with `StringIndexOutOfBounds` otherwise. |
| Base64.SymbolText | Jose/src/net/kuralab/codec/Base64.java:48-51 | The symbol loop of `encode` writes one table symbol per six digits, in order. |
| Base64.Encode | Jose/src/net/kuralab/codec/Base64.java:23-58 | `encode` returns the text of the specification function `Encoded`, or the same exception. |
| Base64.Encoded | Jose/src/net/kuralab/codec/Base64.java:23-58 | Encoding fails exactly when some byte has unsigned value below 0x10, and the failure is `StringIndexOutOfBounds`. |
| Base64.SymbolsAt | Jose/src/net/kuralab/codec/Base64.java:49-51 | Symbol k of the output is the table entry at the value of digits 6k to 6k+5, so every symbol is a table entry. |
| Base64.EncodedShape | Jose/src/net/kuralab/codec/Base64.java:43-55 | For n bytes the output has floor(8n/6)+1 table symbols followed by 1 to 4 '=' characters, and its length is a multiple of 4. |
| Base64.EncodedEmpty | Jose/src/net/kuralab/codec/Base64.java:43-55 | The empty array encodes to "A===". |
| Base64.SymbolDigits | Jose/src/net/kuralab/codec/Base64.java:69-78 | The inner table scan of `decode` appends the six-digit spelling of a character's table index, and nothing for a character outside the table. |
| Base64.Decoded | Jose/src/net/kuralab/codec/Base64.java:65-90 | `decode` returns one byte per whole eight digits of the digit buffer, leftover digits dropped, and byte i has the unsigned value of digits 8i to 8i+7. |
| Base64.ByteAt | Jose/src/net/kuralab/codec/Base64.java:83-86 | The byte built from two hexadecimal halves and cast with `(byte)` has the unsigned value of its eight digits. |
| Base64.Decode | Jose/src/net/kuralab/codec/Base64.java:65-90 | `decode` returns the byte array of the specification function `Decoded`. |
| Base64.BytesBitsAt | Jose/src/net/kuralab/codec/Base64.java:26-41 | Digits 8i to 8i+7 of the digit text are the digits of byte i. |
| Base64.DecodeBitsAppend | Jose/src/net/kuralab/codec/Base64.java:67-79 | The digits read from a concatenation are the digits of each part, in order. |
| Base64.DecodeSymbols | Jose/src/net/kuralab/codec/Base64.java:68-79 | Reading back the first n symbols written from a digit text gives its first 6n digits. |
| Base64.DecodePads | Jose/src/net/kuralab/codec/Base64.java:68-79 | '=' padding contributes no digits when read back. |
| Base64.EncodedDigits | Jose/src/net/kuralab/codec/Base64.java:23-79 | Reading back an encoded text yields the byte digits followed by the 1 to 6 padding zeros. |
| Base64.RoundTripByte | Jose/src/net/kuralab/codec/Base64.java:82-87 | Byte i read from the digits of an array, whatever digits follow, is the original byte i. |
| Base64.RoundTrip | Jose/src/net/kuralab/codec/Base64.java:23-90 | `decode(encode(b)) == b` for every array whose bytes are all at least 0x10: the 8n+p digits with p at most 6 give back exactly n bytes. |
| Base64.TableSymbols | Jose/src/net/kuralab/codec/Base64.java:68-79 | Filtering a text keeps only characters that are table entries. |
| Base64.DecodeIgnoresOthers | Jose/src/net/kuralab/codec/Base64.java:68-79 | `decode(s)` equals `decode` of s with every non-table character removed ('=' included). |
| Base64.DecodeBitsLayout | Jose/src/net/kuralab/codec/Base64.java:68-79 | The digit buffer has six digits per table character of the input, and digits 6j to 6j+5 denote the table index of the j-th table character. |
| Base64.DecodedBytes | Jose/src/net/kuralab/codec/Base64.java:81-82 | `decode` returns floor(6k/8) bytes for k table characters of the input. |
| TokenText.FirstDot | Jose/src/net/kuralab/jose/JsonWebToken.java:110 | The first '.' of a text is at the returned position and nowhere before it. |
| TokenText.Split | Jose/src/net/kuralab/jose/JsonWebToken.java:110 | The plain split on '.' gives at least one piece and no piece contains '.'. |
| TokenText.JoinSplit | Jose/src/net/kuralab/jose/JsonWebToken.java:110 | Joining the pieces of a split with '.' gives the text back. |
| TokenText.SplitJoin | Jose/src/net/kuralab/jose/JsonWebToken.java:110 | Splitting dot-free segments joined with '.' gives the segments back. |
| TokenText.DropTrailingEmpty | Jose/src/net/kuralab/jose/JsonWebToken.java:110 | The kept pieces are a prefix that is empty or ends in a non-empty piece, and every dropped piece is empty. |
| TokenText.JavaSplit | Jose/src/net/kuralab/jose/JsonWebToken.java:110 | Java's split is the plain split with its trailing empty pieces removed; its pieces are dot-free, and for a non-empty text the last piece, if any, is non-empty. |
| TokenText.JavaSplitFirst | Jose/src/net/kuralab/jose/JsonWebToken.java:110-111 | Java's split of joined dot-free segments starts with the first segment when that is non-empty. |
| TokenText.JavaSplitJoin | Jose/src/net/kuralab/jose/JsonWebToken.java:110 | Java's split of joined dot-free segments gives them back when the last is non-empty. |
| JsonWebTokens.WrapLong | Jose/src/net/kuralab/jose/JsonWebToken.java:183 | The `long` difference equals the exact difference when that fits in 64 bits, and is 2^64 less when it overflows upwards. |
| JsonWebTokens.SignatureOf | Jose/src/net/kuralab/jose/JsonWebToken.java:214-229 | Signing succeeds exactly when every MAC byte is at least 0x10; otherwise `Base64.encode` throws `StringIndexOutOfBounds`. |
| JsonWebTokens.SignatureDecodes | Jose/src/net/kuralab/jose/JsonWebToken.java:214-229 | A signature text decodes back to the MAC bytes it was made from. |
| JsonWebTokens.GenerateSignature | Jose/src/net/kuralab/jose/JsonWebToken.java:214-229 | `generateSignature` is `Base64.encode` of the MAC of the data's bytes keyed with the secret's bytes. |
| JsonWebTokens.SignedToken | Jose/src/net/kuralab/jose/JsonWebToken.java:77-107 | `encode` throws `NullPointerException` when the audience, issuer or nonce is missing, throws the codec's exception when the MAC cannot be encoded, and succeeds otherwise. |
| JsonWebTokens.SignedTokenSegments | Jose/src/net/kuralab/jose/JsonWebToken.java:79-106 | The token is the header segment, '.', the payload segment, '.', the signature segment. The signature is over the two JSON texts with no separator and is URL-safe-encoded a second time. |
| JsonWebTokens.HeaderIgnoresAlgorithm | Jose/src/net/kuralab/jose/JsonWebToken.java:79-106 | Tokens signed with two algorithms share everything up to the signature segment: the header carries `alg` "HS256" either way. |
| JsonWebTokens.TokenSplitsIntoSegments | Jose/src/net/kuralab/jose/JsonWebToken.java:99-113 | Java's split of three joined dot-free segments gives them back when the signature segment is non-empty, and starts with the header segment when that is non-empty. |
| JsonWebTokens.Step | Jose/src/net/kuralab/jose/JsonWebToken.java:144-201 | Each rejection belongs to one of the eight checks. |
| JsonWebTokens.ErrorCodeNamesStep | Jose/src/net/kuralab/jose/JsonWebToken.java:145-198 | Two rejections have the same `verifyError` code exactly when they come from the same check. |
| JsonWebTokens.ErrorCode | Jose/src/net/kuralab/jose/JsonWebToken.java:145-198 | The `verifyError` code of a rejection is the code of the check it comes from, the eight codes listed in the order the checks run. |
| JsonWebTokens.AudienceNeverListedAsWritten | Jose/src/net/kuralab/jose/JsonWebToken.java:162-169 | As written, the audience scan finds no match in any `aud` array. |
| JsonWebTokens.AudienceListedByContent | Jose/src/net/kuralab/jose/JsonWebToken.java:162-169 | Compared by content, the scan finds a match exactly when the expected audience is listed. |
| JsonWebTokens.ScanAudience | Jose/src/net/kuralab/jose/JsonWebToken.java:162-169 | The flag-and-break loop sets the flag exactly when some element matches. |
| JsonWebTokens.ClaimRejected | Jose/src/net/kuralab/jose/JsonWebToken.java:144-193 | The rejection claim check k reports belongs to check k. |
| JsonWebTokens.Rejected | Jose/src/net/kuralab/jose/JsonWebToken.java:144-201 | The rejection check k reports belongs to check k. |
| JsonWebTokens.ClaimsCheck | Jose/src/net/kuralab/jose/JsonWebToken.java:144-193 | The seven claim checks in order: no rejection when all pass; otherwise the rejection of a check that fails, every earlier check passing. |
| JsonWebTokens.SignatureCheck | Jose/src/net/kuralab/jose/JsonWebToken.java:197-201 | The signature check rejects, with `invalid_signature`, exactly when the stored segment equals the recomputed signature: inverted, as written. |
| JsonWebTokens.Verdict | Jose/src/net/kuralab/jose/JsonWebToken.java:144-203 | The eight checks in order: no rejection when all pass; otherwise the rejection of a check that fails, every earlier check passing. |
| JsonWebTokens.FirstFailureWins | Jose/src/net/kuralab/jose/JsonWebToken.java:144-203 | When check k is the first to fail, the verdict is the rejection check k reports. |
| JsonWebTokens.NothingPassesAsWritten | Jose/src/net/kuralab/jose/JsonWebToken.java:162-174 | With the audience compared as written, every token is rejected at or before the audience check. |
| JsonWebTokens.ExpiryBoundary | Jose/src/net/kuralab/jose/JsonWebToken.java:176-181 | Once the type, algorithm, issuer and audience checks pass, the verdict is `expired_token` exactly when `exp < now`, so `exp == now` passes. |
| JsonWebTokens.IssuedAtBoundary | Jose/src/net/kuralab/jose/JsonWebToken.java:183-187 | For non-negative times the issued-at check passes exactly when `now - iat <= issuedAtLimit`, the limit starting at 600. |
| JsonWebTokens.IssuedAtWrapsAround | Jose/src/net/kuralab/jose/JsonWebToken.java:183-187 | The issued-at difference wraps around in 64 bits: a token with `iat` = `Long.MIN_VALUE` passes the issued-at check at every positive time, although far more than the limit has passed. |
| JsonWebTokens.Conclusion | Jose/src/net/kuralab/jose/JsonWebToken.java:144-203 | A failing claim check decides the verdict before any signing; signing can only throw `StringIndexOutOfBounds`. |
| JsonWebTokens.ConclusionIsVerdict | Jose/src/net/kuralab/jose/JsonWebToken.java:144-203 | What `verify` concludes is the verdict of the eight checks for the HS256 signature over the signing input, and it throws exactly when that signature cannot be encoded and the seven claim checks pass. |
| JsonWebTokens.CheckClaims | Jose/src/net/kuralab/jose/JsonWebToken.java:144-193 | The if-chain of the seven claim checks, with the audience scan under the given comparison and one clock reading, reports what `ClaimsCheck` does. |
| JsonWebTokens.DecodeStep | Jose/src/net/kuralab/jose/JsonWebToken.java:109-124 | `decode` succeeds exactly when the token is present, splits into at least three pieces and both objects parse. Success leaves all five fields set, and a stored signature always comes with stored header and payload segments. |
| JsonWebTokens.DecodeStoresPieces | Jose/src/net/kuralab/jose/JsonWebToken.java:110-113 | The first three pieces land verbatim in `header`, `payload` and `signature`, extra pieces are ignored, and fewer than three throw `ArrayIndexOutOfBounds` after storing those there are. |
| JsonWebTokens.DecodeSignedToken | Jose/src/net/kuralab/jose/JsonWebToken.java:99-113 | Decoding a token `encode` produced stores its three segments, provided the codec never emits '.' and the signature segment is non-empty. |
| JsonWebTokens.JsonWebToken.CreateObjectBuilder | Jose/src/net/kuralab/jose/JsonWebToken.java:44-55 | A builder starts with every reference null, expiration 0 and the issued-at limit 600. |
| JsonWebTokens.JsonWebToken.constructor | Jose/src/net/kuralab/jose/JsonWebToken.java:49-51 | A token object holds its token text, with every other reference null and the issued-at limit 600. |
| JsonWebTokens.JsonWebToken.SetIssuer | Jose/src/net/kuralab/jose/JsonWebToken.java:57-60 | Sets only `issuer` and returns the same object. |
| JsonWebTokens.JsonWebToken.SetAudience | Jose/src/net/kuralab/jose/JsonWebToken.java:62-65 | Sets only `audience` and returns the same object. |
| JsonWebTokens.JsonWebToken.SetExpiration | Jose/src/net/kuralab/jose/JsonWebToken.java:67-70 | Sets only `expiration` and returns the same object. |
| JsonWebTokens.JsonWebToken.SetNonce | Jose/src/net/kuralab/jose/JsonWebToken.java:72-75 | Sets only `nonce` and returns the same object. |
| JsonWebTokens.JsonWebToken.Encode | Jose/src/net/kuralab/jose/JsonWebToken.java:77-107 | `encode` leaves the object unchanged and returns `SignedToken` for its fields, with `iat` = now. |
| JsonWebTokens.JsonWebToken.Decode | Jose/src/net/kuralab/jose/JsonWebToken.java:109-124 | `decode` writes only the five parsed fields, leaving them and the outcome as `DecodeStep` of the token text and the old fields gives. |
| JsonWebTokens.JsonWebToken.Reject | Jose/src/net/kuralab/jose/JsonWebToken.java:145-199 | A failing check sets `verifyError` to its code and the detail to its rejection. |
| JsonWebTokens.JsonWebToken.Verify | Jose/src/net/kuralab/jose/JsonWebToken.java:138-204 | `verify` decodes only when a parsed object or the signature is missing, and an exception from `decode` or signing escapes. Otherwise it returns false with the error fields set to the first failing check, or true with the error fields untouched. The HS256 signature is over the stored segments, and an equal stored signature is rejected. With `AsWritten` the audience scan is the source's; with `ByContent` it is the corrected one. |

## Left out

- JSON building, printing and parsing through `javax.json` is left out, because it is a foreign library. Header and payload are records, their texts are opaque functions of the `Environment`, and a parse is an opaque function returning `None` when `readObject` throws.
- A header or payload with a missing or mistyped claim is not modelled: `getString`, `getJsonNumber` and `getJsonArray` failing or returning null. The parsed records always carry every claim.
- HMAC through `javax.crypto.Mac` is an opaque function of data bytes, key bytes and algorithm name.
- GenerateSignature: when `Mac.getInstance` or `init` throws, the source catches the exception and passes null to `Base64.encode`. That path is not modelled, and neither is `SecretKeySpec` rejecting an empty key. The modelled MAC always returns bytes.
- The clock (`new Date().getTime() / 1000`) is the parameter `now`.
- Character-set conversion (`String.getBytes()` in the platform charset, `new String(..., "UTF-8")`) is an opaque function of the `Environment`.
- `Base64.encodeUrlSafe` and `Base64.decodeUrlSafe` are not part of this model, because they are absent from the modelled `Base64.java`. They are opaque functions. The lemmas about splitting a produced token assume that the URL-safe codec never emits '.'.
- `verifyErrorDetail` is recorded as the `Rejection` value carrying the values its message quotes, not as the message text. Its wording, including the "minutes" that labels a limit in seconds, is not modelled.
- The builder fields hold their values, so the later aliasing of a caller's varargs array passed to `setAudience` is not modelled.
- Null arguments to the setters, to `verify` and to `encode` are not modelled: the arguments are plain strings. A never-set field is `None`, and where the source then throws `NullPointerException`, the model fails with `NullPointer`.
- `printStackTrace` on the caught exceptions is left out, because it is console output. The caught `UnsupportedEncodingException` in `decode` cannot occur for "UTF-8" and is left out.
- The getters `getHeader`, `getPayload`, `getSignature`, `getVerifyError` and `getVerifyErrorDetail` are functions that read one field each. They need no contract beyond their body.
- `Sample.java` is a console demonstration, not part of this model.

## Findings

| source | as written | input that shows it | evidently intended | confidence | as-written member | corrected member |
|---|---|---|---|---|---|---|
| Jose/src/net/kuralab/jose/JsonWebToken.java:165 | `audience.equals(i.next())` compares a `String` with a `JsonValue`, which `String.equals` never finds equal, so the audience check rejects every token and `verify` can never return true | any token whose `aud` array is `["client_id"]`, verified with audience "client_id": `invalid_audience` | the expected audience is compared with the string content of each `aud` element, so the check passes when the audience is listed | not executed | JsonWebTokens.NothingPassesAsWritten | JsonWebTokens.AudienceListedByContent |
