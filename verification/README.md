# Paddle Billing webhook signature check, in Dafny

This project models the signature check that a Paddle Billing webhook endpoint
runs before it handles a request: the resource filter
`EnsureIsFromPaddleBillingFilter.OnResourceExecutionAsync` and its helper
`GetBytesOf`.

The request carries a `Paddle-Signature` header such as
`ts=1671552777;h1=eb4d…b151`. The filter does the following, in order:

- It refuses a missing or empty header.
- It splits the header on `;`.
- It takes the timestamp text from the first field and the digest text from
  the last field. In each case the text is what follows the field's last `=`.
- It refuses an empty timestamp or digest text.
- It parses the timestamp as a signed 64-bit integer.
- It refuses an event time that is in the future or more than five minutes
  old.
- It computes HMAC-SHA256 over the UTF-8 bytes of `"<timestamp text>:<body>"`,
  keyed with the UTF-8 bytes of the shared secret.
- It renders the MAC as lower-case hexadecimal.
- It lets the request through to the next handler only when that rendering
  equals the header's digest, character for character.

Every refusal sets the same `UnauthorizedResult`. The `Reason` tags in the
model only name the guard that fired.

Files:

- `signature.dfy` (module `PaddleSignature`) holds:
  - the decision procedure as the function `Verify`;
  - the guards before hashing as `Admit`;
  - the filter itself as the method `OnResourceExecution`, with its early
    returns;
  - a sender's `Sign`;
  - the properties of the whole check.
- `strings.dfy` (module `Strings`) models `string.Split(char)` and
  `Split('=').Last()`. It relates them to "before the first" and "after the
  last" separator.
- `int64.dfy` (module `Int64`) models `long.TryParse` with the default
  integer number style. It also has a decimal renderer `Show` used by senders.
- `utf8.dfy` (module `Utf8`) models `Encoding.UTF8.GetBytes`, the body of
  `GetBytesOf`, with a strict decoder as its inverse.
- `hex.dfy` (module `Hex`) models the `{0:x2}` loop over the hash bytes. It
  also has a parser as the rendering's inverse.
- `common.dfy` holds `Option` and the `byte` type.

The model has these parameters:

- HMAC-SHA256 is a function parameter `mac`. The predicate `Sized(mac)`
  states its 32-byte output and is required only where the digest length
  matters.
- The clock is a single integer `now`, in Unix seconds.
- The request body is the text that `StreamReader.ReadToEndAsync` returns.

## Model

| member | source | states |
|---|---|---|
| PaddleSignature.Verify | EnsureIsFromPaddleBillingAttribute.cs:27-110 | The decision on one request. It is stated by `AcceptIff`, `SignAccepted`, `ComputedDigestAccepted`, `OtherDigestRejected` and `ForgeryNeedsCollision`, and the filter method is tied to it. |
| PaddleSignature.Admit | EnsureIsFromPaddleBillingAttribute.cs:27-72 | The guards before hashing, in the source's order. It is stated by `MissingHeaderRejected`, `AcceptIff` and the filter method's HMAC-count clause. |
| PaddleSignature.ExtractFields | EnsureIsFromPaddleBillingAttribute.cs:37-47 | The timestamp and digest texts. It is stated by `TimestampLocated`, `DigestLocated` and `SignedHeaderFields`. |
| PaddleSignature.CheckTime | EnsureIsFromPaddleBillingAttribute.cs:63-72 | The range and freshness guards. It is stated by `FreshnessWindowExact` and `FreshnessBoundaries`. |
| PaddleSignature.CanonicalMessage | EnsureIsFromPaddleBillingAttribute.cs:86 | The hashed text. It is stated by `ColonEndsTimestamp`, `MessageBytes` and `MessageUnambiguous`. |
| PaddleSignature.ExpectedDigest | EnsureIsFromPaddleBillingAttribute.cs:86-97 | The lower-case hex of the MAC of the message. It is stated by `AcceptedDigestShape` and `ForgeryNeedsCollision`. |
| Strings.Split | EnsureIsFromPaddleBillingAttribute.cs:37 | `string.Split(char)` keeping empty fields: always at least one part. It is stated by `JoinSplit`, `SplitJoin`, `SplitPartsFree`, `SplitAppend`, `FirstPartBeforeFirstSep` and `LastPartAfterLastSep`. |
| Strings.FieldValue | EnsureIsFromPaddleBillingAttribute.cs:44-47 | `Split('=').Last()`. It is stated by `FieldValueAfterLastEquals` and `FieldValueOfPair`. |
| Utf8.Encode | EnsureIsFromPaddleBillingAttribute.cs:113-114 | `Encoding.UTF8.GetBytes`. It is stated by `DecodeEncode`, `EncodeDecode`, `EncodeAppend`, `EncodeInjective` and `EncodeAscii`. |
| Hex.HexOf | EnsureIsFromPaddleBillingAttribute.cs:93-97 | The builder's contents after the loop. It is stated by `HexShape`, `HexLowercase`, `UnhexHex` and `HexUnhex`, and the loop is proved to build it. |
| PaddleSignature.OnResourceExecution | EnsureIsFromPaddleBillingAttribute.cs:21-111 | The filter leaves `context.Result` unset exactly when `Verify` accepts, and any refusal it sets carries `Verify`'s reason. HMAC is computed once exactly when every guard before it passes, and never otherwise. The next handler is invoked once exactly when no refusal was set. |
| PaddleSignature.MissingHeaderRejected | EnsureIsFromPaddleBillingAttribute.cs:27-33 | An absent or empty header is refused as missing, by the guards and by the whole check. |
| PaddleSignature.EmptyHeaderExample | EnsureIsFromPaddleBillingAttribute.cs:27-33 | The empty header is refused as missing. |
| PaddleSignature.TimestampLocated | EnsureIsFromPaddleBillingAttribute.cs:37-44 | The timestamp text is the `Split('=').Last()` value of the text before the header's first `;`. |
| PaddleSignature.DigestLocated | EnsureIsFromPaddleBillingAttribute.cs:37-47 | The digest text is the `Split('=').Last()` value of the text after the header's last `;`, so the fields in between are ignored. |
| PaddleSignature.SignedHeaderFields | EnsureIsFromPaddleBillingAttribute.cs:25-26 | Take a header of the documented form `ts=<t>;h1=<d>`, where `t` and `d` hold no `;` or `=`. Extraction yields exactly `t` and `d`. |
| PaddleSignature.UnstructuredHeaderRejected | EnsureIsFromPaddleBillingAttribute.cs:37-61 | Take a non-empty header with no `;` and no `=`. Both texts are the whole header. If it does not parse, it is refused as an invalid timestamp. |
| PaddleSignature.GarbageExample | EnsureIsFromPaddleBillingAttribute.cs:37-61 | The header `garbage` is refused as an invalid timestamp. |
| PaddleSignature.EmptyValueExample | EnsureIsFromPaddleBillingAttribute.cs:50-54 | `ts=;h1=abc` is refused because its timestamp text is empty. |
| PaddleSignature.NonNumericTimestampRejected | EnsureIsFromPaddleBillingAttribute.cs:57-61 | Take a well-formed `ts=<t>;h1=<d>` header whose `t` does not parse as a 64-bit integer. It is refused as an invalid timestamp. |
| PaddleSignature.NonNumericExample | EnsureIsFromPaddleBillingAttribute.cs:57-61 | `ts=abc;h1=xyz` is refused as an invalid timestamp. |
| PaddleSignature.FreshnessWindowExact | EnsureIsFromPaddleBillingAttribute.cs:63-72 | A representable event time passes the time guards exactly when `now - 300 <= ts <= now`. A later time is refused as in the future, and an earlier one as too old. |
| PaddleSignature.FreshnessBoundaries | EnsureIsFromPaddleBillingAttribute.cs:63-72 | `ts = now` and `ts = now - 300` pass. `ts = now + 1` is refused as in the future, and `ts = now - 301` as too old. |
| PaddleSignature.ParsedTimestampText | EnsureIsFromPaddleBillingAttribute.cs:57-61 | A timestamp text that parses is ASCII and holds no `:`, `;` or `=`. |
| PaddleSignature.MessageBytes | EnsureIsFromPaddleBillingAttribute.cs:86-88 | The hashed bytes are the timestamp text as received, byte for byte, then the byte 0x3A, then the UTF-8 of the body. |
| PaddleSignature.ColonEndsTimestamp | EnsureIsFromPaddleBillingAttribute.cs:86 | The first `:` of the hashed text sits right after the timestamp text. |
| PaddleSignature.MessageUnambiguous | EnsureIsFromPaddleBillingAttribute.cs:86-88 | Distinct (timestamp text, body) pairs give distinct hashed bytes. The timestamp is hashed as written, so `0123` and `123` sign different messages. |
| PaddleSignature.AcceptIff | EnsureIsFromPaddleBillingAttribute.cs:27-110 | The request is accepted if and only if all of these hold: the header is present and non-empty; both texts are non-empty; the timestamp parses; it is representable and inside the window; and the computed digest equals the supplied one. |
| PaddleSignature.AcceptedDigestShape | EnsureIsFromPaddleBillingAttribute.cs:93-100 | An accepted digest consists of lower-case hex digits only, 64 of them for a 32-byte MAC. An upper-case or truncated digest is never accepted. |
| PaddleSignature.AcceptedFacts | EnsureIsFromPaddleBillingAttribute.cs:57-100 | An accepted header has a timestamp that parses and a digest equal to the one computed from secret, timestamp text and body. |
| PaddleSignature.ForgeryNeedsCollision | EnsureIsFromPaddleBillingAttribute.cs:86-100 | Take two accepted requests with the same digest that differ in secret, timestamp text or body. They exhibit two distinct (key, message) inputs with the same MAC. |
| PaddleSignature.ComputedDigestAccepted | EnsureIsFromPaddleBillingAttribute.cs:57-110 | Take any timestamp text that parses, in whatever form (leading zeros and sign included), and the digest computed from that very text. The header is accepted exactly when the parsed time passes the time guards; otherwise it is refused with that guard's reason. |
| PaddleSignature.SignAccepted | EnsureIsFromPaddleBillingAttribute.cs:25-110 | A header signed with the same secret is accepted exactly when its event time passes the time guards. Otherwise it is refused with that guard's reason. |
| PaddleSignature.OtherDigestRejected | EnsureIsFromPaddleBillingAttribute.cs:100-105 | Take a well-formed, fresh header with any digest other than the expected one. It is refused as a mismatch. |
| PaddleSignature.EndToEndExample | EnsureIsFromPaddleBillingAttribute.cs:25-110 | An event signed at Unix time 1700000000 hashes `1700000000:` followed by the body. When checked at that second, it is accepted. |
| Strings.JoinSplit | EnsureIsFromPaddleBillingAttribute.cs:37 | Joining the parts of `Split` with the separator gives back the header. |
| Strings.SplitJoin | EnsureIsFromPaddleBillingAttribute.cs:37 | Splitting the join of separator-free parts gives back those parts. |
| Strings.SplitPartsFree | EnsureIsFromPaddleBillingAttribute.cs:37 | No part of a split contains the separator. |
| Strings.SplitNoSep | EnsureIsFromPaddleBillingAttribute.cs:37-47 | Text without the separator splits into itself alone, so its first and last fields are the same field. |
| Strings.SplitAppend | EnsureIsFromPaddleBillingAttribute.cs:37 | Splitting `a + sep + b` gives the parts of `a` followed by the parts of `b`. |
| Strings.IndexOfFirst | EnsureIsFromPaddleBillingAttribute.cs:37-44 | The first-occurrence index holds the character, and no earlier position does. |
| Strings.LastIndexOfLast | EnsureIsFromPaddleBillingAttribute.cs:44-47 | The last-occurrence index holds the character, and no later position does. |
| Strings.FirstPartBeforeFirstSep | EnsureIsFromPaddleBillingAttribute.cs:37-44 | The first part of a split is the text before the first separator, or all of it when there is none. |
| Strings.LastPartAfterLastSep | EnsureIsFromPaddleBillingAttribute.cs:37-47 | The last part of a split is the text after the last separator. There is more than one part exactly when the separator occurs. |
| Strings.FieldValueAfterLastEquals | EnsureIsFromPaddleBillingAttribute.cs:44-47 | `Split('=').Last()` is the text after the field's last `=`, and the whole field when it has no `=`. |
| Strings.FieldValueOfPair | EnsureIsFromPaddleBillingAttribute.cs:44-47 | The value of `key=value` is `value` whenever `value` holds no `=`. |
| Int64.TrimStartShape | EnsureIsFromPaddleBillingAttribute.cs:57 | Leading-white-space trimming drops exactly the white space before the first other character. |
| Int64.TrimEndShape | EnsureIsFromPaddleBillingAttribute.cs:57 | Trailing-white-space trimming drops exactly the white space after the last other character. |
| Int64.TryParse | EnsureIsFromPaddleBillingAttribute.cs:57 | `long.TryParse`: every value it accepts is a signed 64-bit integer. Its full behaviour is stated by `ParseNumeral` and `ParsedNumeral`. |
| Int64.ParseNumeral | EnsureIsFromPaddleBillingAttribute.cs:57 | Take any numeral: white space, an optional `+` or `-`, one or more digits (leading zeros allowed), white space. It parses to the signed value of its digits when that fits in 64 bits, and is rejected otherwise. |
| Int64.ParsedNumeral | EnsureIsFromPaddleBillingAttribute.cs:57 | Conversely, every text that parses is such a numeral, and its value is the one that numeral denotes. So a misplaced sign, inner white space or any other character is rejected. |
| Int64.ParsedValue | EnsureIsFromPaddleBillingAttribute.cs:57 | The parsed value is the one denoted by the sign and digits left after trimming. |
| Int64.NegativeExample | EnsureIsFromPaddleBillingAttribute.cs:57 | ` -5` parses to -5. |
| Int64.LeadingZeroExample | EnsureIsFromPaddleBillingAttribute.cs:57 | `0123` parses to 123. |
| Int64.ParseShow | EnsureIsFromPaddleBillingAttribute.cs:57 | The decimal rendering of an integer parses back to that integer when it fits in 64 bits and is rejected otherwise, so an overflowing numeral is never wrapped into range. |
| Int64.ParsePlusPadded | EnsureIsFromPaddleBillingAttribute.cs:57 | A leading `+` and white space on either side leave the parsed value, and the rejection of out-of-range values, unchanged. |
| Int64.TrimStartPrefix | EnsureIsFromPaddleBillingAttribute.cs:57 | Leading white space is dropped up to the first other character. |
| Int64.TrimEndSuffix | EnsureIsFromPaddleBillingAttribute.cs:57 | Trailing white space is dropped back to the last other character. |
| Int64.ParsedCharset | EnsureIsFromPaddleBillingAttribute.cs:57 | Text the parser accepts consists only of white space, signs and decimal digits. |
| Int64.NonNumericRejected | EnsureIsFromPaddleBillingAttribute.cs:57-61 | Text that starts with anything but white space, a sign or a digit is rejected. |
| Int64.RejectedExamples | EnsureIsFromPaddleBillingAttribute.cs:57-61 | `abc`, `garbage` and the empty text do not parse. |
| Int64.ShowExample | EnsureIsFromPaddleBillingAttribute.cs:25-26 | The Unix time 1700000000 renders as `1700000000`. |
| Utf8.EncodeAppend | EnsureIsFromPaddleBillingAttribute.cs:113-114 | The encoding of a concatenation is the concatenation of the encodings. |
| Utf8.DecodeEncodeChar | EnsureIsFromPaddleBillingAttribute.cs:113-114 | The decoder reads back every character's encoding, whatever follows it, and consumes exactly that many bytes. |
| Utf8.EncodeDecodeChar | EnsureIsFromPaddleBillingAttribute.cs:113-114 | Every character the decoder accepts re-encodes to exactly the bytes it consumed. |
| Utf8.DecodeEncode | EnsureIsFromPaddleBillingAttribute.cs:113-114 | Decoding the encoding of any text gives that text back. |
| Utf8.EncodeDecode | EnsureIsFromPaddleBillingAttribute.cs:113-114 | Every byte sequence the decoder accepts is the encoding of what it decodes to. |
| Utf8.EncodeInjective | EnsureIsFromPaddleBillingAttribute.cs:113-114 | Distinct texts have distinct encodings, for the secret and for the message. |
| Utf8.EncodeAscii | EnsureIsFromPaddleBillingAttribute.cs:113-114 | ASCII text encodes byte for byte, one byte per character. |
| Hex.HexEncode | EnsureIsFromPaddleBillingAttribute.cs:93-97 | The loop that appends `{0:x2}` for each hash byte builds exactly `HexOf` of the bytes. |
| Hex.HexValue | EnsureIsFromPaddleBillingAttribute.cs:96 | A character has a digit value exactly when it is one of `0-9a-f`, and that value renders back as the same character. |
| Hex.HexShape | EnsureIsFromPaddleBillingAttribute.cs:93-97 | The rendering is `2 * |bytes|` long. Characters `2i` and `2i+1` are the high and the low nibble of byte `i`. |
| Hex.HexLowercase | EnsureIsFromPaddleBillingAttribute.cs:93-97 | Every character of the rendering is one of `0-9a-f`. |
| Hex.UnhexHex | EnsureIsFromPaddleBillingAttribute.cs:93-97 | Parsing the rendering gives back the bytes. |
| Hex.HexUnhex | EnsureIsFromPaddleBillingAttribute.cs:93-97 | Every text the parser accepts is the rendering of what it parses to. |
| Hex.HexInjective | EnsureIsFromPaddleBillingAttribute.cs:93-100 | Distinct byte strings render differently, so the digest comparison compares the MACs themselves. |

## Left out

- The ASP.NET plumbing is not modelled: the type-filter attribute, the
  resource-filter interface, the execution context and the `next` delegate.
  `context.Result` is the method's `result` output, and `next()` is counted
  by `nextCalls`.
- The secret comes from injected application settings in the source; here it
  is an explicit parameter.
- Logging is not modelled. It has no bearing on the decision.
- Stream handling is not modelled: enabling buffering, reading the body
  asynchronously and resetting its position. The body is given as the text
  the reader returns.
- UTF-8 decoding of the request body is not modelled. The bytes hashed can
  differ from the bytes received in two ways. The reader replaces invalid
  byte sequences with U+FFFD. It also drops a leading UTF-8 byte-order mark,
  even though byte-order-mark detection is switched off, because it matches
  the encoding's own preamble.
- Lone UTF-16 surrogates in the secret or the body are not modelled.
  `Encoding.UTF8` replaces them with the encoding of U+FFFD. Dafny's `char`
  here is a Unicode scalar value, so such text cannot be written.
- HMAC-SHA256 internals (RFC 2104 over FIPS 180-4) are not modelled: the MAC
  is a function parameter. Tamper detection is a cryptographic claim, so it
  is stated instead as `ForgeryNeedsCollision`: a tampered request that
  keeps an accepted request's digest is accepted only if the MAC collides.
  A forger who supplies a new digest needs a MAC forgery, which is outside
  what a model with an arbitrary `mac` can state.
- OnResourceExecution: models a timestamp outside the years 0001 to 9999 as a
  refusal, `TimestampOutOfRange`. In the source, `FromUnixTimeSeconds` throws
  `ArgumentOutOfRangeException` there, and the exception leaves the filter
  instead of setting an unauthorized result.
- Verify: the clock is a single integer `now`. The source reads
  `DateTime.UtcNow` twice, at tick precision, and compares it with
  whole-second event times. So near the lower bound, an event exactly 300 s
  old is refused once the current time has a fractional second. The two
  reads can also straddle a second.
- Int64.TryParse: does not model the current culture's positive and
  negative signs (from `NumberFormatInfo`); it accepts ASCII `+` and `-`
  only. Trailing NUL characters, which .NET's number parser also ignores,
  are not modelled either. White space (U+0009 to U+000D and U+0020) and
  ASCII digits are as in .NET.
- The `parts is null` branch (lines 38-42) is dead code, because `Split`
  never returns null. The model has no such branch.
- Constant-time comparison and other timing behaviour are not modelled. The
  digest comparison is modelled as sequence equality, which is ordinal and
  case-sensitive.
- The code sends a header that has fields but no `=` (for example
  `garbage`) down the timestamp-parsing path. There is no separate
  malformed-header refusal. The model follows the code: `garbage` is
  refused as an invalid timestamp (`GarbageExample`). Negative timestamp
  texts parse, and are then refused by the time guards.
