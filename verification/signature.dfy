/**
 * The Paddle Billing webhook signature check, with the web framework
 * removed. A request carries a `Paddle-Signature` header such as
 * `ts=1671552777;h1=eb4d...b151`; the check recomputes HMAC-SHA256 over
 * "<timestamp text>:<body>" keyed with the shared secret and lets the
 * request through only when the timestamp is fresh and the lower-case hex
 * of that MAC equals the header's digest.
 */
module PaddleSignature {
  import opened Wrappers
  import opened Bytes
  import Strings
  import Int64
  import Utf8
  import Hex

  /** `new TimeSpan(0, 5, 0)` in seconds. */
  const FreshnessWindow: int := 300

  /** The Unix seconds `DateTimeOffset.FromUnixTimeSeconds` accepts (years 0001 to 9999). */
  const UnixSecondsMin: int := -62_135_596_800
  const UnixSecondsMax: int := 253_402_300_799

  /** `HMACSHA256.HashSizeInBytes`. */
  const HashSizeInBytes: int := 32

  /** HMAC-SHA256 as a function of key bytes and message bytes. */
  type Mac = (seq<byte>, seq<byte>) -> seq<byte>

  ghost predicate Sized(mac: Mac)
  {
    forall key, message :: |mac(key, message)| == HashSizeInBytes
  }

  /**
   * Why a request was turned away. The filter answers every one of these
   * with the same `UnauthorizedResult`; the tags only name the guard.
   */
  datatype Reason =
    | MissingHeader        // header absent or empty
    | EmptyValue           // timestamp or digest text empty
    | InvalidTimestamp     // timestamp text is not a 64-bit integer
    | TimestampOutOfRange  // outside what FromUnixTimeSeconds accepts
    | TimestampInFuture
    | TimestampTooOld
    | DigestMismatch

  datatype Decision = Accept | Reject(reason: Reason)

  /** The two texts taken from the header. */
  datatype SignatureHeader = SignatureHeader(tsText: string, digest: string)

  /** What is left after every guard before the hashing. */
  datatype Admission =
    | Admitted(tsText: string, ts: int, digest: string)
    | Refused(reason: Reason)

  /** Timestamp: after the last '=' of the first ';' field; digest: after the last '=' of the last. */
  function ExtractFields(header: string): SignatureHeader
  {
    var parts := Strings.Split(header, ';');
    SignatureHeader(Strings.FieldValue(parts[0]), Strings.FieldValue(parts[|parts| - 1]))
  }

  /** The event-time guards: representable, not in the future, not older than the window. */
  function CheckTime(ts: int, now: int): Option<Reason>
  {
    if ts < UnixSecondsMin || UnixSecondsMax < ts then Some(TimestampOutOfRange)
    else if ts > now then Some(TimestampInFuture)
    else if ts < now - FreshnessWindow then Some(TimestampTooOld)
    else None
  }

  /** Every guard that runs before the hash is computed, in the source's order. */
  function Admit(header: Option<string>, now: int): Admission
  {
    if header.None? || header.value == [] then Refused(MissingHeader)
    else
      var fields := ExtractFields(header.value);
      if fields.tsText == [] || fields.digest == [] then Refused(EmptyValue)
      else match Int64.TryParse(fields.tsText)
        case None => Refused(InvalidTimestamp)
        case Some(ts) =>
          match CheckTime(ts, now)
          case Some(reason) => Refused(reason)
          case None => Admitted(fields.tsText, ts, fields.digest)
  }

  /** The text that is hashed: the timestamp exactly as received, ':', the body. */
  function CanonicalMessage(tsText: string, body: string): string
  {
    tsText + ":" + body
  }

  /** The lower-case hex of HMAC(UTF-8(secret), UTF-8(message)). */
  function ExpectedDigest(secret: string, tsText: string, body: string, mac: Mac): string
  {
    Hex.HexOf(mac(Utf8.Encode(secret), Utf8.Encode(CanonicalMessage(tsText, body))))
  }

  /** The filter's verdict on one request. */
  function Verify(header: Option<string>, secret: string, body: string, now: int, mac: Mac): Decision
  {
    match Admit(header, now)
    case Refused(reason) => Reject(reason)
    case Admitted(tsText, _, digest) =>
      if ExpectedDigest(secret, tsText, body, mac) == digest then Accept else Reject(DigestMismatch)
  }

  /** The header a sender produces for an event at Unix time `ts`. */
  function Sign(secret: string, ts: int, body: string, mac: Mac): string
  {
    "ts=" + Int64.Show(ts) + ";h1=" + ExpectedDigest(secret, Int64.Show(ts), body, mac)
  }

  /**
   * The filter itself. `result` is `context.Result` (Some: an
   * UnauthorizedResult was set), `macCalls` counts HMAC computations and
   * `nextCalls` counts invocations of the next handler.
   */
  method OnResourceExecution(header: Option<string>, secret: string, body: string, now: int, mac: Mac)
    returns (result: Option<Reason>, macCalls: nat, nextCalls: nat)
    ensures result == None <==> Verify(header, secret, body, now, mac) == Accept
    ensures result.Some? ==> Verify(header, secret, body, now, mac) == Reject(result.value)
    ensures macCalls == if Admit(header, now).Admitted? then 1 else 0
    ensures nextCalls == if result == None then 1 else 0
  {
    result, macCalls, nextCalls := None, 0, 0;
    if header.None? || header.value == [] {
      result := Some(MissingHeader);
      return;
    }
    var parts := Strings.Split(header.value, ';');
    var tsValue := Strings.FieldValue(parts[0]);
    var h1Value := Strings.FieldValue(parts[|parts| - 1]);
    if tsValue == [] || h1Value == [] {
      result := Some(EmptyValue);
      return;
    }
    var parsed := Int64.TryParse(tsValue);
    if parsed.None? {
      result := Some(InvalidTimestamp);
      return;
    }
    var ts := parsed.value;
    if ts < UnixSecondsMin || UnixSecondsMax < ts {
      result := Some(TimestampOutOfRange);
      return;
    }
    if ts > now || ts < now - FreshnessWindow {
      result := Some(if ts > now then TimestampInFuture else TimestampTooOld);
      return;
    }
    var data := tsValue + ":" + body;
    var hashBytes := mac(Utf8.Encode(secret), Utf8.Encode(data));
    macCalls := macCalls + 1;
    var computedHexHash := Hex.HexEncode(hashBytes);
    if computedHexHash != h1Value {
      result := Some(DigestMismatch);
      return;
    }
    if result == None {
      nextCalls := nextCalls + 1;
    }
  }

  // ---------------------------------------------------------------------
  // Header parsing

  /** A missing or empty header is refused before anything is parsed or hashed. */
  lemma MissingHeaderRejected(header: Option<string>, secret: string, body: string, now: int, mac: Mac)
    requires header.None? || header.value == []
    ensures Admit(header, now) == Refused(MissingHeader)
    ensures Verify(header, secret, body, now, mac) == Reject(MissingHeader)
  {
  }

  /**
   * The timestamp text is the value of the field before the first ';': what
   * follows its last '=' (see Strings.FieldValueAfterLastEquals).
   */
  lemma TimestampLocated(header: string)
    ensures ExtractFields(header).tsText == Strings.FieldValue(Strings.BeforeFirst(header, ';'))
  {
    Strings.FirstPartBeforeFirstSep(header, ';');
  }

  /**
   * The digest text is the value of the field after the last ';'; every
   * field in between is ignored.
   */
  lemma DigestLocated(header: string)
    ensures ExtractFields(header).digest == Strings.FieldValue(Strings.AfterLast(header, ';'))
  {
    Strings.LastPartAfterLastSep(header, ';');
  }

  /** The header a sender writes, `ts=<digits>;h1=<digest>`, yields exactly those two texts. */
  lemma SignedHeaderFields(tsText: string, digest: string)
    requires ';' !in tsText && '=' !in tsText && ';' !in digest && '=' !in digest
    ensures ExtractFields("ts=" + tsText + ";h1=" + digest) == SignatureHeader(tsText, digest)
  {
    var left := "ts" + "=" + tsText;
    var right := "h1" + "=" + digest;
    assert "ts=" + tsText + ";h1=" + digest == left + [';'] + right;
    Strings.SplitAppend(left, right, ';');
    Strings.SplitNoSep(left, ';');
    Strings.SplitNoSep(right, ';');
    Strings.FieldValueOfPair("ts", tsText);
    Strings.FieldValueOfPair("h1", digest);
  }

  /** An empty header is refused as missing. */
  lemma EmptyHeaderExample(secret: string, body: string, now: int, mac: Mac)
    ensures Verify(Some(""), secret, body, now, mac) == Reject(MissingHeader)
  {
  }

  /** `ts=;h1=abc`: an empty timestamp value is refused. */
  lemma EmptyValueExample(secret: string, body: string, now: int, mac: Mac)
    ensures Verify(Some("ts=;h1=abc"), secret, body, now, mac) == Reject(EmptyValue)
  {
    SignedHeaderFields("", "abc");
    assert ExtractFields("ts=" + "" + ";h1=" + "abc") == SignatureHeader("", "abc");
    assert "ts=" + "" + ";h1=" + "abc" == "ts=;h1=abc";
    assert Admit(Some("ts=;h1=abc"), now) == Refused(EmptyValue);
  }

  /** A well-formed `ts=<t>;h1=<d>` header whose timestamp text does not parse is refused. */
  lemma NonNumericTimestampRejected(t: string, d: string, secret: string, body: string, now: int, mac: Mac)
    requires t != [] && d != [] && ';' !in t && '=' !in t && ';' !in d && '=' !in d
    requires Int64.TryParse(t) == None
    ensures Verify(Some("ts=" + t + ";h1=" + d), secret, body, now, mac) == Reject(InvalidTimestamp)
  {
    SignedHeaderFields(t, d);
  }

  /** `ts=abc;h1=xyz`: a non-numeric timestamp is refused. */
  lemma NonNumericExample(secret: string, body: string, now: int, mac: Mac)
    ensures Verify(Some("ts=abc;h1=xyz"), secret, body, now, mac) == Reject(InvalidTimestamp)
  {
    Int64.NonNumericRejected("abc");
    NonNumericTimestampRejected("abc", "xyz", secret, body, now, mac);
    assert "ts=" + "abc" + ";h1=" + "xyz" == "ts=abc;h1=xyz";
  }

  /**
   * A header with neither ';' nor '=' is one field whose value is the whole
   * header, used as both texts; when it does not parse it is refused as an
   * invalid timestamp, not as a malformed header.
   */
  lemma UnstructuredHeaderRejected(header: string, secret: string, body: string, now: int, mac: Mac)
    requires header != [] && ';' !in header && '=' !in header
    requires Int64.TryParse(header) == None
    ensures ExtractFields(header) == SignatureHeader(header, header)
    ensures Verify(Some(header), secret, body, now, mac) == Reject(InvalidTimestamp)
  {
    Strings.SplitNoSep(header, ';');
    Strings.FieldValueAfterLastEquals(header);
  }

  /** `garbage`: refused as an invalid timestamp. */
  lemma GarbageExample(secret: string, body: string, now: int, mac: Mac)
    ensures Verify(Some("garbage"), secret, body, now, mac) == Reject(InvalidTimestamp)
  {
    Int64.RejectedExamples();
    UnstructuredHeaderRejected("garbage", secret, body, now, mac);
  }

  // ---------------------------------------------------------------------
  // Freshness

  /** A representable event time passes exactly when now - 300 <= ts <= now. */
  lemma FreshnessWindowExact(ts: int, now: int)
    requires UnixSecondsMin <= ts <= UnixSecondsMax
    ensures CheckTime(ts, now) == None <==> now - FreshnessWindow <= ts <= now
    ensures ts > now ==> CheckTime(ts, now) == Some(TimestampInFuture)
    ensures ts < now - FreshnessWindow ==> CheckTime(ts, now) == Some(TimestampTooOld)
  {
  }

  /** The boundaries: on time and exactly five minutes old pass; one second either side does not. */
  lemma FreshnessBoundaries(now: int)
    requires UnixSecondsMin + 301 <= now < UnixSecondsMax
    ensures CheckTime(now, now) == None
    ensures CheckTime(now - 300, now) == None
    ensures CheckTime(now + 1, now) == Some(TimestampInFuture)
    ensures CheckTime(now - 301, now) == Some(TimestampTooOld)
  {
  }

  // ---------------------------------------------------------------------
  // The hashed message

  /** A timestamp text that parses is ASCII and free of ':', ';' and '='. */
  lemma ParsedTimestampText(tsText: string)
    requires Int64.TryParse(tsText).Some?
    ensures forall i :: 0 <= i < |tsText| ==> tsText[i] < '\U{80}'
    ensures ':' !in tsText && ';' !in tsText && '=' !in tsText
  {
    Int64.ParsedCharset(tsText);
  }

  /**
   * The hashed bytes are the timestamp text byte for byte, the byte 0x3A,
   * then the UTF-8 of the body.
   */
  lemma MessageBytes(tsText: string, body: string)
    requires Int64.TryParse(tsText).Some?
    ensures var m := Utf8.Encode(CanonicalMessage(tsText, body));
      |m| == |tsText| + 1 + |Utf8.Encode(body)|
      && (forall i :: 0 <= i < |tsText| ==> m[i] as int == tsText[i] as int)
      && m[|tsText|] == 0x3A
      && m[|tsText| + 1..] == Utf8.Encode(body)
  {
    ParsedTimestampText(tsText);
    Utf8.EncodeAscii(tsText);
    Utf8.EncodeAppend(tsText + ":", body);
    Utf8.EncodeAppend(tsText, ":");
    assert Utf8.Encode(":") == [0x3A];
  }

  /** The first ':' of the message is the one that follows the timestamp text. */
  lemma ColonEndsTimestamp(tsText: string, body: string)
    requires ':' !in tsText
    ensures Strings.IndexOf(CanonicalMessage(tsText, body), ':') == |tsText|
  {
    var m := CanonicalMessage(tsText, body);
    Strings.IndexOfFirst(m, ':');
    assert m[|tsText|] == ':';
    assert forall i :: 0 <= i < |tsText| ==> m[i] == tsText[i];
  }

  /**
   * Distinct (timestamp text, body) pairs give distinct hashed bytes: the
   * message is unambiguous, and a timestamp is hashed as written ("0123"
   * and "123" sign different messages).
   */
  lemma MessageUnambiguous(t1: string, b1: string, t2: string, b2: string)
    requires Int64.TryParse(t1).Some? && Int64.TryParse(t2).Some?
    requires Utf8.Encode(CanonicalMessage(t1, b1)) == Utf8.Encode(CanonicalMessage(t2, b2))
    ensures t1 == t2 && b1 == b2
  {
    ParsedTimestampText(t1);
    ParsedTimestampText(t2);
    var m1 := CanonicalMessage(t1, b1);
    var m2 := CanonicalMessage(t2, b2);
    Utf8.EncodeInjective(m1, m2);
    ColonEndsTimestamp(t1, b1);
    ColonEndsTimestamp(t2, b2);
    assert t1 == m1[..|t1|] == m2[..|t2|] == t2;
    assert b1 == m1[|t1| + 1..] == m2[|t2| + 1..] == b2;
  }

  // ---------------------------------------------------------------------
  // The decision

  /** Acceptance needs every guard to pass and the computed digest to equal the supplied one. */
  lemma AcceptIff(header: Option<string>, secret: string, body: string, now: int, mac: Mac)
    ensures Verify(header, secret, body, now, mac) == Accept <==>
      header.Some? && header.value != [] &&
      var fields := ExtractFields(header.value);
      fields.tsText != [] && fields.digest != [] &&
      Int64.TryParse(fields.tsText).Some? &&
      var ts := Int64.TryParse(fields.tsText).value;
      UnixSecondsMin <= ts <= UnixSecondsMax && now - FreshnessWindow <= ts <= now &&
      ExpectedDigest(secret, fields.tsText, body, mac) == fields.digest
  {
  }

  /**
   * An accepted digest is lower-case hexadecimal, two characters per MAC
   * byte (64 for HMAC-SHA256): an upper-case or truncated digest is refused.
   */
  lemma AcceptedDigestShape(header: Option<string>, secret: string, body: string, now: int, mac: Mac)
    requires Verify(header, secret, body, now, mac) == Accept
    ensures var d := ExtractFields(header.value).digest;
      forall j :: 0 <= j < |d| ==> Hex.IsLowerHex(d[j])
    ensures Sized(mac) ==> |ExtractFields(header.value).digest| == 2 * HashSizeInBytes
  {
    var fields := ExtractFields(header.value);
    var bytes := mac(Utf8.Encode(secret), Utf8.Encode(CanonicalMessage(fields.tsText, body)));
    Hex.HexLowercase(bytes);
    Hex.HexShape(bytes);
  }

  /** What an accepted request establishes: a parsed timestamp and a digest equal to the expected one. */
  lemma AcceptedFacts(header: string, secret: string, body: string, now: int, mac: Mac)
    requires Verify(Some(header), secret, body, now, mac) == Accept
    ensures Int64.TryParse(ExtractFields(header).tsText).Some?
    ensures ExpectedDigest(secret, ExtractFields(header).tsText, body, mac) == ExtractFields(header).digest
  {
  }

  /**
   * Two accepted requests that carry the same digest text but differ in
   * secret, timestamp text or body exhibit an HMAC collision: distinct
   * (key, message) inputs with the same MAC. A tampered request that keeps
   * an accepted request's digest is therefore accepted only if the MAC
   * collides.
   */
  lemma ForgeryNeedsCollision(
    h1: string, s1: string, b1: string, n1: int,
    h2: string, s2: string, b2: string, n2: int, mac: Mac)
    requires Verify(Some(h1), s1, b1, n1, mac) == Accept
    requires Verify(Some(h2), s2, b2, n2, mac) == Accept
    requires ExtractFields(h1).digest == ExtractFields(h2).digest
    requires s1 != s2 || ExtractFields(h1).tsText != ExtractFields(h2).tsText || b1 != b2
    ensures var k1 := Utf8.Encode(s1);
      var m1 := Utf8.Encode(CanonicalMessage(ExtractFields(h1).tsText, b1));
      var k2 := Utf8.Encode(s2);
      var m2 := Utf8.Encode(CanonicalMessage(ExtractFields(h2).tsText, b2));
      (k1 != k2 || m1 != m2) && mac(k1, m1) == mac(k2, m2)
  {
    AcceptedFacts(h1, s1, b1, n1, mac);
    AcceptedFacts(h2, s2, b2, n2, mac);
    var t1 := ExtractFields(h1).tsText;
    var t2 := ExtractFields(h2).tsText;
    var k1 := Utf8.Encode(s1);
    var m1 := Utf8.Encode(CanonicalMessage(t1, b1));
    var k2 := Utf8.Encode(s2);
    var m2 := Utf8.Encode(CanonicalMessage(t2, b2));
    Hex.HexInjective(mac(k1, m1), mac(k2, m2));
    if k1 == k2 && m1 == m2 {
      Utf8.EncodeInjective(s1, s2);
      MessageUnambiguous(t1, b1, t2, b2);
      assert false;
    }
  }

  /**
   * A header whose timestamp text parses (in any form the parser accepts,
   * leading zeros and a sign included) and whose digest is the one computed
   * from that very text is accepted exactly when the parsed time passes the
   * time guards.
   */
  lemma ComputedDigestAccepted(tsText: string, secret: string, body: string, now: int, mac: Mac)
    requires Int64.TryParse(tsText).Some?
    requires Sized(mac)
    ensures var header := "ts=" + tsText + ";h1=" + ExpectedDigest(secret, tsText, body, mac);
      var check := CheckTime(Int64.TryParse(tsText).value, now);
      Verify(Some(header), secret, body, now, mac) == if check == None then Accept else Reject(check.value)
  {
    var digest := ExpectedDigest(secret, tsText, body, mac);
    ParsedTimestampText(tsText);
    var bytes := mac(Utf8.Encode(secret), Utf8.Encode(CanonicalMessage(tsText, body)));
    Hex.HexLowercase(bytes);
    Hex.HexShape(bytes);
    SignedHeaderFields(tsText, digest);
  }

  /**
   * A header signed by a sender holding the same secret is accepted exactly
   * when its event time passes the time guards.
   */
  lemma SignAccepted(secret: string, ts: int, body: string, now: int, mac: Mac)
    requires Int64.MinValue <= ts <= Int64.MaxValue
    requires Sized(mac)
    ensures Verify(Some(Sign(secret, ts, body, mac)), secret, body, now, mac)
      == if CheckTime(ts, now) == None then Accept else Reject(CheckTime(ts, now).value)
  {
    Int64.ParseShow(ts);
    ComputedDigestAccepted(Int64.Show(ts), secret, body, now, mac);
  }

  /** Any other digest, in an otherwise well-formed and fresh header, is a mismatch. */
  lemma OtherDigestRejected(secret: string, ts: int, body: string, now: int, mac: Mac, digest: string)
    requires Int64.MinValue <= ts <= Int64.MaxValue && CheckTime(ts, now) == None
    requires digest != [] && ';' !in digest && '=' !in digest
    requires digest != ExpectedDigest(secret, Int64.Show(ts), body, mac)
    ensures Verify(Some("ts=" + Int64.Show(ts) + ";h1=" + digest), secret, body, now, mac)
      == Reject(DigestMismatch)
  {
    var tsText := Int64.Show(ts);
    Int64.ParseShow(ts);
    ParsedTimestampText(tsText);
    SignedHeaderFields(tsText, digest);
  }

  /**
   * An event signed at Unix time 1700000000 hashes "1700000000:" followed
   * by the body, and checked at that very second it is accepted.
   */
  lemma EndToEndExample(secret: string, body: string, mac: Mac)
    requires Sized(mac)
    ensures CanonicalMessage(Int64.Show(1700000000), body) == "1700000000:" + body
    ensures Verify(Some(Sign(secret, 1700000000, body, mac)), secret, body, 1700000000, mac) == Accept
  {
    Int64.ShowExample();
    assert "1700000000" + ":" == "1700000000:";
    assert CheckTime(1700000000, 1700000000) == None;
    SignAccepted(secret, 1700000000, body, 1700000000, mac);
  }
}
