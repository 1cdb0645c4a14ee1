/**
 * The licence check of example/index.js: the opaque licence string that
 * carries the public key and the signature, the `isMac` hardware match and
 * the decision taken on the recovered payload.
 */
module Client {
  import opened Wrappers
  import opened Calendar
  import Timestamp
  import Json
  import Utf8
  import Base64
  import Rsa
  import License

  // ---------------------------------------------------------------------
  // The licence string: base64 of the JSON text of {publicKey, sign}
  // ---------------------------------------------------------------------

  /** The object the issuer hands out. */
  datatype SignedLicense = SignedLicense(publicKey: string, sign: string)

  /** `JSON.stringify({ publicKey, sign })`. */
  function LicenseText(l: SignedLicense): string {
    "{\"publicKey\":" + (Json.Quote(l.publicKey) + (",\"sign\":" + (Json.Quote(l.sign) + "}")))
  }

  /** Reads an object laid out as `LicenseText` writes it. */
  function ParseLicenseText(text: string): Option<SignedLicense> {
    var t0 :- Json.Expect("{\"publicKey\":", text);
    var publicKey :- Json.ParseString(t0);
    var t1 :- Json.Expect(",\"sign\":", publicKey.1);
    var sign :- Json.ParseString(t1);
    var t2 :- Json.Expect("}", sign.1);
    if t2 == "" then Some(SignedLicense(publicKey.0, sign.0)) else None
  }

  /** `Buffer.from(JSON.stringify(obj)).toString('base64')`. */
  function EncodeLicense(l: SignedLicense): string {
    Base64.Encode(Utf8.Encode(LicenseText(l)))
  }

  /**
   * `JSON.parse(Buffer.from(text, 'base64').toString())`; `None` where the
   * source throws. It reads every licence string back as the object it was
   * made from.
   */
  function DecodeLicense(text: string): (r: Option<SignedLicense>)
    ensures forall l :: EncodeLicense(l) == text ==> r == Some(l)
  {
    EncodedLicensesRead(text);
    var bytes :- Base64.Decode(text);
    var json :- Utf8.Decode(bytes);
    ParseLicenseText(json)
  }

  lemma ParseLicenseTextRoundTrip(l: SignedLicense)
    ensures ParseLicenseText(LicenseText(l)) == Some(l)
  {
    var r1 := Json.Quote(l.sign) + "}";
    var q1 := ",\"sign\":" + r1;
    var r0 := Json.Quote(l.publicKey) + q1;
    Json.ExpectLiteral("{\"publicKey\":", r0);
    Json.ParseStringQuote(l.publicKey, q1);
    Json.ExpectLiteral(",\"sign\":", r1);
    Json.ParseStringQuote(l.sign, "}");
    Json.ExpectLiteral("}", "");
    assert "}" + "" == "}";
  }

  /** A licence string is base64 of UTF-8 of the object's JSON text, and each layer reads back. */
  lemma EncodedLicensesRead(text: string)
    ensures forall l :: EncodeLicense(l) == text ==>
              && Base64.Decode(text) == Some(Utf8.Encode(LicenseText(l)))
              && Utf8.Decode(Utf8.Encode(LicenseText(l))) == Some(LicenseText(l))
              && ParseLicenseText(LicenseText(l)) == Some(l)
  {
    forall l | EncodeLicense(l) == text
      ensures && Base64.Decode(text) == Some(Utf8.Encode(LicenseText(l)))
              && Utf8.Decode(Utf8.Encode(LicenseText(l))) == Some(LicenseText(l))
              && ParseLicenseText(LicenseText(l)) == Some(l)
    {
      Base64.DecodeEncode(Utf8.Encode(LicenseText(l)));
      Utf8.DecodeEncode(LicenseText(l));
      ParseLicenseTextRoundTrip(l);
    }
  }

  /**
   * Lines 38-41 of the example: decode the licence string, un-base64 the
   * signature and recover the payload with the public key it carries and
   * an empty passphrase.
   */
  function ReadLicense(rsa: Rsa.Primitive, license: string): (r: Result<License.LicenseData, License.LicenseError>)
    ensures DecodeLicense(license).None? ==> r == Failure(License.MalformedPayload)
    ensures DecodeLicense(license).Some? ==>
              var l := DecodeLicense(license).value;
              match Base64.Decode(l.sign)
              case None => r == Failure(License.MalformedPayload)
              case Some(signature) => r == License.PublicDecrypt(rsa, l.publicKey, Some(signature), "")
  {
    match DecodeLicense(license)
    case None => Failure(License.MalformedPayload)
    case Some(l) =>
      match Base64.Decode(l.sign)
      case None => Failure(License.MalformedPayload)
      case Some(signature) => License.PublicDecrypt(rsa, l.publicKey, Some(signature), "")
  }

  /**
   * Issue, hand out, read back: a licence signed with the private key of a
   * matched pair and packed with its public key reads back as the payload
   * that was signed.
   */
  lemma IssueAndRead(rsa: Rsa.Primitive, options: License.LicenseOptions, privateKey: string,
                     passphrase: string, publicKey: string, now: DateTime)
    requires ValidDateTime(now) && publicKey != ""
    requires Rsa.MatchedPair(rsa, privateKey, passphrase, publicKey, Rsa.LICENSE_PADDING)
    requires License.PrivateEncrypt(rsa, options, privateKey, passphrase, now).Success?
    ensures var sign := License.PrivateEncrypt(rsa, options, privateKey, passphrase, now).value;
            ReadLicense(rsa, EncodeLicense(SignedLicense(publicKey, sign))) == Success(License.BuildPayload(options, now))
  {
    var sign := License.PrivateEncrypt(rsa, options, privateKey, passphrase, now).value;
    var l := SignedLicense(publicKey, sign);
    assert DecodeLicense(EncodeLicense(l)) == Some(l);
    License.SignVerifyRoundTrip(rsa, options, privateKey, passphrase, publicKey, "", now);
  }

  // ---------------------------------------------------------------------
  // The hardware match: isMac
  // ---------------------------------------------------------------------

  /** Some licensed MAC address is among the host's. */
  predicate AnyListed(macAddress: seq<string>, macList: seq<string>) {
    exists i :: 0 <= i < |macAddress| && macAddress[i] in macList
  }

  /** `isMac(macAddress, macList)`: the first licensed address the host has ends the search. */
  method IsMac(macAddress: seq<string>, macList: seq<string>) returns (b: bool)
    ensures b <==> AnyListed(macAddress, macList)
  {
    var i := 0;
    while i < |macAddress|
      invariant 0 <= i <= |macAddress|
      invariant forall k :: 0 <= k < i ==> macAddress[k] !in macList
    {
      if macAddress[i] in macList {
        return true;
      }
      i := i + 1;
    }
    return false;
  }

  /** No licensed address, no match; addresses compare as exact strings, so case matters. */
  lemma AnyListedCases(macList: seq<string>)
    ensures !AnyListed([], macList)
    ensures !AnyListed(["AA:BB:CC:DD:EE:FF"], ["aa:bb:cc:dd:ee:ff"])
    ensures AnyListed(["80:18:44:e6:28:f4", "80:18:44:e6:d1:74"], ["f0:18:98:32:4e:e5", "80:18:44:e6:d1:74"])
  {
    assert "AA:BB:CC:DD:EE:FF"[0] != "aa:bb:cc:dd:ee:ff"[0];
    var licensed := ["80:18:44:e6:28:f4", "80:18:44:e6:d1:74"];
    assert licensed[1] in ["f0:18:98:32:4e:e5", "80:18:44:e6:d1:74"];
  }

  // ---------------------------------------------------------------------
  // The decision
  // ---------------------------------------------------------------------

  /** The three outcomes of the check. */
  datatype Verdict = Authorised(daysLeft: int) | Expired | HardwareNotAuthorised

  /**
   * `moment(expiryAt).diff(moment(), 'days')` at the clock reading `now`:
   * whole days, truncated toward zero; `None` for a text moment cannot read
   * (NaN in the source).
   */
  function RemainDays(expiryAt: string, now: DateTime): (r: Option<int>)
    requires ValidDateTime(now)
    ensures Timestamp.Parse(expiryAt).None? ==> r.None?
    ensures Timestamp.Parse(expiryAt).Some? ==>
              r.Some? && (r.value > 0 <==> Instant(Timestamp.Parse(expiryAt).value) - Instant(now) >= MILLISECONDS_PER_DAY)
  {
    match Timestamp.Parse(expiryAt)
    case None => None
    case Some(expiry) => Some(DiffDays(expiry, now))
  }

  /**
   * Lines 63-74 of the example: the hardware match gates everything; then
   * the licence is in force only while more than zero whole days remain.
   */
  method Evaluate(info: License.LicenseData, macs: seq<string>, now: DateTime) returns (v: Verdict)
    requires ValidDateTime(now)
    ensures v == HardwareNotAuthorised <==> !AnyListed(info.licenseCheckModel.macAddress, macs)
    ensures v.Authorised? <==>
              AnyListed(info.licenseCheckModel.macAddress, macs) &&
              RemainDays(info.expiryAt, now).Some? && RemainDays(info.expiryAt, now).value > 0
    ensures v.Authorised? ==> v.daysLeft == RemainDays(info.expiryAt, now).value
    ensures v == Expired <==>
              AnyListed(info.licenseCheckModel.macAddress, macs) &&
              (RemainDays(info.expiryAt, now).None? || RemainDays(info.expiryAt, now).value <= 0)
  {
    var matched := IsMac(info.licenseCheckModel.macAddress, macs);
    if matched {
      var remainAt := RemainDays(info.expiryAt, now);
      if remainAt.Some? && remainAt.value > 0 {
        v := Authorised(remainAt.value);
      } else {
        v := Expired;
      }
    } else {
      v := HardwareNotAuthorised;
    }
  }

  /** Whole days of a span of n days less ms milliseconds, truncated toward zero. */
  lemma TruncatedDays(n: int, ms: int)
    requires 0 <= ms < 1000
    ensures TruncDiv(n * MILLISECONDS_PER_DAY - ms, MILLISECONDS_PER_DAY) ==
            if ms == 0 || n <= 0 then n else n - 1
  {
    var a := n * MILLISECONDS_PER_DAY - ms;
    if ms == 0 {
      assert a / MILLISECONDS_PER_DAY == n;
      assert -a == (-n) * MILLISECONDS_PER_DAY;
      assert (-a) / MILLISECONDS_PER_DAY == -n;
    } else if n > 0 {
      assert a == (n - 1) * MILLISECONDS_PER_DAY + (MILLISECONDS_PER_DAY - ms);
      assert a / MILLISECONDS_PER_DAY == n - 1;
    } else {
      assert -a == (-n) * MILLISECONDS_PER_DAY + ms;
      assert (-a) / MILLISECONDS_PER_DAY == -n;
    }
  }

  /** `format` drops the milliseconds: the instant it reads back is that many milliseconds earlier. */
  lemma InstantDropMilliseconds(d: DateTime)
    requires 1 <= d.month <= 12
    ensures Instant(d.(millisecond := 0)) == Instant(d) - d.millisecond
  {
  }

  lemma RemainDaysOfParsed(text: string, now: DateTime, expiry: DateTime)
    requires ValidDateTime(now) && Timestamp.Parse(text) == Some(expiry)
    ensures RemainDays(text, now) == Some(DiffDays(expiry, now))
  {
  }

  /** The written expiry of an n-day licence lies n days, less the dropped milliseconds, after the clock. */
  lemma ExpirySpan(now: DateTime, n: int)
    requires ValidDateTime(now)
    ensures Instant(AddDays(now, n).(millisecond := 0)) - Instant(now) == n * MILLISECONDS_PER_DAY - now.millisecond
  {
    InstantDropMilliseconds(AddDays(now, n));
    AddDaysInstant(now, n);
  }

  lemma DiffDaysOfSpan(later: DateTime, earlier: DateTime, span: int)
    requires 1 <= later.month <= 12 && 1 <= earlier.month <= 12
    requires Instant(later) - Instant(earlier) == span
    ensures DiffDays(later, earlier) == TruncDiv(span, MILLISECONDS_PER_DAY)
  {
  }

  /**
   * Checked at the very moment of issue, a licence of n days reports n
   * days left when the clock stood on a whole second, and n - 1 otherwise:
   * the timestamp drops the milliseconds and the day count truncates. So a
   * one-day licence checked at once is expired unless issued on a whole second.
   */
  lemma RemainDaysAtIssue(now: DateTime, n: int)
    requires ValidDateTime(now)
    requires 0 <= AddDays(now, n).year <= 9999
    ensures RemainDays(Timestamp.Format(AddDays(now, n)), now) ==
            Some(if now.millisecond == 0 || n <= 0 then n else n - 1)
  {
    var due := AddDays(now, n);
    var expiry := due.(millisecond := 0);
    var span := n * MILLISECONDS_PER_DAY - now.millisecond;
    var days := if now.millisecond == 0 || n <= 0 then n else n - 1;
    assert TruncDiv(span, MILLISECONDS_PER_DAY) == days by {
      TruncatedDays(n, now.millisecond);
    }
    assert DiffDays(expiry, now) == TruncDiv(span, MILLISECONDS_PER_DAY) by {
      ExpirySpan(now, n);
      DiffDaysOfSpan(expiry, now, span);
    }
    assert RemainDays(Timestamp.Format(due), now) == Some(DiffDays(expiry, now)) by {
      RemainDaysOfParsed(Timestamp.Format(due), now, expiry);
    }
  }
}
