/**
 * The `License` class of lib/license.js: building the licence payload from
 * the issuer's options and the clock, signing it with the private key
 * (`privateEncrypt`) and recovering it with the public key (`publicDecrypt`).
 * The class has no state; its two operations are functions of their inputs,
 * the clock reading and the RSA primitive.
 */
module License {
  import opened Wrappers
  import opened Calendar
  import Timestamp
  import Json
  import Utf8
  import Base64
  import Rsa

  /** The subject written when the options give none. */
  const DEFAULT_SUBJECT := "license-node"

  /** The moment units the options may name for a relative expiry. */
  datatype Unit = Days | Weeks | Months | Years

  /** `options.date`: an expiry text used as it is, or an offset from the signing time. */
  datatype DateSpec = Absolute(text: string) | Relative(value: int, unit: Unit)

  /** `licenseCheckModel`: the MAC addresses the licence is bound to. */
  datatype CheckModel = CheckModel(macAddress: seq<string>)

  /** The issuer's options; `None` is an absent (undefined) property. */
  datatype LicenseOptions = LicenseOptions(
    subject: Option<string>,
    date: Option<DateSpec>,
    description: Option<string>,
    licenseCheckModel: Option<CheckModel>)

  /** The signed payload, field for field in the order the source writes them. */
  datatype LicenseData = LicenseData(
    subject: string,
    issuedAt: string,
    expiryAt: string,
    description: string,
    licenseCheckModel: CheckModel)

  /**
   * What the two operations throw: an `assert` with its message, the crypto
   * call failing while signing or while recovering, or `JSON.parse` failing.
   */
  datatype LicenseError =
    | MissingArgument(message: string)
    | SigningFailed
    | VerificationFailed
    | MalformedPayload

  /** JavaScript truthiness of `options.date`: present, and not the empty string. */
  predicate DateGiven(date: Option<DateSpec>) {
    date.Some? && (date.value.Absolute? ==> date.value.text != "")
  }

  /** `value || fallback` for an optional string. */
  function OrDefault(value: Option<string>, fallback: string): string {
    if value.Some? && value.value != "" then value.value else fallback
  }

  /** `moment(now).add(value, unit)`: days and weeks by the calendar day, months and years by the month. */
  function Advance(now: DateTime, value: int, unit: Unit): (r: DateTime)
    requires ValidDateTime(now)
    ensures ValidDateTime(r) && SameTimeOfDay(r, now)
    ensures unit == Days ==> DayNumber(r) == DayNumber(now) + value
    ensures unit == Weeks ==> DayNumber(r) == DayNumber(now) + 7 * value
    ensures unit == Months ==>
              MonthIndex(r) == MonthIndex(now) + value && r.day == Min(now.day, DaysInMonth(r.year, r.month))
    ensures unit == Years ==>
              MonthIndex(r) == MonthIndex(now) + 12 * value && r.day == Min(now.day, DaysInMonth(r.year, r.month))
  {
    match unit
    case Days =>
      AddDaysShift(now, value);
      AddDays(now, value)
    case Weeks =>
      AddDaysShift(now, 7 * value);
      AddDays(now, 7 * value)
    case Months => AddMonths(now, value)
    case Years => AddMonths(now, 12 * value)
  }

  /**
   * The `expiryAt` text for a date specification read at `now`: a string is
   * kept verbatim; otherwise the clock is advanced and formatted. It reads back
   * as the advanced date when that lies in a four-digit year. When the
   * advanced date is beyond what a JavaScript `Date` holds, the text is that
   * of a NaN date, which does not read as a date.
   */
  function ExpiryText(date: DateSpec, now: DateTime): (text: string)
    requires ValidDateTime(now)
    ensures date.Absolute? ==> text == date.text
    ensures date.Relative? ==>
              var due := Advance(now, date.value, date.unit);
              && (0 <= due.year <= 9999 ==> |text| == 19 && Timestamp.Parse(text) == Some(due.(millisecond := 0)))
              && (!Representable(due) ==> text == Timestamp.FormatNaN() && Timestamp.Parse(text).None?)
  {
    match date
    case Absolute(text) => text
    case Relative(value, unit) =>
      var due := Advance(now, value, unit);
      if 0 <= due.year <= 9999 then
        FourDigitYearsRepresentable(due);
        Timestamp.Format(due)
      else if Representable(due) then Timestamp.Format(due)
      else Timestamp.FormatNaN()
  }

  /**
   * The payload object literal of `privateEncrypt`, once its asserts have
   * passed: the subject and description defaults, the check model as given,
   * `issuedAt` the clock as a 19-character timestamp, and `expiryAt` the
   * given text or the advanced clock.
   */
  function BuildPayload(options: LicenseOptions, now: DateTime): (d: LicenseData)
    requires ValidDateTime(now)
    requires options.date.Some? && options.licenseCheckModel.Some?
    ensures options.subject.Some? && options.subject.value != "" ==> d.subject == options.subject.value
    ensures options.subject.None? || options.subject.value == "" ==> d.subject == DEFAULT_SUBJECT
    ensures options.description.Some? && options.description.value != "" ==> d.description == options.description.value
    ensures options.description.None? || options.description.value == "" ==> d.description == ""
    ensures d.licenseCheckModel == options.licenseCheckModel.value
    ensures 0 <= now.year <= 9999 ==> |d.issuedAt| == 19 && Timestamp.Parse(d.issuedAt) == Some(now.(millisecond := 0))
    ensures options.date.value.Absolute? ==> d.expiryAt == options.date.value.text
    ensures options.date.value.Relative? ==>
              var due := Advance(now, options.date.value.value, options.date.value.unit);
              && (0 <= due.year <= 9999 ==> |d.expiryAt| == 19 && Timestamp.Parse(d.expiryAt) == Some(due.(millisecond := 0)))
              && (!Representable(due) ==> d.expiryAt == Timestamp.FormatNaN() && Timestamp.Parse(d.expiryAt).None?)
  {
    LicenseData(
      OrDefault(options.subject, DEFAULT_SUBJECT),
      Timestamp.Format(now),
      ExpiryText(options.date.value, now),
      OrDefault(options.description, ""),
      options.licenseCheckModel.value)
  }

  // ---------------------------------------------------------------------
  // The payload as bytes: Buffer.from(JSON.stringify(data), 'utf-8') and back
  // ---------------------------------------------------------------------

  /** `JSON.stringify(data)`: the keys in the order of the object literal. */
  function PayloadText(d: LicenseData): string {
    "{\"subject\":" + (Json.Quote(d.subject) +
    (",\"issuedAt\":" + (Json.Quote(d.issuedAt) +
    (",\"expiryAt\":" + (Json.Quote(d.expiryAt) +
    (",\"description\":" + (Json.Quote(d.description) +
    (",\"licenseCheckModel\":{\"macAddress\":" + (Json.QuoteList(d.licenseCheckModel.macAddress) + "}}")))))))))
  }

  /** Reads a payload laid out as `PayloadText` writes it. */
  function ParsePayloadText(text: string): Option<LicenseData> {
    var t0 :- Json.Expect("{\"subject\":", text);
    var subject :- Json.ParseString(t0);
    var t1 :- Json.Expect(",\"issuedAt\":", subject.1);
    var issuedAt :- Json.ParseString(t1);
    var t2 :- Json.Expect(",\"expiryAt\":", issuedAt.1);
    var expiryAt :- Json.ParseString(t2);
    var t3 :- Json.Expect(",\"description\":", expiryAt.1);
    var description :- Json.ParseString(t3);
    var t4 :- Json.Expect(",\"licenseCheckModel\":{\"macAddress\":", description.1);
    var macs :- Json.ParseList(t4);
    var t5 :- Json.Expect("}}", macs.1);
    if t5 == "" then Some(LicenseData(subject.0, issuedAt.0, expiryAt.0, description.0, CheckModel(macs.0)))
    else None
  }

  function EncodePayload(d: LicenseData): seq<byte> {
    Utf8.Encode(PayloadText(d))
  }

  /**
   * `JSON.parse(buffer.toString('utf8'))` for a payload: it inverts
   * `EncodePayload`, and anything it cannot read is a malformed payload.
   */
  function DecodePayload(b: seq<byte>): (r: Result<LicenseData, LicenseError>)
    ensures r.Failure? ==> r.error == MalformedPayload
    ensures forall d :: EncodePayload(d) == b ==> r == Success(d)
  {
    EncodedPayloadsRead(b);
    match Utf8.Decode(b)
    case None => Failure(MalformedPayload)
    case Some(text) =>
      match ParsePayloadText(text)
      case None => Failure(MalformedPayload)
      case Some(d) => Success(d)
  }

  // ---------------------------------------------------------------------
  // The two operations
  // ---------------------------------------------------------------------

  /** Every assert of `privateEncrypt` passes. */
  predicate SigningInputsGiven(options: LicenseOptions, privateKey: string, passphrase: string) {
    DateGiven(options.date) && options.licenseCheckModel.Some? && privateKey != "" && passphrase != ""
  }

  /**
   * `privateEncrypt(options, privateKey, passphrase)` with the clock reading
   * `now`: the asserts in the source's order, then the payload encrypted with
   * the private key under PKCS#1 v1.5 padding, returned as base64 text.
   */
  function PrivateEncrypt(rsa: Rsa.Primitive, options: LicenseOptions, privateKey: string,
                          passphrase: string, now: DateTime): (r: Result<string, LicenseError>)
    requires ValidDateTime(now)
    ensures !DateGiven(options.date) ==> r == Failure(MissingArgument("options.date is required"))
    ensures DateGiven(options.date) && options.licenseCheckModel.None? ==>
              r == Failure(MissingArgument("options.licenseCheckModel is required"))
    ensures DateGiven(options.date) && options.licenseCheckModel.Some? && privateKey == "" ==>
              r == Failure(MissingArgument("privateKey is required"))
    ensures DateGiven(options.date) && options.licenseCheckModel.Some? && privateKey != "" && passphrase == "" ==>
              r == Failure(MissingArgument("privatePassphrase is required"))
    ensures r.Success? <==>
              SigningInputsGiven(options, privateKey, passphrase) &&
              rsa.privateEncrypt(privateKey, passphrase, Rsa.LICENSE_PADDING, EncodePayload(BuildPayload(options, now))).Some?
    ensures r.Success? ==>
              Base64.Decode(r.value) ==
                rsa.privateEncrypt(privateKey, passphrase, Rsa.LICENSE_PADDING, EncodePayload(BuildPayload(options, now)))
    ensures r.Failure? && SigningInputsGiven(options, privateKey, passphrase) ==> r.error == SigningFailed
  {
    if !DateGiven(options.date) then Failure(MissingArgument("options.date is required"))
    else if options.licenseCheckModel.None? then Failure(MissingArgument("options.licenseCheckModel is required"))
    else if privateKey == "" then Failure(MissingArgument("privateKey is required"))
    else if passphrase == "" then Failure(MissingArgument("privatePassphrase is required"))
    else
      match rsa.privateEncrypt(privateKey, passphrase, Rsa.LICENSE_PADDING, EncodePayload(BuildPayload(options, now)))
      case None => Failure(SigningFailed)
      case Some(signature) =>
        Base64.DecodeEncode(signature);
        Success(Base64.Encode(signature))
  }

  /**
   * `publicDecrypt(publicKey, encryptBuffer, passphrase)`: the asserts, the
   * recovery with the public key under the same padding, then the parse.
   * `encryptBuffer` is `None` when the argument is absent (a Buffer object is
   * always truthy, even an empty one).
   */
  function PublicDecrypt(rsa: Rsa.Primitive, publicKey: string, encryptBuffer: Option<seq<byte>>,
                         passphrase: string): (r: Result<LicenseData, LicenseError>)
    ensures publicKey == "" ==> r == Failure(MissingArgument("publicKey is required"))
    ensures publicKey != "" && encryptBuffer.None? ==> r == Failure(MissingArgument("encryptBuffer is required"))
    ensures publicKey != "" && encryptBuffer.Some? ==>
              match rsa.publicDecrypt(publicKey, passphrase, Rsa.LICENSE_PADDING, encryptBuffer.value)
              case None => r == Failure(VerificationFailed)
              case Some(plaintext) => r == DecodePayload(plaintext)
  {
    if publicKey == "" then Failure(MissingArgument("publicKey is required"))
    else if encryptBuffer.None? then Failure(MissingArgument("encryptBuffer is required"))
    else
      match rsa.publicDecrypt(publicKey, passphrase, Rsa.LICENSE_PADDING, encryptBuffer.value)
      case None => Failure(VerificationFailed)
      case Some(plaintext) => DecodePayload(plaintext)
  }

  // ---------------------------------------------------------------------
  // Lemmas
  // ---------------------------------------------------------------------

  /** Reading the payload text back gives the payload. */
  lemma ParsePayloadTextRoundTrip(d: LicenseData)
    ensures ParsePayloadText(PayloadText(d)) == Some(d)
  {
    var r5 := Json.QuoteList(d.licenseCheckModel.macAddress) + "}}";
    var q4 := ",\"licenseCheckModel\":{\"macAddress\":" + r5;
    var r3 := Json.Quote(d.description) + q4;
    var q3 := ",\"description\":" + r3;
    var r2 := Json.Quote(d.expiryAt) + q3;
    var q2 := ",\"expiryAt\":" + r2;
    var r1 := Json.Quote(d.issuedAt) + q2;
    var q1 := ",\"issuedAt\":" + r1;
    var r0 := Json.Quote(d.subject) + q1;
    Json.ExpectLiteral("{\"subject\":", r0);
    Json.ParseStringQuote(d.subject, q1);
    Json.ExpectLiteral(",\"issuedAt\":", r1);
    Json.ParseStringQuote(d.issuedAt, q2);
    Json.ExpectLiteral(",\"expiryAt\":", r2);
    Json.ParseStringQuote(d.expiryAt, q3);
    Json.ExpectLiteral(",\"description\":", r3);
    Json.ParseStringQuote(d.description, q4);
    Json.ExpectLiteral(",\"licenseCheckModel\":{\"macAddress\":", r5);
    Json.ParseListQuoteList(d.licenseCheckModel.macAddress, "}}");
    Json.ExpectLiteral("}}", "");
    assert "}}" + "" == "}}";
  }

  /** Bytes that encode a payload are UTF-8 of its JSON text, which parses back as the payload. */
  lemma EncodedPayloadsRead(b: seq<byte>)
    ensures forall d :: EncodePayload(d) == b ==>
              Utf8.Decode(b) == Some(PayloadText(d)) && ParsePayloadText(PayloadText(d)) == Some(d)
  {
    forall d | EncodePayload(d) == b
      ensures Utf8.Decode(b) == Some(PayloadText(d)) && ParsePayloadText(PayloadText(d)) == Some(d)
    {
      Utf8.DecodeEncode(PayloadText(d));
      ParsePayloadTextRoundTrip(d);
    }
  }

  /**
   * Sign, then verify with the matching public key: un-base64 the signature,
   * recover it with the public key and parse it, and the payload that
   * `privateEncrypt` built comes back.
   */
  lemma SignVerifyRoundTrip(rsa: Rsa.Primitive, options: LicenseOptions, privateKey: string, passphrase: string,
                            publicKey: string, publicPassphrase: string, now: DateTime)
    requires ValidDateTime(now) && publicKey != ""
    requires Rsa.MatchedPair(rsa, privateKey, passphrase, publicKey, Rsa.LICENSE_PADDING)
    requires PrivateEncrypt(rsa, options, privateKey, passphrase, now).Success?
    ensures var signature := Base64.Decode(PrivateEncrypt(rsa, options, privateKey, passphrase, now).value);
      && signature.Some?
      && PublicDecrypt(rsa, publicKey, signature, publicPassphrase) == Success(BuildPayload(options, now))
  {
    var m := EncodePayload(BuildPayload(options, now));
    var c := rsa.privateEncrypt(privateKey, passphrase, Rsa.LICENSE_PADDING, m);
    assert rsa.publicDecrypt(publicKey, publicPassphrase, Rsa.LICENSE_PADDING, c.value) == Some(m);
  }
}
