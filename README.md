# license-node in Dafny

A model of the licensing library `license-node` (iwindx/license). It has three parts.

- **Issuing.** The issuer builds a licence payload: subject, issue time, expiry time, description and the MAC addresses the licence is bound to. `License.privateEncrypt` encrypts the payload with an RSA private key under PKCS#1 v1.5 padding and returns the result as base64 text.
- **Reading.** `License.publicDecrypt` recovers the payload with the matching public key.
- **Checking.** A client (the example program) matches the licensed MAC addresses against those of the host, which `ServerInfo` lists. Then it counts the whole days left before expiry.

The modules follow the program's structure.

| module | what it models |
|---|---|
| `License` | (`license.dfy`) the `License` class: option defaults, expiry rule, payload encoding, signing, recovery. |
| `ServerInfo` | (`serverinfo.dfy`) the `ServerInfo` class, as methods with loops over an interface table passed in. |
| `Client` | (`client.dfy`) the example program: the base64 licence string, `isMac`, and the three-way verdict. |
| `Rsa` | (`rsa.dfy`) the RSA primitive as an abstract pair of functions. |
| `Json` | (`json.dfy`) `JSON.stringify` for strings and string lists, with the exact escapes. Also a parser that reads that output back. |
| `Utf8` | (`utf8.dfy`) the UTF-8 encoding of RFC 3629 that `Buffer` applies, with a strict decoder. |
| `Base64` | (`base64.dfy`) the base64 encoding of section 4 of RFC 4648, with a decoder that accepts only canonical text (section 3.5). |
| `Calendar` | (`calendar.dfy`) calendar dates. It covers moment's `add` by days and by months, the millisecond instant, and `diff(…, 'days')`. |
| `Timestamp` | (`timestamp.dfy`) moment's `YYYY-MM-DD HH:mm:ss` format, and the reading of that format. |
| `Wrappers` | (`wrappers.dfy`) `Option`, `Result`, `byte`. |

The inputs:

- **The clock.** Every place where the source reads the clock (`moment()`) takes a `DateTime` argument `now` instead. It holds local calendar fields down to the millisecond.
- **The network.** `os.networkInterfaces()` is replaced by an `InterfaceTable` argument: the interface names in key order, each with its address records.
- **The RSA primitive.** It is an `Rsa.Primitive` value. There are two functions, `privateEncrypt` and `publicDecrypt`; each takes a key, a passphrase, a padding mode and some bytes, and may fail. `Rsa.MatchedPair` states what a generated key pair guarantees: whatever the private key encrypts, the public key recovers, under the same padding.

The main results are these.

- **Sign, then verify.** For a matched pair, what `privateEncrypt` signs, `publicDecrypt` turns back into the same payload. This holds after un-base64-ing the signature (`License.SignVerifyRoundTrip`).
- **End to end.** It also holds after packing the signature and public key into the opaque licence string and reading them back (`Client.IssueAndRead`).
- **The MAC list.** `getMacAddress` keeps exactly the MACs without the all-zero pattern. It lists each once, in first-occurrence order.
- **The verdict.** The hardware check gates the expiry check.

## Model

| member | source | states |
|---|---|---|
| `License.PrivateEncrypt` | lib/license.js:77-103 | The four asserts fail in the source's order, each with the source's message. Signing succeeds exactly when all four inputs are truthy and the RSA primitive accepts the encoded payload. Once they are truthy, any failure is a signing failure. On success, the base64 text decodes to exactly the bytes the primitive produced. |
| `License.PublicDecrypt` | lib/license.js:113-123 | An empty `publicKey` or an absent `encryptBuffer` fails with the source's assert message. Otherwise a refused recovery is a verification failure, and recovered bytes are parsed as the payload. |
| `License.BuildPayload` | lib/license.js:85-95 | Subject: `options.subject` when non-empty, else `license-node`. Description: `options.description` when non-empty, else empty. The check model is copied unchanged. `issuedAt` is 19 characters and reads back as the clock to the second. `expiryAt`: an absolute date is kept verbatim. A relative one is the advanced clock: when that date lies in years 0 to 9999 it is 19 characters and reads back as that date; when it lies outside the JavaScript `Date` range it is the text of a NaN date, which does not read as a date. |
| `License.ExpiryText` | lib/license.js:91 | A string `date` is kept verbatim. An advanced date in years 0 to 9999 is written in 19 characters that read back as that date, to the second. An advanced date outside the `Date` range is written as a NaN date, which does not read as a date. |
| `License.Advance` | lib/license.js:91 | `add(value, unit)` gives a valid date at the same time of day. Days move the day number by `value`, weeks by `7 * value`. Months move the month by `value`, years by `12 * value`; in both cases the day is kept, clamped to the last day of the target month. |
| `License.DecodePayload` | lib/license.js:122 | `JSON.parse` of the UTF-8 text inverts the encoding of lib/license.js:101: the bytes of any payload decode to exactly that payload. Every failure is a malformed payload. |
| `License.ParsePayloadTextRoundTrip` | lib/license.js:102 | Parsing the JSON text of a payload gives the payload back, field for field. |
| `License.SignVerifyRoundTrip` | lib/license.js:97-102 | For a matched key pair and a successful signing: the signature text is canonical base64, and `publicDecrypt` on its bytes returns exactly the payload built at signing time. This holds whatever public passphrase is given. |
| `ServerInfo.GetMacAddress` | lib/server_info.js:31-47 | Returns the deduplicated list of MACs without the zero pattern. It has no duplicates and holds exactly the MACs of some record without the zero pattern. It is ordered by each MAC's first occurrence, interfaces in key order, then records in list order. |
| `ServerInfo.CollectMacs` | lib/server_info.js:36-45 | The nested loops collect exactly `NonZeroMacs` of the table's records, in table order. |
| `ServerInfo.UniqueInOrder` | lib/server_info.js:46 | The spread of a `Set` is exactly `Dedup` of the list: each value once, where it first occurs. |
| `ServerInfo.NonZeroMacsSnoc` | lib/server_info.js:39-41 | One more record adds its MAC exactly when the MAC does not contain the zero pattern. |
| `ServerInfo.DedupSnoc` | lib/server_info.js:46 | One more value is kept exactly when it has not been seen before. |
| `ServerInfo.MacListProperties` | lib/server_info.js:36-46 | The same four facts, stated for the reference definition `Dedup(NonZeroMacs(entries))`. |
| `ServerInfo.NonZeroMacsMembers` | lib/server_info.js:38-43 | A MAC is collected exactly when some record carries it and it does not contain the zero pattern. |
| `ServerInfo.DedupMembers` | lib/server_info.js:46 | Deduplication keeps exactly the values of the list. |
| `ServerInfo.DedupNoDuplicates` | lib/server_info.js:46 | Deduplication leaves no value twice. |
| `ServerInfo.DedupOrder` | lib/server_info.js:46 | Deduplication keeps values in the order of their first occurrence. |
| `ServerInfo.ZeroPatternAt` | lib/server_info.js:35 | The regex test holds exactly when a match of `(?:0{1,2}[:-]){5}0{1,2}` starts at some position. It is a substring test, not an anchored one. |
| `ServerInfo.ZeroPatternFromAt` | lib/server_info.js:39 | The scan from position i succeeds exactly when a match starts at some position from i on. |
| `ServerInfo.ZeroPatternExamples` | lib/server_info.js:35 | `00:00:00:00:00:00`, `0-0-0-0-0-0` and the unanchored case `10:00:00:00:00:01` all contain the pattern. |
| `ServerInfo.NoZeroNoPattern` | lib/server_info.js:35 | Every match starts with a zero, so text with no `0` from position i on has no match there. |
| `ServerInfo.OrdinaryMacKept` | lib/server_info.js:39 | `f0:18:98:32:4e:e5` does not contain the pattern. |
| `ServerInfo.GetIpAddress` | lib/server_info.js:14-25 | Returns the address of the first record, in iteration order, that is IPv4, not `127.0.0.1` and not internal. It returns `None` (undefined) when there is none. |
| `ServerInfo.FirstQualifiedSpec` | lib/server_info.js:16-24 | `None` exactly when no record qualifies. Otherwise the address is that of a qualifying record before which none qualifies. |
| `ServerInfo.FoundAt` | lib/server_info.js:18-21 | When the search stops at record i of interface k, no earlier record having qualified, its result is the first qualifying address of the whole table. |
| `ServerInfo.NoneQualifiedAppend` | lib/server_info.js:16-19 | Two runs of non-qualifying records in a row contain no qualifying record. |
| `ServerInfo.FirstQualifiedSkip` | lib/server_info.js:18-22 | Records that do not qualify do not change the result of the search. |
| `ServerInfo.GetServerInfo` | lib/server_info.js:7-12 | The summary pairs the first external IPv4 address with the MAC list. |
| `ServerInfo.EntriesAppend` | lib/server_info.js:16-17 | The records of two tables in a row are the records of the first, then those of the second. |
| `Client.IsMac` | example/index.js:54-61 | True exactly when some licensed MAC is in the host's list, by exact string equality. |
| `Client.AnyListedCases` | example/index.js:55-60 | An empty licensed list never matches. `AA:BB:CC:DD:EE:FF` does not match `aa:bb:cc:dd:ee:ff`. The example's licensed pair matches a host that has its second address. |
| `Client.RemainDays` | example/index.js:65 | An expiry text that does not read as a date gives no count (NaN). For one that does, the count is positive exactly when at least a full day separates the clock from the expiry. |
| `Client.Evaluate` | example/index.js:63-74 | Licensed hardware absent: hardware not authorised, whatever the expiry. Present, with a positive day count: authorised with that many days left. Present, with zero, a negative count or an unreadable expiry: expired. |
| `Client.RemainDaysAtIssue` | example/index.js:65 | Checked at the moment of issue, an n-day licence reports n days when issued on a whole second, else n - 1 (for n >= 1). |
| `Client.ExpirySpan` | example/index.js:65 | A licence issued for n days at `now` expires n days of milliseconds after `now`, minus the milliseconds that the written expiry drops. |
| `Client.TruncatedDays` | example/index.js:65 | Whole days of n days minus ms milliseconds, truncated toward zero. |
| `Client.DecodeLicense` | example/index.js:36-38 | Reading a licence string inverts line 36: the base64 of the JSON of any `{publicKey, sign}` object reads back as exactly that object. |
| `Client.ParseLicenseTextRoundTrip` | example/index.js:36-38 | Parsing the JSON text of `{publicKey, sign}` gives the object back. |
| `Client.ReadLicense` | example/index.js:38-41 | An unreadable licence string fails as a malformed payload. For a readable one, a signature text that is not canonical base64 also fails as a malformed payload. Otherwise the result is exactly `publicDecrypt` on the carried public key and the decoded signature, with an empty passphrase. |
| `Client.IssueAndRead` | example/index.js:19-41 | Signing, packing the licence string and reading it back with the public key yields the payload that was signed. |
| `Base64.DecodeEncode` | lib/license.js:102 | Decoding the base64 of any bytes gives those bytes. |
| `Base64.Decode` | example/index.js:41 | Text that decodes is exactly the base64 of what it decodes to, so only canonical text is accepted. |
| `Base64.Encode` | lib/license.js:102 | The output has 4 characters for every started group of 3 bytes. |
| `Base64.EncodeCons` | lib/license.js:102 | The base64 of a full group followed by more bytes is that group's four characters, then the base64 of the rest. |
| `Base64.SextetValue` | lib/license.js:102 | A character decodes to a sextet exactly when it is in the alphabet, and that sextet encodes to it. |
| `Utf8.DecodeEncode` | lib/license.js:101 | Decoding the UTF-8 encoding of any string gives the string. |
| `Utf8.EncodeChar` | lib/license.js:101 | Each character takes one to four bytes. |
| `Utf8.DecodeChar` | lib/license.js:122 | A successful decode step consumes between one byte and all of the input. |
| `Json.ParseStringQuote` | lib/license.js:101 | A quoted, escaped string reads back as the string, whatever follows it. |
| `Json.ParseListQuoteList` | lib/license.js:101 | A JSON list of strings reads back as the list, whatever follows it. |
| `Json.ParseCharsEscape` | lib/license.js:101 | The escaped body of a string reads back up to its closing quote. |
| `Json.ExpectLiteral` | lib/license.js:122 | A fixed piece of JSON text is consumed exactly. |
| `Json.Expect` | lib/license.js:122 | What remains after a matched literal is the input minus that literal. |
| `Json.HexValue` | lib/license.js:122 | A hex digit of either case reads as a value from 0 to 15. |
| `Json.HexRoundTrip` | lib/license.js:101 | A lower-case hex digit reads back as its value. |
| `Timestamp.Format` | lib/license.js:89 | A valid date in years 0 to 9999 formats to 19 characters and reads back as the same date, without its milliseconds. |
| `Timestamp.FormatNaN` | lib/license.js:91 | The format of a date whose time value is NaN has 30 characters and does not read as a date. |
| `Timestamp.FormatNaNText` | lib/license.js:91 | That text is `-0NaN--NaN--NaN -NaN:-NaN:-NaN`: each field is `zeroFill` of NaN, a minus sign and zeros up to the field width. |
| `Timestamp.FormatParse` | example/index.js:65 | Text that reads as a date is exactly the format of that date. |
| `Timestamp.Parse` | example/index.js:65 | A date that is read is valid, in years 0 to 9999, and has no milliseconds. |
| `Timestamp.ZeroPaddedValue` | lib/license.js:89 | A zero-padded field reads back as its number. |
| `Timestamp.ZeroPaddedLength` | lib/license.js:89 | A zero-padded field has the requested width when the number fits. |
| `Calendar.AddDays` | lib/license.js:91 | Adding days gives a valid date at the same time of day. |
| `Calendar.AddDaysShift` | lib/license.js:91 | Adding n days moves the day number by exactly n. |
| `Calendar.AddDaysInstant` | lib/license.js:91 | Adding n days moves the instant by exactly n times 86,400,000 ms. |
| `Calendar.AddMonths` | lib/license.js:91 | Adding n months moves the month by exactly n. The day is kept, clamped to the last day of the target month. The time of day is kept. |
| `Calendar.AddMonthsExamples` | lib/license.js:91 | 2024-01-15 plus one year is 2025-01-15. 2024-01-31 plus three months is 2024-04-30. 2024-02-29 plus one year is 2025-02-28. |
| `Calendar.DiffDays` | example/index.js:65-67 | The day count is positive exactly when at least one full day separates the two instants. It is the number of whole days in the span, truncated toward zero: `days` whole days fit in a non-negative span and `days + 1` do not, and symmetrically for a negative span. |
| `Calendar.FourDigitYearsRepresentable` | lib/license.js:89-91 | Every valid date in years 0 to 9999 lies within the JavaScript `Date` range of 8.64e15 ms around the Unix epoch. |
| `Calendar.FarYearsNotRepresentable` | lib/license.js:91 | A valid date in year 300000 or later lies outside that range. |
| `Calendar.DaysBeforeYearStep` | lib/license.js:91 | The days before year y + 1 are those before year y plus the length of year y, under the Gregorian leap rule. |
| `Calendar.NextMonthStartNumber` | lib/license.js:91 | The first day of the next month lies the remaining days of this month ahead. |
| `Calendar.PreviousMonthEndNumber` | lib/license.js:91 | The last day of the previous month lies `day` days back. |

## Left out

- Key generation (`getKeyPair`, `createKeyPairFile`, lib/license.js:21-63): foreign cryptography and file writes. Keys are opaque strings; `Rsa.MatchedPair` states what a generated pair guarantees.
- RSA arithmetic and PKCS#1 v1.5 padding: foreign. `Rsa.Primitive` is an abstract pair of functions. Any failure of the primitive maps to `SigningFailed` or `VerificationFailed`.
- Payload size: the code has no size check, so the model has none either. A payload too large for the key is one of the primitive's `None` results.
- A key that does not match: the model says nothing about it beyond the primitive's result. That a wrong key is refused is a property of RSA, not of this code.
- The clock: both `moment()` calls in `privateEncrypt` read the same `now`. The source reads the clock twice, milliseconds apart.
- The clock in the example: the example reads it separately from the issuer.
- The clock's range: `now` is taken to be a valid date. The model does not require it to lie within the JavaScript `Date` range, which a real clock always does.
- `License.Advance` and `Calendar`: dates are unbounded. Where the advanced date leaves the `Date` range of 8.64e15 ms around the Unix epoch, JavaScript gives an invalid date. The model keeps computing a date there, and `ExpiryText` writes for it the text `Timestamp.FormatNaN` describes. That text follows from the formatting code of moment, which is not part of this model. The range is measured with local fields as if they were UTC, so at its edges it is off by the time-zone offset.
- Time zones and daylight saving: calendar fields are taken as local time without DST. A day is always 24 hours here.
- Other `moment` date inputs: only the four units days, weeks, months and years are modelled. Other inputs to `moment` (locale-dependent units, fractional values, other date texts) are left out.
- `Timestamp.Parse` reads only the 19-character shape that `format('YYYY-MM-DD HH:mm:ss')` writes. moment's parser accepts much more; any other text counts as unreadable (NaN), and the example then reports expiry.
- `Timestamp.Format` reads back for years 0 to 9999. moment writes other years with a sign or more digits, and the model formats those the same way, but reads none of them back.
- A non-string, non-object `options.date`, such as a number: not modelled. A string date is used verbatim.
- The argument order of `add`: the example passes `unit` and `value` swapped (example/index.js:22-23). moment swaps a numeric unit back into place, so the model takes the declared shape `{value, unit}` of index.d.ts.
- `os.networkInterfaces()`: replaced by the `InterfaceTable` parameter. `GetServerInfo` reads one table for both lookups, where the source queries the system twice.
- `Json`: `JSON.parse` is modelled only on the text `JSON.stringify` writes for these records. It reads no whitespace, only the canonical key order and no extra keys.
- `Json` surrogates: every surrogate escape (U+D800 to U+DFFF) is refused, lone or paired. `JSON.parse` joins a pair such as `\ud83d\ude00` into one character and keeps a lone one as is. Dafny's `char` is a Unicode scalar value, so a lone surrogate cannot be represented; the writer never escapes a pair, so pairs do not occur in the text it reads.
- `Utf8.Decode`: rejects malformed bytes, where Node substitutes U+FFFD.
- `Base64.Decode`: rejects non-canonical text, where Node's decoder skips stray characters and ignores missing padding.
- `Client.ReadLicense`: refuses a signature text that is not canonical base64 as a malformed payload. Node's `Buffer.from(…, 'base64')` would decode it leniently and leave the refusal to the RSA step.
- Console output and example/encryption.js (a zlib demo): no behaviour of the library.
- The verdict: the example prints its result; the model returns it as a `Verdict`.

Points where the code's behaviour is easy to misread:

- An unknown unit: moment ignores it and leaves the date unchanged. The model accepts only the four units.
- Payload size: the code has no payload-size check; an over-long payload makes the RSA call throw.
- An expired licence: the example reports it with no count of overdue days. The model's `Expired` carries none.
- Truthiness: `options.date`, `privateKey`, `passphrase` and `publicKey` are checked as the code does. An empty string is missing; any record is present.
