/**
 * The `YYYY-MM-DD HH:mm:ss` text that moment's `format` produces for the
 * licence timestamps, and the reading of that text back into a date-time.
 */
module Timestamp {
  import opened Wrappers
  import opened Calendar

  predicate IsDigit(c: char) {
    '0' <= c <= '9'
  }

  predicate AllDigits(s: string) {
    forall i :: 0 <= i < |s| ==> IsDigit(s[i])
  }

  function DigitChar(v: int): (c: char)
    requires 0 <= v < 10
    ensures IsDigit(c)
  {
    ('0' as int + v) as char
  }

  function DigitValue(c: char): int
    requires IsDigit(c)
  {
    c as int - '0' as int
  }

  function Pow10(k: nat): nat {
    if k == 0 then 1 else 10 * Pow10(k - 1)
  }

  /** `n` in decimal, left-filled with zeros to at least `width` digits: moment's `zeroFill`. */
  function ZeroPadded(n: nat, width: nat): (s: string)
    ensures |s| >= 1 && AllDigits(s)
    decreases n, width
  {
    if n < 10 && width <= 1 then [DigitChar(n)]
    else ZeroPadded(n / 10, if width == 0 then 0 else width - 1) + [DigitChar(n % 10)]
  }

  /** The number a string of decimal digits denotes. */
  function DecimalValue(s: string): nat
    requires AllDigits(s)
  {
    if s == [] then 0 else DecimalValue(s[..|s| - 1]) * 10 + DigitValue(s[|s| - 1])
  }

  /** The `YYYY` token: sign, then the magnitude zero-filled to four digits. */
  function FormatYear(y: int): string {
    if y < 0 then "-" + ZeroPadded(-y, 4) else ZeroPadded(y, 4)
  }

  /**
   * `moment(d).format('YYYY-MM-DD HH:mm:ss')`; milliseconds are not part of
   * the text. For years 0 to 9999 it is 19 characters and reads back as `d`
   * to the second.
   */
  function Format(d: DateTime): (s: string)
    requires ValidDateTime(d)
    ensures 0 <= d.year <= 9999 ==> |s| == 19 && Parse(s) == Some(d.(millisecond := 0))
  {
    if 0 <= d.year <= 9999 then
      FormatFieldsReadBack(d);
      FormatFields(d)
    else
      FormatFields(d)
  }

  function FormatFields(d: DateTime): string
    requires ValidDateTime(d)
  {
    FormatYear(d.year) + "-" + ZeroPadded(d.month, 2) + "-" + ZeroPadded(d.day, 2) + " "
      + ZeroPadded(d.hour, 2) + ":" + ZeroPadded(d.minute, 2) + ":" + ZeroPadded(d.second, 2)
  }

  /** `k` zeros: what `Math.pow(10, k).toString().substr(1)` gives in `zeroFill`. */
  function Zeros(k: nat): (s: string)
    ensures |s| == k
  {
    if k == 0 then "" else "0" + Zeros(k - 1)
  }

  /**
   * moment's `zeroFill` applied to NaN: `NaN >= 0` is false, so a minus sign,
   * then as many zeros as the three letters of `NaN` fall short of `width`.
   */
  function ZeroFilledNaN(width: nat): (s: string)
    ensures |s| == if width > 3 then width + 1 else 4
  {
    "-" + Zeros(if width > 3 then width - 3 else 0) + "NaN"
  }

  /**
   * `format('YYYY-MM-DD HH:mm:ss')` of a moment whose time value has become
   * NaN. moment records the validity of a moment when it is created, and
   * `add` does not update that record, so the formatter does not write its
   * invalid-date text. Instead every field of the format reads NaN and goes
   * through `zeroFill`. Either way, the text does not read as a date.
   */
  function FormatNaN(): (s: string)
    ensures |s| == 30 && Parse(s).None?
  {
    ZeroFilledNaN(4) + "-" + ZeroFilledNaN(2) + "-" + ZeroFilledNaN(2) + " "
      + ZeroFilledNaN(2) + ":" + ZeroFilledNaN(2) + ":" + ZeroFilledNaN(2)
  }

  /**
   * Reads exactly the shape `Format` writes for years 0000 to 9999 and
   * refuses text whose fields are out of range (a 30th of February, hour 24).
   */
  function Parse(text: string): (r: Option<DateTime>)
    ensures r.Some? ==> ValidDateTime(r.value) && r.value.millisecond == 0
    ensures r.Some? ==> 0 <= r.value.year <= 9999
  {
    if |text| != 19 then None
    else if !(AllDigits(text[0..4]) && AllDigits(text[5..7]) && AllDigits(text[8..10])
              && AllDigits(text[11..13]) && AllDigits(text[14..16]) && AllDigits(text[17..19])) then None
    else if !(text[4] == '-' && text[7] == '-' && text[10] == ' ' && text[13] == ':' && text[16] == ':') then None
    else
      var year := DecimalValue(text[0..4]);
      DecimalValueBound(text[0..4]);
      var d := DateTime(year, DecimalValue(text[5..7]), DecimalValue(text[8..10]),
                        DecimalValue(text[11..13]), DecimalValue(text[14..16]), DecimalValue(text[17..19]), 0);
      if ValidDateTime(d) then Some(d) else None
  }

  // ---------------------------------------------------------------------
  // Lemmas
  // ---------------------------------------------------------------------

  /** The text of a NaN date, written out. */
  lemma FormatNaNText()
    ensures FormatNaN() == "-0NaN--NaN--NaN -NaN:-NaN:-NaN"
  {
    assert Zeros(1) == "0" && Zeros(0) == "";
    assert ZeroFilledNaN(4) == "-0NaN";
    assert ZeroFilledNaN(2) == "-NaN";
  }

  lemma {:induction false} DecimalValueBound(s: string)
    requires AllDigits(s)
    ensures DecimalValue(s) < Pow10(|s|)
  {
    if s != [] {
      DecimalValueBound(s[..|s| - 1]);
    }
  }

  /** A number below 10^width is written with exactly `width` digits. */
  lemma {:induction false} ZeroPaddedLength(n: nat, width: nat)
    requires width >= 1 && n < Pow10(width)
    ensures |ZeroPadded(n, width)| == width
    decreases width
  {
    if !(n < 10 && width <= 1) {
      ZeroPaddedLength(n / 10, width - 1);
    }
  }

  /** Zero-filling loses nothing: the digits denote the number. */
  lemma {:induction false} ZeroPaddedValue(n: nat, width: nat)
    ensures DecimalValue(ZeroPadded(n, width)) == n
    decreases n, width
  {
    var s := ZeroPadded(n, width);
    if !(n < 10 && width <= 1) {
      var w' := if width == 0 then 0 else width - 1;
      ZeroPaddedValue(n / 10, w');
      assert s[..|s| - 1] == ZeroPadded(n / 10, w');
    }
  }

  /** Conversely, a digit string is the zero-filled form of the number it denotes, at its own width. */
  lemma {:induction false} DigitsAreZeroPadded(s: string)
    requires |s| >= 1 && AllDigits(s)
    ensures ZeroPadded(DecimalValue(s), |s|) == s
  {
    var init := s[..|s| - 1];
    var v := DecimalValue(s);
    if |s| == 1 {
      assert init == [];
      assert DecimalValue(init) == 0;
      assert v == DigitValue(s[0]);
      assert [DigitChar(v)] == s;
    } else {
      DigitsAreZeroPadded(init);
      assert v / 10 == DecimalValue(init);
      assert v % 10 == DigitValue(s[|s| - 1]);
      assert s == init + [s[|s| - 1]];
    }
  }

  /** Where the six fields and the five separators of a 19-character timestamp sit. */
  lemma FieldLayout(y: string, mo: string, da: string, h: string, mi: string, se: string)
    requires |y| == 4 && |mo| == 2 && |da| == 2 && |h| == 2 && |mi| == 2 && |se| == 2
    ensures var t := y + "-" + mo + "-" + da + " " + h + ":" + mi + ":" + se;
      && |t| == 19
      && t[0..4] == y && t[5..7] == mo && t[8..10] == da && t[11..13] == h && t[14..16] == mi && t[17..19] == se
      && t[4] == '-' && t[7] == '-' && t[10] == ' ' && t[13] == ':' && t[16] == ':'
  {
  }

  /** Reading back the fields as `Format` writes them gives the date-time, to the second. */
  lemma FormatFieldsReadBack(d: DateTime)
    requires ValidDateTime(d) && 0 <= d.year <= 9999
    ensures |FormatFields(d)| == 19 && Parse(FormatFields(d)) == Some(d.(millisecond := 0))
  {
    var y, mo, da := ZeroPadded(d.year, 4), ZeroPadded(d.month, 2), ZeroPadded(d.day, 2);
    var h, mi, se := ZeroPadded(d.hour, 2), ZeroPadded(d.minute, 2), ZeroPadded(d.second, 2);
    ZeroPaddedLength(d.year, 4);
    ZeroPaddedLength(d.month, 2);
    ZeroPaddedLength(d.day, 2);
    ZeroPaddedLength(d.hour, 2);
    ZeroPaddedLength(d.minute, 2);
    ZeroPaddedLength(d.second, 2);
    ZeroPaddedValue(d.year, 4);
    ZeroPaddedValue(d.month, 2);
    ZeroPaddedValue(d.day, 2);
    ZeroPaddedValue(d.hour, 2);
    ZeroPaddedValue(d.minute, 2);
    ZeroPaddedValue(d.second, 2);
    assert FormatFields(d) == y + "-" + mo + "-" + da + " " + h + ":" + mi + ":" + se;
    FieldLayout(y, mo, da, h, mi, se);
  }

  /** Every text `Parse` accepts is exactly what `Format` writes for the date-time it reads. */
  lemma FormatParse(text: string)
    requires Parse(text).Some?
    ensures Format(Parse(text).value) == text
  {
    var d := Parse(text).value;
    DigitsAreZeroPadded(text[0..4]);
    DigitsAreZeroPadded(text[5..7]);
    DigitsAreZeroPadded(text[8..10]);
    DigitsAreZeroPadded(text[11..13]);
    DigitsAreZeroPadded(text[14..16]);
    DigitsAreZeroPadded(text[17..19]);
    assert text == text[0..4] + "-" + text[5..7] + "-" + text[8..10] + " " + text[11..13] + ":" + text[14..16] + ":" + text[17..19];
  }
}
