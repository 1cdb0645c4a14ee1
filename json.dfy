/**
 * The slice of JSON (RFC 8259) that the licence library's objects use:
 * `JSON.stringify` of strings and arrays of strings, and a reader for
 * exactly the text it writes. Objects are laid out by their users
 * (`License`, `Client`) from the literal keys and these values.
 */
module Json {
  import opened Wrappers

  function HexDigit(v: int): (c: char)
    requires 0 <= v < 16
  {
    if v < 10 then ('0' as int + v) as char else ('a' as int + (v - 10)) as char
  }

  /** The value of a hexadecimal digit of either case, as `JSON.parse` reads them. */
  function HexValue(c: char): (r: Option<int>)
    ensures r.Some? ==> 0 <= r.value < 16
  {
    if '0' <= c <= '9' then Some(c as int - '0' as int)
    else if 'a' <= c <= 'f' then Some(c as int - 'a' as int + 10)
    else if 'A' <= c <= 'F' then Some(c as int - 'A' as int + 10)
    else None
  }

  /**
   * How `JSON.stringify` writes one character inside a string literal: the
   * quote and the backslash escaped, the five control characters with short
   * escapes written short, every other control character as `\u00xx` in
   * lower-case hexadecimal, everything else as itself.
   */
  function EscapeChar(c: char): string {
    if c == '"' then "\\\""
    else if c == '\\' then "\\\\"
    else if c as int == 0x08 then "\\b"
    else if c as int == 0x0C then "\\f"
    else if c == '\n' then "\\n"
    else if c == '\r' then "\\r"
    else if c == '\t' then "\\t"
    else if c as int < 0x20 then "\\u00" + [HexDigit(c as int / 16), HexDigit(c as int % 16)]
    else [c]
  }

  function Escape(s: string): string {
    if s == [] then "" else EscapeChar(s[0]) + Escape(s[1..])
  }

  /** `JSON.stringify` of a string. */
  function Quote(s: string): string {
    "\"" + Escape(s) + "\""
  }

  /** `JSON.stringify` of an array of strings: no spaces, commas between elements. */
  function QuoteList(xs: seq<string>): string {
    "[" + Items(xs) + "]"
  }

  function Items(xs: seq<string>): string {
    if xs == [] then "" else if |xs| == 1 then Quote(xs[0]) else Quote(xs[0]) + "," + Items(xs[1..])
  }

  // ---------------------------------------------------------------------
  // Reading
  // ---------------------------------------------------------------------

  /** The text after `lit`, when the text starts with it. */
  function Expect(lit: string, s: string): (r: Option<string>)
    ensures r.Some? ==> s == lit + r.value
  {
    if |lit| <= |s| && s[..|lit|] == lit then Some(s[|lit|..]) else None
  }

  /**
   * The character an escape sequence at the front of `s` stands for and
   * the length of the sequence. Escapes of surrogate code units are
   * refused: characters here are scalar values.
   */
  function Unescape(s: string): (r: Option<(char, nat)>)
    requires |s| >= 2 && s[0] == '\\'
    ensures r.Some? ==> 2 <= r.value.1 <= |s|
  {
    var e := s[1];
    if e == '"' || e == '\\' || e == '/' then Some((e, 2))
    else if e == 'b' then Some((0x08 as char, 2))
    else if e == 'f' then Some((0x0C as char, 2))
    else if e == 'n' then Some(('\n', 2))
    else if e == 'r' then Some(('\r', 2))
    else if e == 't' then Some(('\t', 2))
    else if e == 'u' && |s| >= 6 then
      var h0, h1, h2, h3 := HexValue(s[2]), HexValue(s[3]), HexValue(s[4]), HexValue(s[5]);
      if h0.None? || h1.None? || h2.None? || h3.None? then None
      else
        var v := h0.value * 4096 + h1.value * 256 + h2.value * 16 + h3.value;
        if 0xD800 <= v < 0xE000 then None else Some((v as char, 6))
    else None
  }

  function Prepend(c: char, r: Option<(string, string)>): Option<(string, string)> {
    match r
    case None => None
    case Some((t, rest)) => Some(([c] + t, rest))
  }

  /** The characters of a string literal up to its closing quote, and the text after that quote. */
  function ParseChars(s: string): (r: Option<(string, string)>)
    ensures r.Some? ==> |r.value.1| < |s|
    decreases |s|
  {
    if s == [] then None
    else if s[0] == '"' then Some(([], s[1..]))
    else if s[0] == '\\' then
      if |s| < 2 then None
      else
        match Unescape(s)
        case None => None
        case Some((c, n)) => Prepend(c, ParseChars(s[n..]))
    else if s[0] as int < 0x20 then None
    else Prepend(s[0], ParseChars(s[1..]))
  }

  /** A string literal at the front of `s`: its value and the text after it. */
  function ParseString(s: string): (r: Option<(string, string)>)
    ensures r.Some? ==> |r.value.1| < |s|
  {
    if |s| > 0 && s[0] == '"' then ParseChars(s[1..]) else None
  }

  /** An array of string literals at the front of `s`: its elements and the text after it. */
  function ParseList(s: string): (r: Option<(seq<string>, string)>)
    ensures r.Some? ==> |r.value.1| < |s|
  {
    if |s| >= 2 && s[0] == '[' && s[1] == ']' then Some(([], s[2..]))
    else if |s| >= 1 && s[0] == '[' then ParseItems(s[1..])
    else None
  }

  function ParseItems(s: string): (r: Option<(seq<string>, string)>)
    ensures r.Some? ==> |r.value.1| < |s|
    decreases |s|
  {
    match ParseString(s)
    case None => None
    case Some((x, rest)) =>
      if |rest| > 0 && rest[0] == ']' then Some(([x], rest[1..]))
      else if |rest| > 0 && rest[0] == ',' then
        match ParseItems(rest[1..])
        case None => None
        case Some((ys, after)) => Some(([x] + ys, after))
      else None
  }

  // ---------------------------------------------------------------------
  // Lemmas
  // ---------------------------------------------------------------------

  lemma ExpectLiteral(lit: string, rest: string)
    ensures Expect(lit, lit + rest) == Some(rest)
  {
    assert (lit + rest)[..|lit|] == lit;
    assert (lit + rest)[|lit|..] == rest;
  }

  lemma HexRoundTrip(v: int)
    requires 0 <= v < 16
    ensures HexValue(HexDigit(v)) == Some(v)
  {
  }

  /** A `\u00xx` escape of a control character reads back as that character. */
  lemma UnescapeControl(c: char, t: string)
    requires c as int < 0x20
    ensures var s := "\\u00" + [HexDigit(c as int / 16), HexDigit(c as int % 16)] + t;
            Unescape(s) == Some((c, 6))
  {
    var v := c as int;
    HexRoundTrip(v / 16);
    HexRoundTrip(v % 16);
    assert HexValue('0') == Some(0);
  }

  /** The escape of one character, in front of any text, reads back as that character. */
  lemma ParseCharsEscapeChar(c: char, t: string)
    ensures ParseChars(EscapeChar(c) + t) == Prepend(c, ParseChars(t))
  {
    var e := EscapeChar(c);
    var s := e + t;
    if c == '"' || c == '\\' || c as int == 0x08 || c as int == 0x0C || c == '\n' || c == '\r' || c == '\t' {
      assert |e| == 2 && s[0] == '\\' && s[2..] == t;
    } else if c as int < 0x20 {
      assert e == "\\u00" + [HexDigit(c as int / 16), HexDigit(c as int % 16)];
      UnescapeControl(c, t);
      assert |e| == 6 && s[0] == '\\' && s[6..] == t;
    } else {
      assert e == [c] && s[1..] == t;
    }
  }

  lemma EscapeCons(x: string, tail: string)
    requires x != []
    ensures Escape(x) + tail == EscapeChar(x[0]) + (Escape(x[1..]) + tail)
  {
  }

  /** The escaped characters and the closing quote read back as the characters and what follows. */
  lemma {:induction false} ParseCharsEscape(x: string, rest: string)
    ensures ParseChars(Escape(x) + ("\"" + rest)) == Some((x, rest))
  {
    if x == [] {
      assert Escape(x) + ("\"" + rest) == "\"" + rest;
    } else {
      var tail := "\"" + rest;
      ParseCharsEscape(x[1..], rest);
      EscapeCons(x, tail);
      ParseCharsEscapeChar(x[0], Escape(x[1..]) + tail);
      assert x == [x[0]] + x[1..];
    }
  }

  /** Reading a string literal that `Quote` wrote gives back the string and the text after it. */
  lemma ParseStringQuote(x: string, rest: string)
    ensures ParseString(Quote(x) + rest) == Some((x, rest))
  {
    var s := Quote(x) + rest;
    assert s == "\"" + (Escape(x) + ("\"" + rest));
    assert s[1..] == Escape(x) + ("\"" + rest);
    ParseCharsEscape(x, rest);
  }

  lemma Regroup(a: string, b: string, c: string, d: string)
    ensures (a + b + c) + d == a + (b + (c + d))
  {
  }

  lemma ItemsCons(xs: seq<string>, rest: string)
    requires |xs| >= 2
    ensures Items(xs) + rest == Quote(xs[0]) + ("," + (Items(xs[1..]) + rest))
  {
    var q, t := Quote(xs[0]), Items(xs[1..]);
    assert xs != [] && |xs| != 1;
    assert Items(xs) == q + "," + t;
    Regroup(q, ",", t, rest);
  }

  lemma {:induction false} ParseItemsRoundTrip(xs: seq<string>, rest: string)
    requires xs != []
    ensures ParseItems(Items(xs) + ("]" + rest)) == Some((xs, rest))
  {
    var tail := "]" + rest;
    if |xs| == 1 {
      ParseStringQuote(xs[0], tail);
      assert xs == [xs[0]];
    } else {
      ItemsCons(xs, tail);
      var after := "," + (Items(xs[1..]) + tail);
      ParseStringQuote(xs[0], after);
      assert after[1..] == Items(xs[1..]) + tail;
      ParseItemsRoundTrip(xs[1..], rest);
      assert xs == [xs[0]] + xs[1..];
    }
  }

  /** Reading an array that `QuoteList` wrote gives back its elements and the text after it. */
  lemma ParseListQuoteList(xs: seq<string>, rest: string)
    ensures ParseList(QuoteList(xs) + rest) == Some((xs, rest))
  {
    var s := QuoteList(xs) + rest;
    if xs == [] {
      assert s == "[]" + rest;
    } else {
      assert Items(xs)[0] == '"';
      assert s == "[" + (Items(xs) + ("]" + rest));
      assert s[1..] == Items(xs) + ("]" + rest);
      ParseItemsRoundTrip(xs, rest);
    }
  }
}
