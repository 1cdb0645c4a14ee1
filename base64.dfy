/**
 * The base64 encoding of section 4 of RFC 4648 (alphabet of Table 1, `=`
 * padding), as Node's `Buffer.toString('base64')` writes it; the decoder
 * accepts exactly the canonical encodings (section 3.5 of RFC 4648: padding
 * only at the end, unused bits zero).
 */
module Base64 {
  import opened Wrappers

  /** The character for a 6-bit value: Table 1 of RFC 4648. */
  function SextetChar(v: int): (c: char)
    requires 0 <= v < 64
    ensures c != '='
  {
    if v < 26 then ('A' as int + v) as char
    else if v < 52 then ('a' as int + (v - 26)) as char
    else if v < 62 then ('0' as int + (v - 52)) as char
    else if v == 62 then '+'
    else '/'
  }

  /** The 6-bit value of an alphabet character; `None` for the pad and every other character. */
  function SextetValue(c: char): (r: Option<int>)
    ensures r.Some? ==> 0 <= r.value < 64 && SextetChar(r.value) == c
  {
    if 'A' <= c <= 'Z' then Some(c as int - 'A' as int)
    else if 'a' <= c <= 'z' then Some(c as int - 'a' as int + 26)
    else if '0' <= c <= '9' then Some(c as int - '0' as int + 52)
    else if c == '+' then Some(62)
    else if c == '/' then Some(63)
    else None
  }

  function EncodeGroup(b0: byte, b1: byte, b2: byte): string {
    [SextetChar(b0 / 4), SextetChar(b0 % 4 * 16 + b1 / 16), SextetChar(b1 % 16 * 4 + b2 / 64), SextetChar(b2 % 64)]
  }

  /** Base64 text of `b`: four characters for every three bytes, the last group padded with `=`. */
  function Encode(b: seq<byte>): (s: string)
    ensures |s| == (|b| + 2) / 3 * 4
    decreases |b|
  {
    if |b| == 0 then []
    else if |b| == 1 then [SextetChar(b[0] / 4), SextetChar(b[0] % 4 * 16), '=', '=']
    else if |b| == 2 then [SextetChar(b[0] / 4), SextetChar(b[0] % 4 * 16 + b[1] / 16), SextetChar(b[1] % 16 * 4), '=']
    else EncodeGroup(b[0], b[1], b[2]) + Encode(b[3..])
  }

  /** Three bytes from four alphabet characters; `None` if one of them is not in the alphabet. */
  function DecodeGroup(c0: char, c1: char, c2: char, c3: char): (r: Option<seq<byte>>)
    ensures r.Some? ==> |r.value| == 3
  {
    var a, b, c, d := SextetValue(c0), SextetValue(c1), SextetValue(c2), SextetValue(c3);
    if a.None? || b.None? || c.None? || d.None? then None
    else Some([a.value * 4 + b.value / 16, b.value % 16 * 16 + c.value / 4, c.value % 4 * 64 + d.value])
  }

  /** The last four characters: a full group, or one or two bytes followed by padding. */
  function DecodeLast(c0: char, c1: char, c2: char, c3: char): Option<seq<byte>> {
    if c2 == '=' && c3 == '=' then
      var a, b := SextetValue(c0), SextetValue(c1);
      if a.None? || b.None? || b.value % 16 != 0 then None
      else Some([a.value * 4 + b.value / 16])
    else if c3 == '=' then
      var a, b, c := SextetValue(c0), SextetValue(c1), SextetValue(c2);
      if a.None? || b.None? || c.None? || c.value % 4 != 0 then None
      else Some([a.value * 4 + b.value / 16, b.value % 16 * 16 + c.value / 4])
    else DecodeGroup(c0, c1, c2, c3)
  }

  /**
   * The bytes of canonical base64 text; `None` for anything else. Text that
   * decodes is exactly the encoding of what it decodes to.
   */
  function Decode(s: string): (r: Option<seq<byte>>)
    ensures r.Some? ==> Encode(r.value) == s
    decreases |s|
  {
    if |s| == 0 then Some([])
    else if |s| < 4 then None
    else if |s| == 4 then
      var last := DecodeLast(s[0], s[1], s[2], s[3]);
      if last.Some? then
        EncodeDecodeLast(s[0], s[1], s[2], s[3]);
        assert s == [s[0], s[1], s[2], s[3]];
        last
      else last
    else
      match DecodeGroup(s[0], s[1], s[2], s[3])
      case None => None
      case Some(group) =>
        match Decode(s[4..])
        case None => None
        case Some(rest) =>
          EncodeGroupThenRest(s, group, rest);
          Some(group + rest)
  }

  // ---------------------------------------------------------------------
  // Lemmas
  // ---------------------------------------------------------------------

  lemma SextetRoundTrip(v: int)
    requires 0 <= v < 64
    ensures SextetValue(SextetChar(v)) == Some(v)
  {
  }

  /** The first two sextets of a group put the first byte back together. */
  lemma FirstByteSextets(b0: byte, b1: int)
    requires 0 <= b1 < 256
    ensures b0 / 4 * 4 + (b0 % 4 * 16 + b1 / 16) / 16 == b0
    ensures (b0 % 4 * 16 + b1 / 16) % 16 * 16 == b1 / 16 * 16
  {
    assert (b0 % 4 * 16 + b1 / 16) / 16 == b0 % 4;
    assert (b0 % 4 * 16 + b1 / 16) % 16 == b1 / 16;
  }

  lemma SplitSecond(b1: byte, b2: int)
    requires 0 <= b2 < 256
    ensures b1 / 16 * 16 + (b1 % 16 * 4 + b2 / 64) / 4 == b1
    ensures (b1 % 16 * 4 + b2 / 64) % 4 * 64 + b2 % 64 == b2
  {
    assert (b1 % 16 * 4 + b2 / 64) / 4 == b1 % 16;
    assert (b1 % 16 * 4 + b2 / 64) % 4 == b2 / 64;
  }

  lemma GroupRoundTrip(b0: byte, b1: byte, b2: byte)
    ensures var e := EncodeGroup(b0, b1, b2); DecodeGroup(e[0], e[1], e[2], e[3]) == Some([b0, b1, b2])
    ensures var e := EncodeGroup(b0, b1, b2); DecodeLast(e[0], e[1], e[2], e[3]) == Some([b0, b1, b2])
  {
    SextetRoundTrip(b0 / 4);
    SextetRoundTrip(b0 % 4 * 16 + b1 / 16);
    SextetRoundTrip(b1 % 16 * 4 + b2 / 64);
    SextetRoundTrip(b2 % 64);
    FirstByteSextets(b0, b1);
    SplitSecond(b1, b2);
  }

  lemma LastOneRoundTrip(b0: byte)
    ensures DecodeLast(SextetChar(b0 / 4), SextetChar(b0 % 4 * 16), '=', '=') == Some([b0])
  {
    SextetRoundTrip(b0 / 4);
    SextetRoundTrip(b0 % 4 * 16);
    FirstByteSextets(b0, 0);
    assert b0 % 4 * 16 % 16 == 0;
  }

  lemma LastTwoRoundTrip(b0: byte, b1: byte)
    ensures DecodeLast(SextetChar(b0 / 4), SextetChar(b0 % 4 * 16 + b1 / 16), SextetChar(b1 % 16 * 4), '=') == Some([b0, b1])
  {
    SextetRoundTrip(b0 / 4);
    SextetRoundTrip(b0 % 4 * 16 + b1 / 16);
    SextetRoundTrip(b1 % 16 * 4);
    FirstByteSextets(b0, b1);
    SplitSecond(b1, 0);
    assert b1 % 16 * 4 % 4 == 0;
  }

  lemma DecodeEncodeThree(b: seq<byte>)
    requires |b| == 3
    ensures Decode(Encode(b)) == Some(b)
  {
    GroupRoundTrip(b[0], b[1], b[2]);
    var e := EncodeGroup(b[0], b[1], b[2]);
    assert Encode(b) == e + Encode(b[3..]);
    assert Encode(b[3..]) == [];
    assert Encode(b) == e;
    assert b == [b[0], b[1], b[2]];
  }

  /** Decoding text that starts with a full group. */
  lemma DecodeCons(e: string, rest: string, head: seq<byte>, tail: seq<byte>)
    requires |e| == 4 && DecodeGroup(e[0], e[1], e[2], e[3]) == Some(head)
    requires |rest| > 0 && Decode(rest) == Some(tail)
    ensures Decode(e + rest) == Some(head + tail)
  {
    var s := e + rest;
    assert s[4..] == rest;
    assert s[0] == e[0] && s[1] == e[1] && s[2] == e[2] && s[3] == e[3];
  }

  lemma SplitThree(b: seq<byte>)
    requires |b| > 3
    ensures b == [b[0], b[1], b[2]] + b[3..]
  {
  }

  lemma EncodeUnfold(b: seq<byte>)
    requires |b| > 3
    ensures Encode(b) == EncodeGroup(b[0], b[1], b[2]) + Encode(b[3..])
    ensures |Encode(b[3..])| > 0
  {
  }

  /** One full group in front of bytes that already round-trip. */
  lemma DecodeEncodeStep(b: seq<byte>)
    requires |b| > 3
    requires Decode(Encode(b[3..])) == Some(b[3..])
    ensures Decode(Encode(b)) == Some(b)
  {
    var head, tail := [b[0], b[1], b[2]], b[3..];
    var e := EncodeGroup(b[0], b[1], b[2]);
    SplitThree(b);
    EncodeUnfold(b);
    GroupRoundTrip(b[0], b[1], b[2]);
    DecodeCons(e, Encode(tail), head, tail);
  }

  /** Decoding what `Encode` wrote gives back the bytes. */
  lemma {:induction false} DecodeEncode(b: seq<byte>)
    ensures Decode(Encode(b)) == Some(b)
    decreases |b|
  {
    if |b| == 1 {
      LastOneRoundTrip(b[0]);
      assert b == [b[0]];
    } else if |b| == 2 {
      LastTwoRoundTrip(b[0], b[1]);
      assert b == [b[0], b[1]];
    } else if |b| == 3 {
      DecodeEncodeThree(b);
    } else if |b| > 3 {
      DecodeEncode(b[3..]);
      DecodeEncodeStep(b);
    }
  }

  /** Recombining a group: the sextets of the decoded bytes are the sextets read. */
  lemma JoinGroup(a: int, b: int, c: int, d: int)
    requires 0 <= a < 64 && 0 <= b < 64 && 0 <= c < 64 && 0 <= d < 64
    ensures (a * 4 + b / 16) / 4 == a
    ensures (a * 4 + b / 16) % 4 * 16 + (b % 16 * 16 + c / 4) / 16 == b
    ensures (b % 16 * 16 + c / 4) % 16 * 4 + (c % 4 * 64 + d) / 64 == c
    ensures (c % 4 * 64 + d) % 64 == d
  {
    assert (a * 4 + b / 16) % 4 == b / 16;
    assert (b % 16 * 16 + c / 4) / 16 == b % 16;
    assert (b % 16 * 16 + c / 4) % 16 == c / 4;
    assert (c % 4 * 64 + d) / 64 == c % 4;
  }

  lemma EncodeDecodeGroup(c0: char, c1: char, c2: char, c3: char)
    requires DecodeGroup(c0, c1, c2, c3).Some?
    ensures var g := DecodeGroup(c0, c1, c2, c3).value; EncodeGroup(g[0], g[1], g[2]) == [c0, c1, c2, c3]
  {
    JoinGroup(SextetValue(c0).value, SextetValue(c1).value, SextetValue(c2).value, SextetValue(c3).value);
  }

  lemma EncodeDecodeLastOne(c0: char, c1: char)
    requires DecodeLast(c0, c1, '=', '=').Some?
    ensures Encode(DecodeLast(c0, c1, '=', '=').value) == [c0, c1, '=', '=']
  {
    var a, b := SextetValue(c0).value, SextetValue(c1).value;
    JoinGroup(a, b, 0, 0);
    assert b / 16 * 16 == b;
  }

  lemma EncodeDecodeLastTwo(c0: char, c1: char, c2: char)
    requires c2 != '=' && DecodeLast(c0, c1, c2, '=').Some?
    ensures Encode(DecodeLast(c0, c1, c2, '=').value) == [c0, c1, c2, '=']
  {
    var a, b, c := SextetValue(c0).value, SextetValue(c1).value, SextetValue(c2).value;
    JoinGroup(a, b, c, 0);
    assert c / 4 * 4 == c;
  }

  lemma EncodeDecodeLast(c0: char, c1: char, c2: char, c3: char)
    requires DecodeLast(c0, c1, c2, c3).Some?
    ensures Encode(DecodeLast(c0, c1, c2, c3).value) == [c0, c1, c2, c3]
  {
    if c2 == '=' && c3 == '=' {
      EncodeDecodeLastOne(c0, c1);
    } else if c3 == '=' {
      EncodeDecodeLastTwo(c0, c1, c2);
    } else {
      var g := DecodeLast(c0, c1, c2, c3).value;
      EncodeDecodeGroup(c0, c1, c2, c3);
      assert g[3..] == [];
      assert Encode(g) == EncodeGroup(g[0], g[1], g[2]) + Encode(g[3..]);
    }
  }

  /** A full group read from the front of `s`, then bytes that encode to the rest of `s`. */
  lemma EncodeGroupThenRest(s: string, group: seq<byte>, rest: seq<byte>)
    requires |s| > 4 && DecodeGroup(s[0], s[1], s[2], s[3]) == Some(group)
    requires Encode(rest) == s[4..]
    ensures Encode(group + rest) == s
  {
    assert EncodeGroup(group[0], group[1], group[2]) == [s[0], s[1], s[2], s[3]] by {
      EncodeDecodeGroup(s[0], s[1], s[2], s[3]);
    }
    assert |rest| > 0 by {
      assert Encode([]) == [];
    }
    EncodeCons(group, rest);
    assert s == [s[0], s[1], s[2], s[3]] + s[4..];
  }

  /** Encoding a full group in front of more bytes. */
  lemma EncodeCons(group: seq<byte>, rest: seq<byte>)
    requires |group| == 3 && |rest| > 0
    ensures Encode(group + rest) == EncodeGroup(group[0], group[1], group[2]) + Encode(rest)
  {
    var b := group + rest;
    assert b[0] == group[0] && b[1] == group[1] && b[2] == group[2];
    assert b[3..] == rest;
  }
}
