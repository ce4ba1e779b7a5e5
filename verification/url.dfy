/**
 Percent-encoding as Python's `urllib.parse.quote` and `quote_plus` perform it (section 2.1 of
 RFC 3986): a character is kept when it is one of the unreserved characters of section 2.3
 (`A-Z a-z 0-9 _ . - ~`) or an ASCII character of the caller's `safe` string; every other
 character is written as `%XX` for each byte of its UTF-8 encoding, upper-case hex.
 `quote_plus` additionally turns a space into `+`.
 */
module Url {
  import opened Wrappers

  type byte = b: int | 0 <= b < 256

  /** The unreserved characters of section 2.3 of RFC 3986. */
  predicate Unreserved(c: char)
  {
    ('A' <= c <= 'Z') || ('a' <= c <= 'z') || ('0' <= c <= '9') || c == '_' || c == '.' || c == '-' || c == '~'
  }

  /** The UTF-8 encoding of one Unicode scalar value (RFC 3629). */
  function Utf8(c: char): (bs: seq<byte>)
    ensures 1 <= |bs| <= 4
    ensures c as int < 0x80 <==> |bs| == 1
    ensures c as int < 0x80 ==> bs == [c as int]
  {
    var cp := c as int;
    if cp < 0x80 then [cp]
    else if cp < 0x800 then [0xC0 + cp / 0x40, 0x80 + cp % 0x40]
    else if cp < 0x10000 then [0xE0 + cp / 0x1000, 0x80 + (cp / 0x40) % 0x40, 0x80 + cp % 0x40]
    else [0xF0 + cp / 0x40000, 0x80 + (cp / 0x1000) % 0x40, 0x80 + (cp / 0x40) % 0x40, 0x80 + cp % 0x40]
  }

  function Utf8String(s: string): seq<byte>
  {
    if |s| == 0 then [] else Utf8(s[0]) + Utf8String(s[1..])
  }

  function HexDigit(n: int): (c: char)
    requires 0 <= n < 16
    ensures Unreserved(c)
  {
    if n < 10 then ('0' as int + n) as char else ('A' as int + n - 10) as char
  }

  /** The value of a hex digit of either case, as Python's unquoting reads it. */
  function HexValue(c: char): Option<int>
  {
    if '0' <= c <= '9' then Some(c as int - '0' as int)
    else if 'A' <= c <= 'F' then Some(c as int - 'A' as int + 10)
    else if 'a' <= c <= 'f' then Some(c as int - 'a' as int + 10)
    else None
  }

  /** `%XX` for each byte. */
  function PercentBytes(bs: seq<byte>): string
  {
    if |bs| == 0 then "" else ['%', HexDigit(bs[0] / 16), HexDigit(bs[0] % 16)] + PercentBytes(bs[1..])
  }

  /** A character written as itself: unreserved, or ASCII and listed in `safe`. */
  predicate Kept(c: char, safe: string)
  {
    Unreserved(c) || (c in safe && c as int < 0x80)
  }

  function EncodeChar(c: char, safe: string, plus: bool): string
  {
    if plus && c == ' ' then "+"
    else if Kept(c, safe) then [c]
    else PercentBytes(Utf8(c))
  }

  /** A character the encoder may emit: a kept one, the `%` of an escape, or `+` for `quote_plus`. */
  predicate EncodedChar(c: char, safe: string, plus: bool)
  {
    Kept(c, safe) || c == '%' || (plus && c == '+')
  }

  /** The shared encoder: `plus` selects `quote_plus`. */
  function Encode(s: string, safe: string, plus: bool): (r: string)
    ensures |r| >= |s|
  {
    if |s| == 0 then ""
    else
      PercentBytesShape(Utf8(s[0]));
      EncodeChar(s[0], safe, plus) + Encode(s[1..], safe, plus)
  }

  /**
   Every output character of the encoder is kept, the `%` of an escape, or (only for
   `quote_plus`) a `+`; `quote_plus` output never holds a space.
   */
  lemma {:induction false} EncodeAlphabet(s: string, safe: string, plus: bool)
    ensures forall i :: 0 <= i < |Encode(s, safe, plus)| ==> EncodedChar(Encode(s, safe, plus)[i], safe, plus)
    ensures plus ==> ' ' !in Encode(s, safe, plus)
    decreases |s|
  {
    if |s| > 0 {
      EncodeAlphabet(s[1..], safe, plus);
      EncodeCharAlphabet(s[0], safe, plus);
      var e := EncodeChar(s[0], safe, plus);
      var t := Encode(s[1..], safe, plus);
      var r := Encode(s, safe, plus);
      assert r == e + t;
      forall i | 0 <= i < |r|
        ensures EncodedChar(r[i], safe, plus)
      {
        if i >= |e| {
          assert r[i] == t[i - |e|];
        } else {
          assert r[i] == e[i];
        }
      }
    }
  }

  /** A character the encoder never emits is absent from every encoding. */
  lemma EncodeAvoids(s: string, safe: string, plus: bool, c: char)
    requires !EncodedChar(c, safe, plus)
    ensures c !in Encode(s, safe, plus)
  {
    EncodeAlphabet(s, safe, plus);
  }

  lemma EncodeCharAlphabet(c: char, safe: string, plus: bool)
    ensures forall i :: 0 <= i < |EncodeChar(c, safe, plus)| ==> EncodedChar(EncodeChar(c, safe, plus)[i], safe, plus)
    ensures plus ==> ' ' !in EncodeChar(c, safe, plus)
  {
    if !(plus && c == ' ') && !Kept(c, safe) {
      PercentBytesShape(Utf8(c));
    }
  }

  lemma {:induction false} PercentBytesShape(bs: seq<byte>)
    ensures |PercentBytes(bs)| == 3 * |bs|
    ensures forall i :: 0 <= i < |PercentBytes(bs)| ==> PercentBytes(bs)[i] == '%' || Unreserved(PercentBytes(bs)[i])
  {
    if |bs| > 0 {
      PercentBytesShape(bs[1..]);
    }
  }

  /** Python's `quote(s, safe)`. */
  function Quote(s: string, safe: string): string
  {
    Encode(s, safe, false)
  }

  /** Python's `quote_plus(s, safe)`: never contains a space. */
  function QuotePlus(s: string, safe: string): (r: string)
    ensures ' ' !in r
  {
    EncodeAlphabet(s, safe, true);
    Encode(s, safe, true)
  }

  function Prepend(bs: seq<byte>, o: Option<seq<byte>>): Option<seq<byte>>
  {
    match o
    case Some(rest) => Some(bs + rest)
    case None => None
  }

  /**
   Python's `unquote_to_bytes` after `+` is read as a space (the decoding half of
   `unquote_plus`): the partner used to state what the encoders preserve. `None` marks
   input no encoder produces (a bad escape or a raw non-ASCII character).
   */
  function PercentDecode(e: string): Option<seq<byte>>
    decreases |e|
  {
    if |e| == 0 then Some([])
    else if e[0] == '+' then Prepend([32], PercentDecode(e[1..]))
    else if e[0] == '%' then
      if |e| >= 3 && HexValue(e[1]).Some? && HexValue(e[2]).Some? then
        var b := 16 * HexValue(e[1]).value + HexValue(e[2]).value;
        if 0 <= b < 256 then Prepend([b], PercentDecode(e[3..])) else None
      else None
    else if e[0] as int < 0x80 then Prepend([e[0] as int], PercentDecode(e[1..]))
    else None
  }

  lemma HexRoundTrip(n: int)
    requires 0 <= n < 16
    ensures HexValue(HexDigit(n)) == Some(n)
  {
  }

  lemma {:induction false} DecodePercentBytes(bs: seq<byte>, rest: string)
    ensures PercentDecode(PercentBytes(bs) + rest) == Prepend(bs, PercentDecode(rest))
    decreases |bs|
  {
    if |bs| > 0 {
      var b := bs[0];
      var e := PercentBytes(bs) + rest;
      HexRoundTrip(b / 16);
      HexRoundTrip(b % 16);
      assert e[0] == '%' && e[1] == HexDigit(b / 16) && e[2] == HexDigit(b % 16);
      assert e[3..] == PercentBytes(bs[1..]) + rest;
      assert 16 * (b / 16) + b % 16 == b;
      assert PercentDecode(e) == Prepend([b], PercentDecode(e[3..]));
      DecodePercentBytes(bs[1..], rest);
      assert [b] + bs[1..] == bs;
      match PercentDecode(rest) {
        case None =>
        case Some(x) => assert [b] + (bs[1..] + x) == bs + x;
      }
    } else {
      assert PercentBytes(bs) + rest == rest;
      match PercentDecode(rest) {
        case None =>
        case Some(x) => assert bs + x == x;
      }
    }
  }

  lemma DecodeEncodeChar(c: char, safe: string, plus: bool, rest: string)
    requires '%' !in safe && '+' !in safe
    ensures PercentDecode(EncodeChar(c, safe, plus) + rest) == Prepend(Utf8(c), PercentDecode(rest))
  {
    if plus && c == ' ' {
      assert ("+" + rest)[1..] == rest;
    } else if Kept(c, safe) {
      assert ([c] + rest)[1..] == rest;
    } else {
      DecodePercentBytes(Utf8(c), rest);
    }
  }

  /**
   Decoding an encoded string gives back the UTF-8 bytes of the original, for any `safe`
   string that does not list `%` or `+`: nothing is lost by either encoder.
   */
  lemma {:induction false} DecodeEncode(s: string, safe: string, plus: bool)
    requires '%' !in safe && '+' !in safe
    ensures PercentDecode(Encode(s, safe, plus)) == Some(Utf8String(s))
    decreases |s|
  {
    if |s| > 0 {
      DecodeEncodeChar(s[0], safe, plus, Encode(s[1..], safe, plus));
      DecodeEncode(s[1..], safe, plus);
    }
  }

  /** A string made only of unreserved characters is its own encoding. */
  lemma {:induction false} EncodeUnreserved(s: string, safe: string, plus: bool)
    requires forall i :: 0 <= i < |s| ==> Unreserved(s[i])
    ensures Encode(s, safe, plus) == s
    decreases |s|
  {
    if |s| > 0 {
      EncodeUnreserved(s[1..], safe, plus);
      assert [s[0]] + s[1..] == s;
    }
  }

  /** Encoding works character by character: it distributes over concatenation. */
  lemma {:induction false} EncodeAppend(a: string, b: string, safe: string, plus: bool)
    ensures Encode(a + b, safe, plus) == Encode(a, safe, plus) + Encode(b, safe, plus)
    decreases |a|
  {
    if |a| > 0 {
      var e := EncodeChar(a[0], safe, plus);
      var ab := a + b;
      assert ab[0] == a[0] && ab[1..] == a[1..] + b;
      assert Encode(ab, safe, plus) == e + Encode(a[1..] + b, safe, plus);
      EncodeAppend(a[1..], b, safe, plus);
      var x := Encode(a[1..], safe, plus);
      var y := Encode(b, safe, plus);
      assert e + (x + y) == (e + x) + y;
    } else {
      assert a + b == b;
    }
  }
}
