/**
 * `encodeURIComponent` (section 19.2.6.5 of ECMA-262) and the
 * percent-decoding that undoes it (section 2.1 of RFC 3986).
 */
module UriComponent {
  import opened Wrappers
  import Utf8

  /** The characters `encodeURIComponent` leaves as they are: A-Z a-z 0-9 - _ . ! ~ * ' ( ) */
  predicate IsUnreserved(c: char) {
    || 'A' <= c <= 'Z' || 'a' <= c <= 'z' || '0' <= c <= '9'
    || c == '-' || c == '_' || c == '.' || c == '!' || c == '~'
    || c == '*' || c == '\'' || c == '(' || c == ')'
  }

  predicate IsUpperHexDigit(c: char) {
    '0' <= c <= '9' || 'A' <= c <= 'F'
  }

  /** Hex digits a decoder accepts: either case (section 2.1 of RFC 3986). */
  predicate IsHexDigit(c: char) {
    IsUpperHexDigit(c) || 'a' <= c <= 'f'
  }

  function HexValue(c: char): (n: nat)
    requires IsHexDigit(c)
    ensures n < 16
  {
    if '0' <= c <= '9' then c as int - '0' as int
    else if 'A' <= c <= 'F' then c as int - 'A' as int + 10
    else c as int - 'a' as int + 10
  }

  /** The upper-case hex digit for a nibble; `HexValue` reads it back. */
  function HexDigit(n: nat): (c: char)
    requires n < 16
    ensures IsUpperHexDigit(c) && HexValue(c) == n
  {
    if n < 10 then ('0' as int + n) as char else ('A' as int + n - 10) as char
  }

  /** Unreserved characters and `%XX` triples with upper-case hex digits, nothing else. */
  predicate IsEncodedForm(t: string)
    decreases |t|
  {
    || t == []
    || (IsUnreserved(t[0]) && IsEncodedForm(t[1..]))
    || (|t| >= 3 && t[0] == '%' && IsUpperHexDigit(t[1]) && IsUpperHexDigit(t[2]) && IsEncodedForm(t[3..]))
  }

  lemma {:induction false} EncodedFormConcat(a: string, b: string)
    requires IsEncodedForm(a) && IsEncodedForm(b)
    ensures IsEncodedForm(a + b)
  {
    if a == [] {
      assert a + b == b;
    } else if IsUnreserved(a[0]) && IsEncodedForm(a[1..]) {
      EncodedFormConcat(a[1..], b);
      assert (a + b)[1..] == a[1..] + b;
    } else {
      EncodedFormConcat(a[3..], b);
      assert (a + b)[3..] == a[3..] + b;
    }
  }

  /** Every character of an encoded form is unreserved or the '%' of a triple. */
  lemma {:induction false} EncodedFormChars(t: string)
    requires IsEncodedForm(t)
    ensures forall k :: 0 <= k < |t| ==> IsUnreserved(t[k]) || t[k] == '%'
  {
    if t != [] {
      if IsUnreserved(t[0]) && IsEncodedForm(t[1..]) {
        EncodedFormChars(t[1..]);
        assert forall k :: 1 <= k < |t| ==> t[k] == t[1..][k - 1];
      } else {
        EncodedFormChars(t[3..]);
        assert forall k :: 3 <= k < |t| ==> t[k] == t[3..][k - 3];
      }
    }
  }

  /** Each octet as `%` and two upper-case hex digits. */
  function Escape(bs: seq<Utf8.Byte>): (r: string)
    ensures |r| == 3 * |bs| && IsEncodedForm(r)
  {
    if bs == [] then []
    else
      var r := ['%', HexDigit(bs[0] / 16), HexDigit(bs[0] % 16)] + Escape(bs[1..]);
      assert r[3..] == Escape(bs[1..]);
      r
  }

  /** One code point: kept if unreserved, otherwise its UTF-8 octets escaped. */
  function EncodeChar(c: char): (r: string)
    ensures IsEncodedForm(r)
  {
    if IsUnreserved(c) then
      assert [c][1..] == [];
      [c]
    else Escape(Utf8.EncodeChar(c))
  }

  /** `encodeURIComponent` on well-formed text; its output is always an encoded form. */
  function EncodeURIComponent(s: string): (r: string)
    ensures IsEncodedForm(r)
  {
    if s == [] then []
    else
      EncodedFormConcat(EncodeChar(s[0]), EncodeURIComponent(s[1..]));
      EncodeChar(s[0]) + EncodeURIComponent(s[1..])
  }

  /** The output never holds a query delimiter, a fragment mark or a space. */
  lemma EncodedHasNoDelimiters(s: string)
    ensures var r := EncodeURIComponent(s);
      '&' !in r && '=' !in r && '?' !in r && '#' !in r && ' ' !in r
  {
    EncodedFormHasNoDelimiters(EncodeURIComponent(s));
  }

  lemma EncodedFormHasNoDelimiters(t: string)
    requires IsEncodedForm(t)
    ensures '&' !in t && '=' !in t && '?' !in t && '#' !in t && ' ' !in t
  {
    EncodedFormChars(t);
  }

  /** Text made only of unreserved characters is its own encoding. */
  lemma {:induction false} EncodeUnreservedText(s: string)
    requires forall k :: 0 <= k < |s| ==> IsUnreserved(s[k])
    ensures EncodeURIComponent(s) == s
  {
    if s != [] {
      EncodeUnreservedText(s[1..]);
      assert [s[0]] + s[1..] == s;
    }
  }

  function Prepend(bs: seq<Utf8.Byte>, rest: Option<seq<Utf8.Byte>>): Option<seq<Utf8.Byte>> {
    match rest
    case None => None
    case Some(tail) => Some(bs + tail)
  }

  /**
   * Percent-decoding to octets: `%XX` gives one octet, any other ASCII
   * character gives its own code; a broken triple or a non-ASCII character
   * is rejected.
   */
  function PercentBytes(t: string): Option<seq<Utf8.Byte>>
    decreases |t|
  {
    if t == [] then Some([])
    else if t[0] == '%' then
      if |t| >= 3 && IsHexDigit(t[1]) && IsHexDigit(t[2]) then
        Prepend([HexValue(t[1]) * 16 + HexValue(t[2])], PercentBytes(t[3..]))
      else None
    else if t[0] as int < 0x80 then
      Prepend([t[0] as int], PercentBytes(t[1..]))
    else None
  }

  /** Percent-decoding to text: the octets must be well-formed UTF-8. */
  function PercentDecode(t: string): Option<string> {
    match PercentBytes(t)
    case None => None
    case Some(bs) => Utf8.Decode(bs)
  }

  /** One escaped octet in front of any text decodes to that octet in front of the rest. */
  lemma PercentBytesTriple(b: Utf8.Byte, rest: string)
    ensures PercentBytes(['%', HexDigit(b / 16), HexDigit(b % 16)] + rest) == Prepend([b], PercentBytes(rest))
  {
    var t := ['%', HexDigit(b / 16), HexDigit(b % 16)] + rest;
    assert t[0] == '%' && t[1] == HexDigit(b / 16) && t[2] == HexDigit(b % 16);
    assert t[3..] == rest;
  }

  lemma PrependConcat(a: seq<Utf8.Byte>, b: seq<Utf8.Byte>, rest: Option<seq<Utf8.Byte>>)
    ensures Prepend(a, Prepend(b, rest)) == Prepend(a + b, rest)
  {
    if rest.Some? {
      assert a + (b + rest.value) == (a + b) + rest.value;
    }
  }

  lemma {:induction false} PercentBytesEscape(bs: seq<Utf8.Byte>, rest: string)
    ensures PercentBytes(Escape(bs) + rest) == Prepend(bs, PercentBytes(rest))
  {
    if bs == [] {
      assert Escape(bs) + rest == rest;
      PrependConcat([], [], PercentBytes(rest));
      assert Prepend([], PercentBytes(rest)) == PercentBytes(rest) by {
        if PercentBytes(rest).Some? {
          assert [] + PercentBytes(rest).value == PercentBytes(rest).value;
        }
      }
    } else {
      var head := ['%', HexDigit(bs[0] / 16), HexDigit(bs[0] % 16)];
      var tail := Escape(bs[1..]) + rest;
      assert Escape(bs) + rest == head + tail;
      PercentBytesTriple(bs[0], tail);
      PercentBytesEscape(bs[1..], rest);
      PrependConcat([bs[0]], bs[1..], PercentBytes(rest));
      assert [bs[0]] + bs[1..] == bs;
    }
  }

  lemma PercentBytesEncodeChar(c: char, rest: string)
    ensures PercentBytes(EncodeChar(c) + rest) == Prepend(Utf8.EncodeChar(c), PercentBytes(rest))
  {
    if IsUnreserved(c) {
      assert ([c] + rest)[1..] == rest;
    } else {
      PercentBytesEscape(Utf8.EncodeChar(c), rest);
    }
  }

  /** Percent-decoding an encoding gives back the UTF-8 octets of the text. */
  lemma {:induction false} PercentBytesEncode(s: string)
    ensures PercentBytes(EncodeURIComponent(s)) == Some(Utf8.Encode(s))
  {
    if s != [] {
      PercentBytesEncode(s[1..]);
      PercentBytesEncodeChar(s[0], EncodeURIComponent(s[1..]));
    }
  }

  /** Round trip: percent-decoding `encodeURIComponent(s)` recovers `s`. */
  lemma DecodeEncode(s: string)
    ensures PercentDecode(EncodeURIComponent(s)) == Some(s)
  {
    PercentBytesEncode(s);
    Utf8.DecodeEncode(s);
  }
}
