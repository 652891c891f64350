/**
 * `encodeURIComponent`: every character outside the unreserved set is
 * written as the percent-encoded octets of its UTF-8 form (RFC 3986
 * section 2.1, RFC 3629 section 3), and `decodeURIComponent`, its inverse,
 * which a mail client applies to the fields of a `mailto` link.
 */
module UriEncoding {
  import opened Wrappers

  /** An octet. */
  type Byte = b: int | 0 <= b < 256

  /**
   * The characters `encodeURIComponent` leaves as they are: ASCII letters
   * and digits and `- _ . ! ~ * ' ( )`.
   */
  predicate IsUriUnreserved(c: char) {
    ('A' <= c <= 'Z') || ('a' <= c <= 'z') || ('0' <= c <= '9')
    || c == '-' || c == '_' || c == '.' || c == '!' || c == '~' || c == '*' || c == '\'' || c == '(' || c == ')'
  }

  /** The UTF-8 form of one Unicode scalar value: one to four octets. */
  function Utf8(c: char): (bs: seq<Byte>)
    ensures 1 <= |bs| <= 4
    ensures (|bs| == 1) == (c as int < 0x80)
  {
    var n := c as int;
    if n < 0x80 then [n]
    else if n < 0x800 then [0xC0 + n / 64, 0x80 + n % 64]
    else if n < 0x10000 then [0xE0 + n / 4096, 0x80 + (n / 64) % 64, 0x80 + n % 64]
    else [0xF0 + n / 262144, 0x80 + (n / 4096) % 64, 0x80 + (n / 64) % 64, 0x80 + n % 64]
  }

  /** The upper-case hexadecimal digit for a value below 16. */
  function HexDigit(d: int): (c: char)
    requires 0 <= d < 16
    ensures IsUriUnreserved(c)
  {
    if d < 10 then ('0' as int + d) as char else ('A' as int + d - 10) as char
  }

  /** `%XX` for one octet, with upper-case digits. */
  function PercentOctet(b: Byte): string {
    ['%', HexDigit(b / 16), HexDigit(b % 16)]
  }

  /** The percent-encoding of a sequence of octets. */
  function PercentOctets(bs: seq<Byte>): (r: string)
    ensures |r| == 3 * |bs|
    decreases |bs|
  {
    if bs == [] then [] else PercentOctet(bs[0]) + PercentOctets(bs[1..])
  }

  /** One character of `encodeURIComponent`'s output. */
  function EncodeChar(c: char): string {
    if IsUriUnreserved(c) then [c] else PercentOctets(Utf8(c))
  }

  /**
   * `encodeURIComponent`. Its result holds unreserved characters and `%`
   * only, so no `&`, `=` or `#` that would end a field of a URI query.
   */
  function EncodeUriComponent(s: string): (r: string)
    ensures forall i :: 0 <= i < |r| ==> IsUriUnreserved(r[i]) || r[i] == '%'
    decreases |s|
  {
    if s == [] then []
    else
      var h := EncodeChar(s[0]);
      assert forall i :: 0 <= i < |h| ==> IsUriUnreserved(h[i]) || h[i] == '%' by {
        if !IsUriUnreserved(s[0]) {
          PercentOctetsChars(Utf8(s[0]));
        }
      }
      h + EncodeUriComponent(s[1..])
  }

  /** Encoding works character by character: it distributes over concatenation. */
  lemma {:induction false} EncodeConcat(a: string, b: string)
    ensures EncodeUriComponent(a + b) == EncodeUriComponent(a) + EncodeUriComponent(b)
    decreases |a|
  {
    if a == [] {
      assert a + b == b;
    } else {
      assert (a + b)[0] == a[0] && (a + b)[1..] == a[1..] + b;
      EncodeConcat(a[1..], b);
    }
  }

  /** A text of unreserved characters only is its own encoding. */
  lemma {:induction false} EncodeUnreserved(s: string)
    requires forall i :: 0 <= i < |s| ==> IsUriUnreserved(s[i])
    ensures EncodeUriComponent(s) == s
    decreases |s|
  {
    if s != [] {
      EncodeUnreserved(s[1..]);
    }
  }

  /** Percent-encoded octets are `%` signs and hexadecimal digits. */
  lemma {:induction false} PercentOctetsChars(bs: seq<Byte>)
    ensures forall i :: 0 <= i < |PercentOctets(bs)| ==> IsUriUnreserved(PercentOctets(bs)[i]) || PercentOctets(bs)[i] == '%'
    decreases |bs|
  {
    if bs != [] {
      PercentOctetsChars(bs[1..]);
      var r := PercentOctets(bs);
      assert r == PercentOctet(bs[0]) + PercentOctets(bs[1..]);
      forall i | 3 <= i < |r| ensures r[i] == PercentOctets(bs[1..])[i - 3] { }
    }
  }

  /** The value of a hexadecimal digit of either case. */
  function HexValue(c: char): (r: Option<int>)
    ensures r.Some? ==> 0 <= r.value < 16
  {
    if '0' <= c <= '9' then Some(c as int - '0' as int)
    else if 'A' <= c <= 'F' then Some(c as int - 'A' as int + 10)
    else if 'a' <= c <= 'f' then Some(c as int - 'a' as int + 10)
    else None
  }

  /** The octet written as `%XX` at the start of `s`. */
  function OctetAt(s: string): (r: Option<Byte>)
  {
    if |s| >= 3 && s[0] == '%' && HexValue(s[1]).Some? && HexValue(s[2]).Some?
    then Some(16 * HexValue(s[1]).value + HexValue(s[2]).value)
    else None
  }

  /** The six payload bits of a UTF-8 continuation octet `10xxxxxx`; None for any other octet. */
  function Continuation(b: Option<Byte>): (r: Option<int>)
    ensures r.Some? ==> 0 <= r.value < 64
  {
    match b
    case Some(b) => if 0x80 <= b < 0xC0 then Some(b - 0x80) else None
    case None => None
  }

  /** The payload bits of a continuation octet written at the start of `s`. */
  function ContinuationAt(s: string): (r: Option<int>)
    ensures r.Some? ==> 0 <= r.value < 64
  {
    Continuation(OctetAt(s))
  }

  /**
   * One character written as the percent-encoded UTF-8 octets at the start
   * of `s`, with the number of characters those octets take; None for a
   * malformed, overlong or out-of-range sequence.
   */
  function DecodeEscape(s: string): (r: Option<(char, nat)>)
    ensures r.Some? ==> 3 <= r.value.1 <= |s|
  {
    match OctetAt(s)
    case None => None
    case Some(b0) =>
      if b0 < 0x80 then Some((b0 as char, 3))
      else if 0xC0 <= b0 < 0xE0 then
        match ContinuationAt(s[3..])
        case None => None
        case Some(c1) =>
          var n := (b0 - 0xC0) * 64 + c1;
          if n < 0x80 then None else Some((n as char, 6))
      else if 0xE0 <= b0 < 0xF0 then
        match (ContinuationAt(s[3..]), if |s| >= 6 then ContinuationAt(s[6..]) else None)
        case (Some(c1), Some(c2)) =>
          var n := (b0 - 0xE0) * 4096 + c1 * 64 + c2;
          if n < 0x800 || (0xD800 <= n < 0xE000) then None else Some((n as char, 9))
        case _ => None
      else if 0xF0 <= b0 < 0xF8 then
        match (ContinuationAt(s[3..]), if |s| >= 6 then ContinuationAt(s[6..]) else None,
               if |s| >= 9 then ContinuationAt(s[9..]) else None)
        case (Some(c1), Some(c2), Some(c3)) =>
          var n := (b0 - 0xF0) * 262144 + c1 * 4096 + c2 * 64 + c3;
          if n < 0x10000 || n > 0x10FFFF then None else Some((n as char, 12))
        case _ => None
      else None
  }

  /** `Some(c + t)` when the rest decoded to `t`. */
  function Prepend(c: char, rest: Option<string>): Option<string> {
    match rest
    case Some(t) => Some([c] + t)
    case None => None
  }

  /**
   * `decodeURIComponent`: escapes are decoded as UTF-8, other characters are
   * kept; None where it would throw a URIError.
   */
  function DecodeUriComponent(s: string): Option<string>
    decreases |s|
  {
    if s == [] then Some([])
    else if s[0] != '%' then Prepend(s[0], DecodeUriComponent(s[1..]))
    else
      match DecodeEscape(s)
      case None => None
      case Some((c, n)) => Prepend(c, DecodeUriComponent(s[n..]))
  }

  /** The suffix of an encoding after `k` octets is the encoding of the remaining octets. */
  lemma {:induction false} PercentOctetsSuffix(bs: seq<Byte>, k: nat)
    requires k <= |bs|
    ensures PercentOctets(bs)[3 * k..] == PercentOctets(bs[k..])
    decreases k
  {
    if k > 0 {
      PercentOctetsSuffix(bs[1..], k - 1);
      assert bs[1..][k - 1..] == bs[k..];
      assert PercentOctets(bs)[3..] == PercentOctets(bs[1..]);
    }
  }

  /** A hexadecimal digit reads back as its value. */
  lemma HexDigitValue(d: int)
    requires 0 <= d < 16
    ensures HexValue(HexDigit(d)) == Some(d)
  {
  }

  /** An encoded octet, followed by anything, reads back as that octet. */
  lemma OctetAtEncoded(b: Byte, t: string)
    ensures OctetAt(PercentOctet(b) + t) == Some(b)
  {
    HexDigitValue(b / 16);
    HexDigitValue(b % 16);
    var s := PercentOctet(b) + t;
    assert s[0] == '%' && s[1] == HexDigit(b / 16) && s[2] == HexDigit(b % 16);
  }

  /** Dropping a prefix no longer than `a` from `a + t`. */
  lemma DropFromConcat(a: string, t: string, i: nat)
    requires i <= |a|
    ensures (a + t)[i..] == a[i..] + t
  {
  }

  /** An encoding from its `k`-th octet on: that octet's escape, then the rest. */
  lemma EncodingFrom(bs: seq<Byte>, k: nat)
    requires k < |bs|
    ensures PercentOctets(bs)[3 * k..] == PercentOctet(bs[k]) + PercentOctets(bs[k + 1..])
  {
    PercentOctetsSuffix(bs, k);
    var rest := bs[k..];
    assert rest[0] == bs[k];
    assert rest[1..] == bs[k + 1..];
  }

  /** An encoding followed by `t`, from its `k`-th octet on. */
  lemma EncodingWithTailFrom(bs: seq<Byte>, t: string, k: nat)
    requires k < |bs|
    ensures (PercentOctets(bs) + t)[3 * k..] == PercentOctet(bs[k]) + (PercentOctets(bs[k + 1..]) + t)
  {
    EncodingFrom(bs, k);
    DropFromConcat(PercentOctets(bs), t, 3 * k);
    Associative(PercentOctet(bs[k]), PercentOctets(bs[k + 1..]), t);
  }

  /** Concatenation is associative. */
  lemma Associative(a: string, b: string, c: string)
    ensures (a + b) + c == a + (b + c)
  {
  }

  /** The `k`-th octet of an encoding, read from where it starts. */
  lemma OctetOfEncoding(bs: seq<Byte>, t: string, k: nat)
    requires k < |bs|
    ensures OctetAt((PercentOctets(bs) + t)[3 * k..]) == Some(bs[k])
  {
    EncodingWithTailFrom(bs, t, k);
    OctetAtEncoded(bs[k], PercentOctets(bs[k + 1..]) + t);
  }

  /** The digits of a scalar value in base 64 recombine to it. */
  lemma Base64Digits(n: int)
    requires 0 <= n
    ensures n / 4096 == (n / 64) / 64
    ensures n / 262144 == (n / 4096) / 64
    ensures n == (n / 64) * 64 + n % 64
    ensures n == (n / 4096) * 4096 + ((n / 64) % 64) * 64 + n % 64
    ensures n == (n / 262144) * 262144 + ((n / 4096) % 64) * 4096 + ((n / 64) % 64) * 64 + n % 64
  {
    var a := n / 64;
    var b := a / 64;
    var c := b / 64;
    assert n == 64 * a + n % 64;
    assert a == 64 * b + a % 64;
    assert b == 64 * c + b % 64;
    assert n == 4096 * b + 64 * (a % 64) + n % 64;
    assert n / 4096 == b;
    assert n == 262144 * c + 4096 * (b % 64) + 64 * (a % 64) + n % 64;
    assert n / 262144 == c;
  }

  /** The percent-encoded UTF-8 octets of a character decode to that character. */
  lemma DecodeEscapeOfUtf8(c: char, t: string)
    ensures DecodeEscape(PercentOctets(Utf8(c)) + t) == Some((c, 3 * |Utf8(c)|))
  {
    var n := c as int;
    if n < 0x80 {
      OctetOfEncoding(Utf8(c), t, 0);
      assert PercentOctets(Utf8(c)) + t == (PercentOctets(Utf8(c)) + t)[0..];
    } else if n < 0x800 {
      DecodeEscapeTwo(c, t);
    } else if n < 0x10000 {
      DecodeEscapeThree(c, t);
    } else {
      DecodeEscapeFour(c, t);
    }
  }

  /** The continuation octet `k` of an encoding, read from where it starts. */
  lemma ContinuationOfEncoding(bs: seq<Byte>, t: string, k: nat)
    requires 0 < k < |bs| && 0x80 <= bs[k] < 0xC0
    ensures ContinuationAt((PercentOctets(bs) + t)[3 * k..]) == Some(bs[k] as int - 0x80)
  {
    OctetOfEncoding(bs, t, k);
    assert Continuation(Some(bs[k])) == Some(bs[k] as int - 0x80);
  }

  /** The octets of a two-octet character: a lead octet `110xxxxx`, a continuation, and the bits they carry. */
  lemma Utf8Two(c: char)
    requires 0x80 <= c as int < 0x800
    ensures var bs := Utf8(c);
            && |bs| == 2 && 0xC0 <= bs[0] < 0xE0 && 0x80 <= bs[1] < 0xC0
            && (bs[0] as int - 0xC0) * 64 + (bs[1] as int - 0x80) == c as int
  {
    Base64Digits(c as int);
  }

  /** The octets of a three-octet character: a lead octet `1110xxxx`, two continuations, and the bits they carry. */
  lemma Utf8Three(c: char)
    requires 0x800 <= c as int < 0x10000
    ensures var bs := Utf8(c);
            && |bs| == 3 && 0xE0 <= bs[0] < 0xF0 && 0x80 <= bs[1] < 0xC0 && 0x80 <= bs[2] < 0xC0
            && (bs[0] as int - 0xE0) * 4096 + (bs[1] as int - 0x80) * 64 + (bs[2] as int - 0x80) == c as int
  {
    Base64Digits(c as int);
  }

  /** The octets of a four-octet character: a lead octet `11110xxx`, three continuations, and the bits they carry. */
  lemma Utf8Four(c: char)
    requires 0x10000 <= c as int
    ensures var bs := Utf8(c);
            && |bs| == 4 && 0xF0 <= bs[0] < 0xF8 && 0x80 <= bs[1] < 0xC0 && 0x80 <= bs[2] < 0xC0 && 0x80 <= bs[3] < 0xC0
            && (bs[0] as int - 0xF0) * 262144 + (bs[1] as int - 0x80) * 4096 + (bs[2] as int - 0x80) * 64 + (bs[3] as int - 0x80) == c as int
  {
    Base64Digits(c as int);
  }

  /** An escape whose lead octet announces two octets decodes from the bits of both. */
  lemma DecodeTwoOctets(s: string, b0: Byte, c1: int, n: int)
    requires OctetAt(s) == Some(b0) && 0xC0 <= b0 < 0xE0 && ContinuationAt(s[3..]) == Some(c1)
    requires n == (b0 as int - 0xC0) * 64 + c1 && 0x80 <= n < 0x800
    ensures DecodeEscape(s) == Some((n as char, 6))
  {
  }

  /** An escape whose lead octet announces three octets decodes from the bits of all three. */
  lemma DecodeThreeOctets(s: string, b0: Byte, c1: int, c2: int, n: int)
    requires |s| >= 6 && OctetAt(s) == Some(b0) && 0xE0 <= b0 < 0xF0
    requires ContinuationAt(s[3..]) == Some(c1) && ContinuationAt(s[6..]) == Some(c2)
    requires n == (b0 as int - 0xE0) * 4096 + c1 * 64 + c2 && 0x800 <= n < 0x10000 && !(0xD800 <= n < 0xE000)
    ensures DecodeEscape(s) == Some((n as char, 9))
  {
  }

  /** An escape whose lead octet announces four octets decodes from the bits of all four. */
  lemma DecodeFourOctets(s: string, b0: Byte, c1: int, c2: int, c3: int, n: int)
    requires |s| >= 9 && OctetAt(s) == Some(b0) && 0xF0 <= b0 < 0xF8
    requires ContinuationAt(s[3..]) == Some(c1) && ContinuationAt(s[6..]) == Some(c2) && ContinuationAt(s[9..]) == Some(c3)
    requires n == (b0 as int - 0xF0) * 262144 + c1 * 4096 + c2 * 64 + c3 && 0x10000 <= n <= 0x10FFFF
    ensures DecodeEscape(s) == Some((n as char, 12))
  {
  }

  /** The escapes of a two-octet sequence decode to the value its bits carry. */
  lemma DecodeEscapedTwo(bs: seq<Byte>, t: string)
    requires |bs| == 2 && 0xC0 <= bs[0] < 0xE0 && 0x80 <= bs[1] < 0xC0
    requires (bs[0] as int - 0xC0) * 64 + (bs[1] as int - 0x80) >= 0x80
    ensures DecodeEscape(PercentOctets(bs) + t) == Some((((bs[0] as int - 0xC0) * 64 + (bs[1] as int - 0x80)) as char, 6))
  {
    var s := PercentOctets(bs) + t;
    OctetOfEncoding(bs, t, 0);
    assert s[0..] == s;
    ContinuationOfEncoding(bs, t, 1);
    DecodeTwoOctets(s, bs[0], bs[1] as int - 0x80, (bs[0] as int - 0xC0) * 64 + (bs[1] as int - 0x80));
  }

  /** The escapes of a three-octet sequence decode to the value its bits carry. */
  lemma DecodeEscapedThree(bs: seq<Byte>, t: string)
    requires |bs| == 3 && 0xE0 <= bs[0] < 0xF0 && 0x80 <= bs[1] < 0xC0 && 0x80 <= bs[2] < 0xC0
    requires var n := (bs[0] as int - 0xE0) * 4096 + (bs[1] as int - 0x80) * 64 + (bs[2] as int - 0x80);
             0x800 <= n < 0x10000 && !(0xD800 <= n < 0xE000)
    ensures DecodeEscape(PercentOctets(bs) + t)
            == Some((((bs[0] as int - 0xE0) * 4096 + (bs[1] as int - 0x80) * 64 + (bs[2] as int - 0x80)) as char, 9))
  {
    var s := PercentOctets(bs) + t;
    OctetOfEncoding(bs, t, 0);
    assert s[0..] == s;
    var c1, c2 := bs[1] as int - 0x80, bs[2] as int - 0x80;
    ContinuationOfEncoding(bs, t, 1);
    ContinuationOfEncoding(bs, t, 2);
    assert |s| >= 6 && ContinuationAt(s[3..]) == Some(c1) && ContinuationAt(s[6..]) == Some(c2);
    DecodeThreeOctets(s, bs[0], c1, c2, (bs[0] as int - 0xE0) * 4096 + (bs[1] as int - 0x80) * 64 + (bs[2] as int - 0x80));
  }

  /** The escapes of a four-octet sequence decode to the value its bits carry. */
  lemma DecodeEscapedFour(bs: seq<Byte>, t: string)
    requires |bs| == 4 && 0xF0 <= bs[0] < 0xF8 && 0x80 <= bs[1] < 0xC0 && 0x80 <= bs[2] < 0xC0 && 0x80 <= bs[3] < 0xC0
    requires var n := (bs[0] as int - 0xF0) * 262144 + (bs[1] as int - 0x80) * 4096 + (bs[2] as int - 0x80) * 64 + (bs[3] as int - 0x80);
             0x10000 <= n <= 0x10FFFF
    ensures DecodeEscape(PercentOctets(bs) + t)
            == Some((((bs[0] as int - 0xF0) * 262144 + (bs[1] as int - 0x80) * 4096 + (bs[2] as int - 0x80) * 64 + (bs[3] as int - 0x80)) as char, 12))
  {
    var s := PercentOctets(bs) + t;
    OctetOfEncoding(bs, t, 0);
    assert s[0..] == s;
    var c1, c2, c3 := bs[1] as int - 0x80, bs[2] as int - 0x80, bs[3] as int - 0x80;
    ContinuationOfEncoding(bs, t, 1);
    ContinuationOfEncoding(bs, t, 2);
    ContinuationOfEncoding(bs, t, 3);
    assert |s| >= 9 && ContinuationAt(s[3..]) == Some(c1) && ContinuationAt(s[6..]) == Some(c2) && ContinuationAt(s[9..]) == Some(c3);
    DecodeFourOctets(s, bs[0], c1, c2, c3,
                     (bs[0] as int - 0xF0) * 262144 + (bs[1] as int - 0x80) * 4096 + (bs[2] as int - 0x80) * 64 + (bs[3] as int - 0x80));
  }

  /** Two-octet characters, U+0080 to U+07FF. */
  lemma DecodeEscapeTwo(c: char, t: string)
    requires 0x80 <= c as int < 0x800
    ensures DecodeEscape(PercentOctets(Utf8(c)) + t) == Some((c, 6))
  {
    Utf8Two(c);
    DecodeEscapedTwo(Utf8(c), t);
  }

  /** Three-octet characters, U+0800 to U+FFFF without the surrogates. */
  lemma DecodeEscapeThree(c: char, t: string)
    requires 0x800 <= c as int < 0x10000
    ensures DecodeEscape(PercentOctets(Utf8(c)) + t) == Some((c, 9))
  {
    Utf8Three(c);
    DecodeEscapedThree(Utf8(c), t);
  }

  /** Four-octet characters, U+10000 to U+10FFFF. */
  lemma DecodeEscapeFour(c: char, t: string)
    requires 0x10000 <= c as int
    ensures DecodeEscape(PercentOctets(Utf8(c)) + t) == Some((c, 12))
  {
    Utf8Four(c);
    DecodeEscapedFour(Utf8(c), t);
  }

  /** Decoding an encoded character followed by more text yields the character, then the rest decoded. */
  lemma DecodeEncodedChar(c: char, t: string)
    ensures DecodeUriComponent(EncodeChar(c) + t) == Prepend(c, DecodeUriComponent(t))
  {
    var s := EncodeChar(c) + t;
    if IsUriUnreserved(c) {
      assert s[0] == c && s[1..] == t;
    } else {
      var bs := Utf8(c);
      DecodeEscapeOfUtf8(c, t);
      OctetOfEncoding(bs, t, 0);
      assert s[0] == '%';
      assert s[3 * |bs|..] == t;
    }
  }

  /** `decodeURIComponent` undoes `encodeURIComponent`: the mail client recovers the text exactly. */
  lemma {:induction false} DecodeEncode(s: string)
    ensures DecodeUriComponent(EncodeUriComponent(s)) == Some(s)
    decreases |s|
  {
    if s != [] {
      DecodeEncode(s[1..]);
      DecodeEncodedChar(s[0], EncodeUriComponent(s[1..]));
      assert [s[0]] + s[1..] == s;
    }
  }
}
