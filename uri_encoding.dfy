/**
 * ECMAScript `encodeURIComponent` (section 19.2.6.5 of ECMA-262, with the
 * Encode operation of section 19.2.6.1.1), which `urlEncodeValues` applies to
 * every leaf of the constants tree, and a percent-decoder that inverts it.
 *
 * A character is kept as it is when it is an ASCII letter or digit or one of
 * `- _ . ! ~ * ' ( )`; every other character is written as its UTF-8 octets,
 * each as `%` followed by two upper-case hexadecimal digits.
 */
module UriEncoding {
  import opened Wrappers

  /** The characters `encodeURIComponent` leaves unescaped. */
  predicate IsUnreserved(c: char) {
    ('A' <= c <= 'Z') || ('a' <= c <= 'z') || ('0' <= c <= '9')
    || c == '-' || c == '_' || c == '.' || c == '!' || c == '~'
    || c == '*' || c == '\'' || c == '(' || c == ')'
  }

  predicate IsUpperHexDigit(c: char) {
    ('0' <= c <= '9') || ('A' <= c <= 'F')
  }

  function HexDigit(d: nat): (c: char)
    requires d < 16
    ensures IsUpperHexDigit(c)
  {
    if d < 10 then ('0' as int + d) as char else ('A' as int + d - 10) as char
  }

  /** The value of a hexadecimal digit, either case. */
  function HexValue(c: char): Option<nat> {
    if '0' <= c <= '9' then Some(c as int - '0' as int)
    else if 'A' <= c <= 'F' then Some(c as int - 'A' as int + 10)
    else if 'a' <= c <= 'f' then Some(c as int - 'a' as int + 10)
    else None
  }

  lemma HexDigitValue(d: nat)
    requires d < 16
    ensures HexValue(HexDigit(d)) == Some(d)
  {
  }

  predicate IsByte(b: nat) {
    b < 256
  }

  /** The UTF-8 octets of a Unicode scalar value (section 3 of RFC 3629). */
  function Utf8(c: char): (bs: seq<nat>)
    ensures 1 <= |bs| <= 4
    ensures forall i :: 0 <= i < |bs| ==> IsByte(bs[i])
  {
    var n := c as int;
    if n < 0x80 then [n]
    else if n < 0x800 then [0xC0 + n / 64, 0x80 + n % 64]
    else if n < 0x10000 then [0xE0 + n / 4096, 0x80 + (n / 64) % 64, 0x80 + n % 64]
    else [0xF0 + n / 262144, 0x80 + (n / 4096) % 64, 0x80 + (n / 64) % 64, 0x80 + n % 64]
  }

  /** How many octets a UTF-8 sequence has, judged from its first octet; 0 when it cannot start one. */
  function Utf8Length(b0: nat): nat {
    if b0 < 0x80 then 1
    else if 0xC0 <= b0 < 0xE0 then 2
    else if 0xE0 <= b0 < 0xF0 then 3
    else if 0xF0 <= b0 < 0xF8 then 4
    else 0
  }

  /** The code point a UTF-8 sequence of the length its first octet announces stands for. */
  function Utf8Value(bs: seq<nat>): int
    requires 1 <= |bs| <= 4
  {
    var b := seq(|bs|, i requires 0 <= i < |bs| => bs[i] as int);
    if |b| == 1 then b[0]
    else if |b| == 2 then (b[0] - 0xC0) * 64 + (b[1] - 0x80)
    else if |b| == 3 then (b[0] - 0xE0) * 4096 + (b[1] - 0x80) * 64 + (b[2] - 0x80)
    else (b[0] - 0xF0) * 262144 + (b[1] - 0x80) * 4096 + (b[2] - 0x80) * 64 + (b[3] - 0x80)
  }

  predicate IsScalarValue(n: int) {
    (0 <= n < 0xD800) || (0xE000 <= n < 0x110000)
  }

  /** Decoding the octets of a character gives the character back. */
  lemma Utf8RoundTrip(c: char)
    ensures Utf8Length(Utf8(c)[0]) == |Utf8(c)|
    ensures Utf8Value(Utf8(c)) == c as int
  {
    var n := c as int;
    if n < 0x80 {
    } else if n < 0x800 {
      assert n == (n / 64) * 64 + n % 64;
    } else if n < 0x10000 {
      assert n / 64 == (n / 4096) * 64 + (n / 64) % 64;
      assert n == (n / 64) * 64 + n % 64;
    } else {
      assert n / 4096 == (n / 262144) * 64 + (n / 4096) % 64;
      assert n / 64 == (n / 4096) * 64 + (n / 64) % 64;
      assert n == (n / 64) * 64 + n % 64;
    }
  }

  /** `%XX` for one octet. */
  function PercentByte(b: nat): string
    requires IsByte(b)
  {
    ['%', HexDigit(b / 16), HexDigit(b % 16)]
  }

  function PercentBytes(bs: seq<nat>): (s: string)
    requires forall i :: 0 <= i < |bs| ==> IsByte(bs[i])
    ensures |s| == 3 * |bs|
  {
    if |bs| == 0 then [] else PercentByte(bs[0]) + PercentBytes(bs[1..])
  }

  /** What `encodeURIComponent` writes for one character. */
  function EncodeChar(c: char): string {
    if IsUnreserved(c) then [c] else PercentBytes(Utf8(c))
  }

  /** ECMAScript `encodeURIComponent`. */
  function EncodeURIComponent(s: string): string {
    if |s| == 0 then [] else EncodeChar(s[0]) + EncodeURIComponent(s[1..])
  }

  /** The octet written as `%XX` at the start of `t`, if there is one. */
  function ReadByte(t: string): Option<nat> {
    if |t| < 3 || t[0] != '%' then None
    else match (HexValue(t[1]), HexValue(t[2]))
      case (Some(hi), Some(lo)) => Some(hi * 16 + lo)
      case _ => None
  }

  /** The `n` octets written as `%XX%XX...` at the start of `t`. */
  function ReadBytes(t: string, n: nat): (r: Option<seq<nat>>)
    ensures r.Some? ==> |r.value| == n && 3 * n <= |t|
    ensures r.Some? ==> forall i :: 0 <= i < n ==> IsByte(r.value[i])
  {
    if n == 0 then Some([])
    else match ReadByte(t)
      case None => None
      case Some(b) =>
        match ReadBytes(t[3..], n - 1)
        case None => None
        case Some(rest) => Some([b] + rest)
  }

  /**
   * Percent-decoding: every `%XX` group sequence that is the UTF-8 form of a
   * character becomes that character; any other character is kept.  None when a
   * `%` does not start such a sequence.
   */
  function PercentDecode(t: string): Option<string>
    decreases |t|
  {
    if |t| == 0 then Some([])
    else if t[0] != '%' then
      match PercentDecode(t[1..])
      case None => None
      case Some(rest) => Some([t[0]] + rest)
    else
      match ReadByte(t)
      case None => None
      case Some(b0) =>
        var n := Utf8Length(b0);
        if n == 0 then None
        else match ReadBytes(t, n)
          case None => None
          case Some(bs) =>
            var cp := Utf8Value(bs);
            if !IsScalarValue(cp) || Utf8(cp as char) != bs then None
            else
              match PercentDecode(t[3 * n..])
              case None => None
              case Some(rest) => Some([cp as char] + rest)
  }

  lemma {:induction false} ReadPercentBytes(bs: seq<nat>, rest: string)
    requires forall i :: 0 <= i < |bs| ==> IsByte(bs[i])
    ensures ReadBytes(PercentBytes(bs) + rest, |bs|) == Some(bs)
  {
    if |bs| > 0 {
      var t := PercentBytes(bs) + rest;
      HexDigitValue(bs[0] / 16);
      HexDigitValue(bs[0] % 16);
      assert t[..3] == PercentByte(bs[0]);
      assert ReadByte(t) == Some(bs[0]);
      assert t[3..] == PercentBytes(bs[1..]) + rest;
      ReadPercentBytes(bs[1..], rest);
      assert [bs[0]] + bs[1..] == bs;
    }
  }

  /** Decoding what one character encodes to gives the character back. */
  lemma DecodeEncodedChar(c: char, rest: string)
    ensures PercentDecode(EncodeChar(c) + rest) ==
      match PercentDecode(rest) case None => None case Some(r) => Some([c] + r)
  {
    var t := EncodeChar(c) + rest;
    if IsUnreserved(c) {
      assert t[0] == c && t[1..] == rest;
    } else {
      var bs := Utf8(c);
      ReadPercentBytes(bs, rest);
      Utf8RoundTrip(c);
      HexDigitValue(bs[0] / 16);
      HexDigitValue(bs[0] % 16);
      assert t[..3] == PercentByte(bs[0]);
      assert ReadByte(t) == Some(bs[0]);
      assert t[3 * |bs|..] == rest;
    }
  }

  /** Percent-decoding undoes `encodeURIComponent`: no two strings encode alike. */
  lemma {:induction false} DecodeEncode(s: string)
    ensures PercentDecode(EncodeURIComponent(s)) == Some(s)
  {
    if |s| > 0 {
      DecodeEncode(s[1..]);
      DecodeEncodedChar(s[0], EncodeURIComponent(s[1..]));
      assert [s[0]] + s[1..] == s;
    }
  }

  /** What `encodeURIComponent` writes is URL-safe: unreserved characters, `%` and upper-case hex digits. */
  lemma {:induction false} EncodedIsUrlSafe(s: string)
    ensures forall c :: c in EncodeURIComponent(s) ==> IsUnreserved(c) || c == '%' || IsUpperHexDigit(c)
  {
    if |s| > 0 {
      EncodedIsUrlSafe(s[1..]);
      if !IsUnreserved(s[0]) {
        PercentBytesSafe(Utf8(s[0]));
      }
    }
  }

  lemma {:induction false} PercentBytesSafe(bs: seq<nat>)
    requires forall i :: 0 <= i < |bs| ==> IsByte(bs[i])
    ensures forall c :: c in PercentBytes(bs) ==> c == '%' || IsUpperHexDigit(c)
  {
    if |bs| > 0 {
      PercentBytesSafe(bs[1..]);
    }
  }

  /** A string comes back unchanged exactly when all its characters are unreserved. */
  lemma {:induction false} EncodeKeepsExactlyUnreserved(s: string)
    ensures EncodeURIComponent(s) == s <==> forall i :: 0 <= i < |s| ==> IsUnreserved(s[i])
  {
    if |s| > 0 {
      EncodeKeepsExactlyUnreserved(s[1..]);
      var e := EncodeURIComponent(s);
      if IsUnreserved(s[0]) {
        assert e == [s[0]] + EncodeURIComponent(s[1..]);
        assert s == [s[0]] + s[1..];
        if forall i :: 0 <= i < |s| ==> IsUnreserved(s[i]) {
          assert forall i :: 0 <= i < |s[1..]| ==> IsUnreserved(s[1..][i]) by {
            forall i | 0 <= i < |s[1..]| ensures IsUnreserved(s[1..][i]) {
              assert s[1..][i] == s[i + 1];
            }
          }
        } else {
          var i :| 0 <= i < |s| && !IsUnreserved(s[i]);
          assert s[1..][i - 1] == s[i];
        }
      } else {
        EncodeLength(s[1..]);
        assert |e| > |s|;
      }
    }
  }

  /** Encoding never shortens a string. */
  lemma {:induction false} EncodeLength(s: string)
    ensures |EncodeURIComponent(s)| >= |s|
  {
    if |s| > 0 {
      EncodeLength(s[1..]);
    }
  }

  /** Encoding works character by character. */
  lemma {:induction false} EncodeConcat(a: string, b: string)
    ensures EncodeURIComponent(a + b) == EncodeURIComponent(a) + EncodeURIComponent(b)
  {
    if |a| > 0 {
      assert (a + b)[1..] == a[1..] + b;
      EncodeConcat(a[1..], b);
    } else {
      assert a + b == b;
    }
  }

  /** A space and an ampersand are reserved, each one octet long. */
  lemma EncodeSpaceAndAmpersand()
    ensures EncodeChar(' ') == "%20" && EncodeChar('&') == "%26"
  {
    assert Utf8(' ') == [0x20];
    assert Utf8('&') == [0x26];
  }

  /** The example that motivates the `@ENCODED` branch: a space and an ampersand are escaped. */
  lemma EncodeExample()
    ensures EncodeURIComponent("a b&c") == "a%20b%26c"
  {
    EncodeSpaceAndAmpersand();
    assert EncodeURIComponent("c") == "c";
    assert EncodeURIComponent("&c") == "%26" + "c";
    assert EncodeURIComponent("b&c") == "b" + "%26c";
    assert EncodeURIComponent(" b&c") == "%20" + "b%26c";
    assert EncodeURIComponent("a b&c") == "a" + "%20b%26c";
  }
}
