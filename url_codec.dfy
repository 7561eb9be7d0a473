/** application/x-www-form-urlencoded text (HTML 4.01, section 17.13.4.1) as
    java.net.URLEncoder and java.net.URLDecoder produce and read it with the
    UTF-8 charset: letters, digits and ".-*_" stay, a space becomes '+',
    every other character becomes one %XX escape per UTF-8 byte. */
module UrlCodec {
  import opened Wrappers
  import opened Text

  predicate Unreserved(c: char)
  {
    ('a' <= c <= 'z') || ('A' <= c <= 'Z') || ('0' <= c <= '9')
    || c == '.' || c == '-' || c == '*' || c == '_'
  }

  predicate NeedsEscape(c: char) { !Unreserved(c) && c != ' ' }

  predicate IsByte(b: int) { 0 <= b < 256 }

  predicate AreBytes(bytes: seq<int>) { forall i :: 0 <= i < |bytes| ==> IsByte(bytes[i]) }

  /** The UTF-8 encoding of one Unicode scalar value. */
  function Utf8(c: char): (bytes: seq<int>)
    ensures 1 <= |bytes| <= 4 && AreBytes(bytes)
    ensures |bytes| == 1 <==> c as int < 0x80
    ensures |bytes| == 1 ==> bytes[0] == c as int
    ensures |bytes| > 1 ==> forall i :: 0 <= i < |bytes| ==> bytes[i] >= 0x80
  {
    var n := c as int;
    if n < 0x80 then [n]
    else if n < 0x800 then [0xC0 + n / 64, 0x80 + n % 64]
    else if n < 0x10000 then [0xE0 + n / 4096, 0x80 + (n / 64) % 64, 0x80 + n % 64]
    else [0xF0 + n / 0x40000, 0x80 + (n / 4096) % 64, 0x80 + (n / 64) % 64, 0x80 + n % 64]
  }

  function Utf8All(s: string): (bytes: seq<int>)
    ensures AreBytes(bytes)
    ensures s != [] ==> bytes != []
  {
    if s == [] then [] else Utf8(s[0]) + Utf8All(s[1..])
  }

  predicate IsContinuation(b: int) { 0x80 <= b < 0xC0 }

  /** The scalar value a well-formed UTF-8 sequence starts with, and how many
      bytes it takes; None for a malformed, overlong or surrogate sequence. */
  function FirstScalar(bytes: seq<int>): (r: Option<(char, nat)>)
    requires |bytes| > 0 && AreBytes(bytes)
    ensures r.Some? ==> 1 <= r.value.1 <= |bytes|
  {
    var b0 := bytes[0];
    if b0 < 0x80 then Some((b0 as char, 1))
    else if 0xC2 <= b0 < 0xE0 then
      if |bytes| >= 2 && IsContinuation(bytes[1]) then
        Some((((b0 - 0xC0) * 64 + (bytes[1] - 0x80)) as char, 2))
      else None
    else if 0xE0 <= b0 < 0xF0 then
      if |bytes| >= 3 && IsContinuation(bytes[1]) && IsContinuation(bytes[2]) then
        var n := (b0 - 0xE0) * 4096 + (bytes[1] - 0x80) * 64 + (bytes[2] - 0x80);
        if 0x800 <= n && !(0xD800 <= n < 0xE000) then Some((n as char, 3)) else None
      else None
    else if 0xF0 <= b0 < 0xF5 then
      if |bytes| >= 4 && IsContinuation(bytes[1]) && IsContinuation(bytes[2]) && IsContinuation(bytes[3]) then
        var n := (b0 - 0xF0) * 0x40000 + (bytes[1] - 0x80) * 4096 + (bytes[2] - 0x80) * 64 + (bytes[3] - 0x80);
        if 0x10000 <= n < 0x110000 then Some((n as char, 4)) else None
      else None
    else None
  }

  function DecodeUtf8(bytes: seq<int>): Option<string>
    requires AreBytes(bytes)
    decreases |bytes|
  {
    if bytes == [] then Some([])
    else match FirstScalar(bytes)
      case None => None
      case Some((c, n)) =>
        match DecodeUtf8(bytes[n..])
        case None => None
        case Some(rest) => Some([c] + rest)
  }

  lemma Utf8FirstScalar(c: char, rest: seq<int>)
    requires AreBytes(rest)
    ensures FirstScalar(Utf8(c) + rest) == Some((c, |Utf8(c)|))
  {
    var n := c as int;
    if n < 0x80 {
      assert (Utf8(c) + rest)[0] == n;
    } else if n < 0x800 {
      Utf8Two(c, rest);
    } else if n < 0x10000 {
      Utf8Three(c, rest);
    } else {
      Utf8Four(c, rest);
    }
  }

  lemma Utf8Two(c: char, rest: seq<int>)
    requires AreBytes(rest) && 0x80 <= c as int < 0x800
    ensures FirstScalar(Utf8(c) + rest) == Some((c, 2))
  {
    var n := c as int;
    var q, r := n / 64, n % 64;
    assert n == q * 64 + r && 0 <= r < 64 && 2 <= q < 32;
    var bytes := Utf8(c) + rest;
    assert bytes[0] == 0xC0 + q && bytes[1] == 0x80 + r;
    assert (bytes[0] - 0xC0) * 64 + (bytes[1] - 0x80) == n;
  }

  lemma Utf8Three(c: char, rest: seq<int>)
    requires AreBytes(rest) && 0x800 <= c as int < 0x10000
    ensures FirstScalar(Utf8(c) + rest) == Some((c, 3))
  {
    var n := c as int;
    var q, m, r := n / 4096, (n / 64) % 64, n % 64;
    assert n / 64 == q * 64 + m by {
      assert n == (n / 64) * 64 + r;
      assert (n / 64) == ((n / 64) / 64) * 64 + m;
      assert (n / 64) / 64 == q;
    }
    assert n == q * 4096 + m * 64 + r && 0 <= m < 64 && 0 <= r < 64 && q < 16;
    var bytes := Utf8(c) + rest;
    assert bytes[0] == 0xE0 + q && bytes[1] == 0x80 + m && bytes[2] == 0x80 + r;
    assert (bytes[0] - 0xE0) * 4096 + (bytes[1] - 0x80) * 64 + (bytes[2] - 0x80) == n;
  }

  lemma Utf8Four(c: char, rest: seq<int>)
    requires AreBytes(rest) && 0x10000 <= c as int
    ensures FirstScalar(Utf8(c) + rest) == Some((c, 4))
  {
    var n := c as int;
    var q, p, m, r := n / 0x40000, (n / 4096) % 64, (n / 64) % 64, n % 64;
    assert n / 64 == (n / 4096) * 64 + m by {
      assert n == (n / 64) * 64 + r;
      assert (n / 64) / 64 == n / 4096;
    }
    assert n / 4096 == q * 64 + p by {
      assert (n / 4096) / 64 == q;
    }
    assert n == q * 0x40000 + p * 4096 + m * 64 + r && 0 <= p < 64 && 0 <= m < 64 && 0 <= r < 64 && q < 5;
    var bytes := Utf8(c) + rest;
    assert bytes[0] == 0xF0 + q && bytes[1] == 0x80 + p && bytes[2] == 0x80 + m && bytes[3] == 0x80 + r;
    assert (bytes[0] - 0xF0) * 0x40000 + (bytes[1] - 0x80) * 4096 + (bytes[2] - 0x80) * 64 + (bytes[3] - 0x80) == n;
  }

  /** Decoding the UTF-8 encoding of a string gives the string back. */
  lemma {:induction false} Utf8RoundTrip(s: string)
    ensures DecodeUtf8(Utf8All(s)) == Some(s)
    decreases |s|
  {
    if s != [] {
      var bytes := Utf8All(s);
      Utf8FirstScalar(s[0], Utf8All(s[1..]));
      assert bytes[|Utf8(s[0])|..] == Utf8All(s[1..]);
      Utf8RoundTrip(s[1..]);
      assert s == [s[0]] + s[1..];
    }
  }

  function HexDigit(d: int, upper: bool): (c: char)
    requires 0 <= d < 16
  {
    if d < 10 then ('0' as int + d) as char
    else if upper then ('A' as int + d - 10) as char
    else ('a' as int + d - 10) as char
  }

  /** Integer.parseInt(_, 16) of one digit, in either case. */
  function HexValue(c: char): (r: Option<int>)
    ensures r.Some? ==> 0 <= r.value < 16
  {
    if '0' <= c <= '9' then Some(c as int - '0' as int)
    else if 'A' <= c <= 'F' then Some(c as int - 'A' as int + 10)
    else if 'a' <= c <= 'f' then Some(c as int - 'a' as int + 10)
    else None
  }

  lemma HexValueOfDigit(d: int, upper: bool)
    requires 0 <= d < 16
    ensures HexValue(HexDigit(d, upper)) == Some(d)
  {
  }

  function Escape(b: int, upper: bool): (e: string)
    requires IsByte(b)
    ensures |e| == 3 && e[0] == '%'
  {
    ['%', HexDigit(b / 16, upper), HexDigit(b % 16, upper)]
  }

  function Escapes(bytes: seq<int>, upper: bool): (e: string)
    requires AreBytes(bytes)
    ensures |e| == 3 * |bytes|
    ensures bytes != [] ==> e[0] == '%'
  {
    if bytes == [] then [] else Escape(bytes[0], upper) + Escapes(bytes[1..], upper)
  }

  lemma {:induction false} EscapesConcat(a: seq<int>, b: seq<int>, upper: bool)
    requires AreBytes(a) && AreBytes(b)
    ensures Escapes(a + b, upper) == Escapes(a, upper) + Escapes(b, upper)
    decreases |a|
  {
    if a != [] {
      assert (a + b)[1..] == a[1..] + b;
      EscapesConcat(a[1..], b, upper);
    } else {
      assert a + b == b;
    }
  }

  function EncodeChar(c: char, upper: bool): string
  {
    if Unreserved(c) then [c] else if c == ' ' then "+" else Escapes(Utf8(c), upper)
  }

  /** URLEncoder's output, with the escape digits in upper or lower case. */
  function EncodeWith(s: string, upper: bool): string
  {
    if s == [] then [] else EncodeChar(s[0], upper) + EncodeWith(s[1..], upper)
  }

  /** URLEncoder.encode(s, "UTF-8"). */
  function Encode(s: string): string
  {
    EncodeWith(s, true)
  }

  lemma {:induction false} EncodeWithConcat(a: string, b: string, upper: bool)
    ensures EncodeWith(a + b, upper) == EncodeWith(a, upper) + EncodeWith(b, upper)
    decreases |a|
  {
    if a != [] {
      assert (a + b)[1..] == a[1..] + b;
      EncodeWithConcat(a[1..], b, upper);
    } else {
      assert a + b == b;
    }
  }

  /** A string of characters that all need escaping is one run of escapes. */
  lemma {:induction false} EncodeEscapedOnly(e: string, upper: bool)
    requires forall i :: 0 <= i < |e| ==> NeedsEscape(e[i])
    ensures EncodeWith(e, upper) == Escapes(Utf8All(e), upper)
    decreases |e|
  {
    if e != [] {
      EncodeEscapedOnly(e[1..], upper);
      EscapesConcat(Utf8(e[0]), Utf8All(e[1..]), upper);
    }
  }

  /** The run of %XX escapes URLDecoder reads in one go: the bytes and what
      follows; None for a bad hex digit or an escape cut short. */
  function EscapeRun(s: string): (r: Option<(seq<int>, string)>)
    ensures r.Some? ==> AreBytes(r.value.0) && |r.value.1| <= |s|
    ensures r.Some? ==> r.value.1 == [] || r.value.1[0] != '%'
    ensures r.Some? && s != [] && s[0] == '%' ==> |r.value.1| < |s|
    decreases |s|
  {
    if |s| > 0 && s[0] == '%' then
      if |s| >= 3 then
        match (HexValue(s[1]), HexValue(s[2]))
        case (Some(hi), Some(lo)) =>
          (match EscapeRun(s[3..])
           case None => None
           case Some((bytes, rest)) => Some(([hi * 16 + lo] + bytes, rest)))
        case _ => None
      else None
    else Some(([], s))
  }

  /** One %XX escape at the head of a run. */
  lemma EscapeRunStep(s: string, b: int, bytes: seq<int>, rest: string)
    requires IsByte(b) && |s| >= 3 && s[0] == '%'
    requires HexValue(s[1]) == Some(b / 16) && HexValue(s[2]) == Some(b % 16)
    requires EscapeRun(s[3..]) == Some((bytes, rest))
    ensures EscapeRun(s) == Some(([b] + bytes, rest))
  {
    assert (b / 16) * 16 + b % 16 == b;
  }

  lemma EscapeHead(b: int, upper: bool, t: string)
    requires IsByte(b)
    ensures (Escape(b, upper) + t)[0] == '%'
    ensures HexValue((Escape(b, upper) + t)[1]) == Some(b / 16)
    ensures HexValue((Escape(b, upper) + t)[2]) == Some(b % 16)
    ensures (Escape(b, upper) + t)[3..] == t
  {
    HexValueOfDigit(b / 16, upper);
    HexValueOfDigit(b % 16, upper);
  }

  lemma {:induction false} EscapeRunOfEscapes(bytes: seq<int>, upper: bool, tail: string)
    requires AreBytes(bytes)
    requires tail == [] || tail[0] != '%'
    ensures EscapeRun(Escapes(bytes, upper) + tail) == Some((bytes, tail))
    decreases |bytes|
  {
    if bytes != [] {
      var b := bytes[0];
      var t := Escapes(bytes[1..], upper) + tail;
      assert Escapes(bytes, upper) + tail == Escape(b, upper) + t;
      EscapeHead(b, upper, t);
      EscapeRunOfEscapes(bytes[1..], upper, tail);
      EscapeRunStep(Escape(b, upper) + t, b, bytes[1..], tail);
      assert [b] + bytes[1..] == bytes;
    } else {
      assert Escapes(bytes, upper) + tail == tail;
    }
  }

  function Prepend(p: string, r: Option<string>): Option<string>
  {
    match r
    case None => None
    case Some(s) => Some(p + s)
  }

  /** URLDecoder.decode(s, "UTF-8"); None where it throws, and for bytes
      that are not well-formed UTF-8. */
  function Decode(s: string): Option<string>
    decreases |s|
  {
    if s == [] then Some([])
    else if s[0] == '+' then Prepend(" ", Decode(s[1..]))
    else if s[0] == '%' then
      match EscapeRun(s)
      case None => None
      case Some((bytes, rest)) =>
        match DecodeUtf8(bytes)
        case None => None
        case Some(chars) => Prepend(chars, Decode(rest))
    else Prepend([s[0]], Decode(s[1..]))
  }

  function EscapedPrefixLength(s: string): (k: nat)
    ensures k <= |s|
    ensures forall i :: 0 <= i < k ==> NeedsEscape(s[i])
    ensures k < |s| ==> !NeedsEscape(s[k])
  {
    if s != [] && NeedsEscape(s[0]) then 1 + EscapedPrefixLength(s[1..]) else 0
  }

  /** URLDecoder reads back what URLEncoder wrote, whatever the case of the
      escape digits. */
  lemma {:induction false} DecodeEncode(s: string, upper: bool)
    ensures Decode(EncodeWith(s, upper)) == Some(s)
    decreases |s|
  {
    if s != [] {
      if !NeedsEscape(s[0]) {
        DecodeEncode(s[1..], upper);
        DecodePlainStep(s, upper);
      } else {
        var k := EscapedPrefixLength(s);
        DecodeEncode(s[k..], upper);
        DecodeEscapedAt(s, k, upper);
      }
    }
  }

  lemma DecodePlainStep(s: string, upper: bool)
    requires s != [] && !NeedsEscape(s[0])
    requires Decode(EncodeWith(s[1..], upper)) == Some(s[1..])
    ensures Decode(EncodeWith(s, upper)) == Some(s)
  {
    var x := EncodeWith(s, upper);
    assert x == EncodeChar(s[0], upper) + EncodeWith(s[1..], upper);
    assert x[1..] == EncodeWith(s[1..], upper);
    if s[0] == ' ' {
      assert x[0] == '+';
      assert Decode(x) == Prepend(" ", Decode(x[1..]));
    } else {
      assert x[0] == s[0] && s[0] != '+' && s[0] != '%';
      assert Decode(x) == Prepend([s[0]], Decode(x[1..]));
    }
    assert s == [s[0]] + s[1..];
  }

  lemma DecodeEscapedStep(e: string, rest: string, upper: bool)
    requires Utf8All(e) != []
    requires EncodeWith(e + rest, upper) == Escapes(Utf8All(e), upper) + EncodeWith(rest, upper)
    requires EncodeWith(rest, upper) == [] || EncodeWith(rest, upper)[0] != '%'
    requires Decode(EncodeWith(rest, upper)) == Some(rest)
    ensures Decode(EncodeWith(e + rest, upper)) == Some(e + rest)
  {
    var bytes := Utf8All(e);
    var tail := EncodeWith(rest, upper);
    var x := Escapes(bytes, upper) + tail;
    assert x[0] == Escapes(bytes, upper)[0];
    EscapeRunOfEscapes(bytes, upper, tail);
    Utf8RoundTrip(e);
    DecodeAtEscape(x, bytes, tail, e);
  }

  lemma DecodeEscapedAt(s: string, k: nat, upper: bool)
    requires s != [] && NeedsEscape(s[0]) && k == EscapedPrefixLength(s)
    requires Decode(EncodeWith(s[k..], upper)) == Some(s[k..])
    ensures Decode(EncodeWith(s, upper)) == Some(s)
  {
    var e, rest := s[..k], s[k..];
    assert e + rest == s;
    EscapedEncoding(s, k, upper);
    DecodeEscapedStep(e, rest, upper);
  }

  /** At a '%' URLDecoder reads the whole run of escapes as UTF-8, then
      goes on after it. */
  lemma DecodeAtEscape(x: string, bytes: seq<int>, tail: string, chars: string)
    requires x != [] && x[0] == '%'
    requires EscapeRun(x) == Some((bytes, tail)) && AreBytes(bytes) && DecodeUtf8(bytes) == Some(chars)
    ensures Decode(x) == Prepend(chars, Decode(tail))
  {
  }

  /** The encoding of a string whose first k characters all need escaping:
      one run of escapes, then the encoding of the rest, which does not
      start with an escape. */
  lemma EscapedEncoding(s: string, k: nat, upper: bool)
    requires s != [] && NeedsEscape(s[0]) && k == EscapedPrefixLength(s)
    ensures 0 < k && Utf8All(s[..k]) != []
    ensures EncodeWith(s, upper) == Escapes(Utf8All(s[..k]), upper) + EncodeWith(s[k..], upper)
    ensures EncodeWith(s[k..], upper) == [] || EncodeWith(s[k..], upper)[0] != '%'
  {
    var e, rest := s[..k], s[k..];
    assert s == e + rest;
    forall i | 0 <= i < |e|
      ensures NeedsEscape(e[i])
    {
      assert e[i] == s[i];
    }
    EncodeWithConcat(e, rest, upper);
    EncodeEscapedOnly(e, upper);
    if rest != [] {
      assert EncodeWith(rest, upper) == EncodeChar(rest[0], upper) + EncodeWith(rest[1..], upper);
    }
  }

  /** Digits are written as they are. */
  lemma {:induction false} EncodeDigits(t: string)
    requires IsDigits(t)
    ensures Encode(t) == t
    decreases |t|
  {
    if t != [] {
      EncodeDigits(t[1..]);
      assert t == [t[0]] + t[1..];
    }
  }

  lemma {:induction false} LowerEscapes(bytes: seq<int>)
    requires AreBytes(bytes)
    ensures Lower(Escapes(bytes, true)) == Escapes(bytes, false)
    decreases |bytes|
  {
    if bytes != [] {
      LowerEscapes(bytes[1..]);
      LowerConcat(Escape(bytes[0], true), Escapes(bytes[1..], true));
    }
  }

  lemma LowerConcat(a: string, b: string)
    ensures Lower(a + b) == Lower(a) + Lower(b)
  {
  }

  /** Lower-casing the encoding of a lower-case string only lower-cases the
      escape digits. */
  lemma {:induction false} LowerOfEncode(s: string)
    requires HasNoUpperCase(s)
    ensures Lower(Encode(s)) == EncodeWith(s, false)
    decreases |s|
  {
    if s != [] {
      LowerOfEncode(s[1..]);
      LowerConcat(EncodeChar(s[0], true), Encode(s[1..]));
      if NeedsEscape(s[0]) {
        LowerEscapes(Utf8(s[0]));
      }
    }
  }

  /** The characters an encoding can hold: no upper-case letter other than
      an escape digit, so never 'P'. */
  lemma {:induction false} EncodeHasNoP(s: string)
    requires HasNoUpperCase(s)
    ensures 'P' !in Encode(s)
    decreases |s|
  {
    if s != [] {
      EncodeHasNoP(s[1..]);
      if NeedsEscape(s[0]) {
        EscapesAvoid(Utf8(s[0]), 'P');
      }
    }
  }

  /** Upper-case escapes hold only '%', decimal digits and 'A' to 'F'. */
  lemma {:induction false} EscapesAvoid(bytes: seq<int>, c: char)
    requires AreBytes(bytes)
    requires c != '%' && !IsDigit(c) && !('A' <= c <= 'F')
    ensures c !in Escapes(bytes, true)
    decreases |bytes|
  {
    if bytes != [] {
      EscapesAvoid(bytes[1..], c);
    }
  }

  /** Every character of an encoding is a letter, a digit, one of ".-*_",
      '+' or '%'; in particular never '/'. */
  lemma {:induction false} EncodeHasNoSlash(s: string)
    ensures '/' !in Encode(s)
    decreases |s|
  {
    if s != [] {
      EncodeHasNoSlash(s[1..]);
      if NeedsEscape(s[0]) {
        EscapesAvoid(Utf8(s[0]), '/');
      }
    }
  }

  /** The character ChatIO stores as every room's value in the cached poll
      body, standing for the cursor until the body is sent. */
  const Placeholder: char := '\U{7F}'

  const EncodedPlaceholder: string := "%7F"

  lemma EncodePlaceholder()
    ensures Encode([Placeholder]) == EncodedPlaceholder
  {
    assert Utf8(Placeholder) == [0x7F];
    assert 0x7F / 16 == 7 && 0x7F % 16 == 15;
    assert HexDigit(7, true) == '7' && HexDigit(15, true) == 'F';
    assert EncodedPlaceholder == ['%', '7', 'F'];
    assert Escape(0x7F, true) == ['%', HexDigit(7, true), HexDigit(15, true)];
    assert Escapes([0x7F], true) == Escape(0x7F, true) + Escapes([], true);
    assert !Unreserved(Placeholder) && Placeholder != ' ';
    assert [Placeholder][1..] == [];
    assert Encode([Placeholder]) == EncodeChar(Placeholder, true) + EncodeWith([], true);
  }

  /** s ends neither in "%" nor in "%7": the two proper prefixes of the
      encoded placeholder. */
  predicate EndsClean(s: string)
  {
    (|s| >= 1 ==> s[|s| - 1] != '%') && (|s| >= 2 ==> !(s[|s| - 2] == '%' && s[|s| - 1] == '7'))
  }

  lemma EndsCleanNoPartial(s: string)
    requires EndsClean(s)
    ensures NoPartialMatchAtEnd(s, EncodedPlaceholder)
  {
    var pat := EncodedPlaceholder;
    assert pat[..1] == "%" && pat[..2] == "%7";
    forall k | 0 < k < |pat|
      ensures !PartialAt(s, pat, k)
    {
      if k <= |s| {
        if k == 1 {
          assert s[|s| - 1..] == [s[|s| - 1]];
        } else {
          assert s[|s| - 2..] == [s[|s| - 2], s[|s| - 1]];
        }
      }
    }
  }

  lemma NoPartialEndsClean(s: string)
    requires NoPartialMatchAtEnd(s, EncodedPlaceholder)
    ensures EndsClean(s)
  {
    var pat := EncodedPlaceholder;
    assert pat[..1] == ['%'] && pat[..2] == ['%', '7'];
    if |s| >= 1 {
      var t := s[|s| - 1..];
      assert !PartialAt(s, pat, 1);
      assert t == [s[|s| - 1]];
    }
    if |s| >= 2 {
      var t := s[|s| - 2..];
      assert !PartialAt(s, pat, 2);
      assert t == [s[|s| - 2], s[|s| - 1]];
    }
  }

  lemma NoPartialPlaceholderConcat(a: string, b: string)
    requires NoPartialMatchAtEnd(a, EncodedPlaceholder) && NoPartialMatchAtEnd(b, EncodedPlaceholder)
    ensures NoPartialMatchAtEnd(a + b, EncodedPlaceholder)
  {
    NoPartialEndsClean(a);
    NoPartialEndsClean(b);
    var s := a + b;
    if |b| == 0 {
      assert s == a;
    } else if |b| == 1 && |a| >= 1 {
      assert s[|s| - 2] == a[|a| - 1];
    }
    EndsCleanNoPartial(s);
  }

  /** A single character other than '%' can neither hold nor start the
      encoded placeholder. */
  lemma SingleCharClean(c: char, rep: string)
    requires c != '%'
    ensures NoPartialMatchAtEnd([c], EncodedPlaceholder)
    ensures ReplaceAll([c], EncodedPlaceholder, rep) == [c]
  {
    assert EncodedPlaceholder[..1] == "%";
    assert |[c]| < |EncodedPlaceholder|;
    EndsCleanNoPartial([c]);
  }

  lemma EscapeClean(b: int, rep: string)
    requires IsByte(b) && b != 0x7F
    ensures NoPartialMatchAtEnd(Escape(b, true), EncodedPlaceholder)
    ensures ReplaceAll(Escape(b, true), EncodedPlaceholder, rep) == Escape(b, true)
  {
    var e := Escape(b, true);
    var pat := EncodedPlaceholder;
    assert pat[..1] == "%" && pat[..2] == "%7";
    assert e[|e| - 2..] == [e[1], e[2]];
    assert e[|e| - 1..] == [e[2]];
    assert e[1] != '%' && e[2] != '%';
    HexValueOfDigit(b / 16, true);
    HexValueOfDigit(b % 16, true);
    assert (e[1] == '7' && e[2] == 'F') ==> b == 0x7F;
    assert e != pat;
    assert !(pat <= e);
    assert e[1..] == [e[1], e[2]];
    assert ReplaceAll(e, pat, rep) == [e[0]] + ReplaceAll(e[1..], pat, rep);
  }

  lemma {:induction false} EscapesClean(bytes: seq<int>, rep: string)
    requires AreBytes(bytes) && 0x7F !in bytes
    ensures NoPartialMatchAtEnd(Escapes(bytes, true), EncodedPlaceholder)
    ensures ReplaceAll(Escapes(bytes, true), EncodedPlaceholder, rep) == Escapes(bytes, true)
    decreases |bytes|
  {
    if bytes != [] {
      EscapeClean(bytes[0], rep);
      EscapesClean(bytes[1..], rep);
      ReplaceAllConcat(Escape(bytes[0], true), Escapes(bytes[1..], true), EncodedPlaceholder, rep);
      NoPartialPlaceholderConcat(Escape(bytes[0], true), Escapes(bytes[1..], true));
    }
  }

  /** The encoding of a string without the placeholder holds no encoded
      placeholder, not even a beginning of one at its end. */
  lemma {:induction false} EncodeClean(s: string, rep: string)
    requires Placeholder !in s
    ensures NoPartialMatchAtEnd(Encode(s), EncodedPlaceholder)
    ensures ReplaceAll(Encode(s), EncodedPlaceholder, rep) == Encode(s)
    decreases |s|
  {
    if s != [] {
      var c := s[0];
      if NeedsEscape(c) {
        EscapesClean(Utf8(c), rep);
      } else {
        SingleCharClean(EncodeChar(c, true)[0], rep);
        assert EncodeChar(c, true) == [EncodeChar(c, true)[0]];
      }
      EncodeClean(s[1..], rep);
      ReplaceAllConcat(EncodeChar(c, true), Encode(s[1..]), EncodedPlaceholder, rep);
      NoPartialPlaceholderConcat(EncodeChar(c, true), Encode(s[1..]));
    }
  }

  /** One form field, name=value, both encoded. */
  function Field(name: string, value: string): string
  {
    Encode(name) + "=" + Encode(value)
  }

  /** The body Utils.urlencode builds from a list of fields:
      name=value pairs joined by '&'. */
  function FormEncode(fields: seq<(string, string)>): string
  {
    if fields == [] then []
    else if |fields| == 1 then Field(fields[0].0, fields[0].1)
    else Field(fields[0].0, fields[0].1) + "&" + FormEncode(fields[1..])
  }

  /** The placeholder occurs only as a whole value. */
  predicate PlaceholderOnlyAsValue(fields: seq<(string, string)>)
  {
    forall i :: 0 <= i < |fields| ==>
      Placeholder !in fields[i].0 && (fields[i].1 == [Placeholder] || Placeholder !in fields[i].1)
  }

  /** The fields with the cursor t as every placeholder value. */
  function WithCursor(fields: seq<(string, string)>, t: string): (r: seq<(string, string)>)
    ensures |r| == |fields|
  {
    seq(|fields|, i requires 0 <= i < |fields| =>
      (fields[i].0, if fields[i].1 == [Placeholder] then t else fields[i].1))
  }

  /** The encoded name and its '=' are left alone by the substitution. */
  lemma NameClean(name: string, t: string)
    requires Placeholder !in name
    ensures ReplaceAll(Encode(name) + "=", EncodedPlaceholder, t) == Encode(name) + "="
    ensures NoPartialMatchAtEnd(Encode(name) + "=", EncodedPlaceholder)
  {
    EncodeClean(name, t);
    SingleCharClean('=', t);
    ReplaceAllConcat(Encode(name), "=", EncodedPlaceholder, t);
    NoPartialPlaceholderConcat(Encode(name), "=");
  }

  /** The encoded placeholder, as a whole, becomes the cursor. */
  lemma PlaceholderBecomesCursor(t: string)
    requires IsDigits(t)
    ensures ReplaceAll(Encode([Placeholder]), EncodedPlaceholder, t) == Encode(t)
    ensures NoPartialMatchAtEnd(Encode([Placeholder]), EncodedPlaceholder)
  {
    var pat := EncodedPlaceholder;
    EncodePlaceholder();
    EncodeDigits(t);
    assert pat[3..] == [];
    assert ReplaceAll(pat, pat, t) == t + ReplaceAll([], pat, t);
    assert pat[1] != '%' && pat[2] != '%' && pat[1..] == ['7', 'F'];
    EndsCleanNoPartial(pat);
  }

  lemma ValueWithCursor(value: string, t: string)
    requires IsDigits(t)
    requires value == [Placeholder] || Placeholder !in value
    ensures ReplaceAll(Encode(value), EncodedPlaceholder, t)
         == Encode(if value == [Placeholder] then t else value)
    ensures NoPartialMatchAtEnd(Encode(value), EncodedPlaceholder)
  {
    if value == [Placeholder] {
      PlaceholderBecomesCursor(t);
    } else {
      EncodeClean(value, t);
    }
  }

  lemma FieldWithCursor(name: string, value: string, t: string)
    requires IsDigits(t)
    requires Placeholder !in name && (value == [Placeholder] || Placeholder !in value)
    ensures ReplaceAll(Field(name, value), EncodedPlaceholder, t)
         == Field(name, if value == [Placeholder] then t else value)
    ensures NoPartialMatchAtEnd(Field(name, value), EncodedPlaceholder)
  {
    NameClean(name, t);
    ValueWithCursor(value, t);
    ReplaceAllConcat(Encode(name) + "=", Encode(value), EncodedPlaceholder, t);
    NoPartialPlaceholderConcat(Encode(name) + "=", Encode(value));
  }

  lemma AmpersandAfter(head: string, t: string)
    requires NoPartialMatchAtEnd(head, EncodedPlaceholder)
    ensures ReplaceAll(head + "&", EncodedPlaceholder, t) == ReplaceAll(head, EncodedPlaceholder, t) + "&"
    ensures NoPartialMatchAtEnd(head + "&", EncodedPlaceholder)
  {
    SingleCharClean('&', t);
    ReplaceAllConcat(head, "&", EncodedPlaceholder, t);
    NoPartialPlaceholderConcat(head, "&");
  }

  lemma WithCursorTail(fields: seq<(string, string)>, t: string)
    requires |fields| > 1 && PlaceholderOnlyAsValue(fields)
    ensures PlaceholderOnlyAsValue(fields[1..])
    ensures WithCursor(fields, t)[1..] == WithCursor(fields[1..], t)
    ensures FormEncode(WithCursor(fields, t))
         == Field(fields[0].0, if fields[0].1 == [Placeholder] then t else fields[0].1)
            + "&" + FormEncode(WithCursor(fields[1..], t))
  {
    assert WithCursor(fields, t)[1..] == WithCursor(fields[1..], t);
  }

  /** Replacing every encoded placeholder in a form body by a cursor of
      digits gives the body of the same fields with the cursor as value. */
  lemma {:induction false} SubstituteCursor(fields: seq<(string, string)>, t: string)
    requires IsDigits(t) && PlaceholderOnlyAsValue(fields)
    ensures ReplaceAll(FormEncode(fields), EncodedPlaceholder, t) == FormEncode(WithCursor(fields, t))
    decreases |fields|
  {
    if fields != [] {
      var f := fields[0];
      FieldWithCursor(f.0, f.1, t);
      if |fields| > 1 {
        var head := Field(f.0, f.1);
        AmpersandAfter(head, t);
        ReplaceAllConcat(head + "&", FormEncode(fields[1..]), EncodedPlaceholder, t);
        WithCursorTail(fields, t);
        SubstituteCursor(fields[1..], t);
      }
    }
  }
}
