/** The java.lang.String operations the chat bot relies on: trim, case
    mapping, prefix tests, split on the first separator, replace, and the
    decimal rendering of numbers. */
module Text {
  import opened Wrappers

  /** String.trim() strips every code point at or below U+0020. */
  predicate IsBlank(c: char) { c <= ' ' }

  function TrimStart(s: string): (r: string)
    ensures |r| <= |s| && s == s[..|s| - |r|] + r
    ensures forall i :: 0 <= i < |s| - |r| ==> IsBlank(s[i])
    ensures r == [] || !IsBlank(r[0])
  {
    if |s| > 0 && IsBlank(s[0]) then TrimStart(s[1..]) else s
  }

  function TrimEnd(s: string): (r: string)
    ensures |r| <= |s| && s == r + s[|r|..]
    ensures forall i :: |r| <= i < |s| ==> IsBlank(s[i])
    ensures r == [] || !IsBlank(r[|r| - 1])
  {
    if |s| > 0 && IsBlank(s[|s| - 1]) then TrimEnd(s[..|s| - 1]) else s
  }

  /** String.trim(): the longest middle part without blank ends. */
  function Trim(s: string): (r: string)
    ensures |r| <= |s|
    ensures r == [] || (!IsBlank(r[0]) && !IsBlank(r[|r| - 1]))
  {
    var r := TrimEnd(TrimStart(s));
    assert r != [] ==> r[0] == TrimStart(s)[0];
    r
  }

  lemma TrimOfTrimmed(s: string)
    requires s == [] || (!IsBlank(s[0]) && !IsBlank(s[|s| - 1]))
    ensures Trim(s) == s
  {
  }

  lemma TrimIdempotent(s: string)
    ensures Trim(Trim(s)) == Trim(s)
  {
    TrimOfTrimmed(Trim(s));
  }

  /** Case mapping of the ASCII letters (String.toLowerCase / toUpperCase). */
  function LowerChar(c: char): char
  {
    if 'A' <= c <= 'Z' then (c as int + 32) as char else c
  }

  function UpperChar(c: char): char
  {
    if 'a' <= c <= 'z' then (c as int - 32) as char else c
  }

  function Lower(s: string): string
  {
    seq(|s|, i requires 0 <= i < |s| => LowerChar(s[i]))
  }

  function Upper(s: string): string
  {
    seq(|s|, i requires 0 <= i < |s| => UpperChar(s[i]))
  }

  predicate HasNoUpperCase(s: string)
  {
    forall i :: 0 <= i < |s| ==> !('A' <= s[i] <= 'Z')
  }

  lemma LowerOfLower(s: string)
    requires HasNoUpperCase(s)
    ensures Lower(s) == s
  {
  }

  lemma LowerHasNoUpperCase(s: string)
    ensures HasNoUpperCase(Lower(s))
  {
  }

  lemma UpperIdempotent(s: string)
    ensures Upper(Upper(s)) == Upper(s)
  {
  }

  /** Lower-casing leaves blanks alone, so trimming before or after it
      gives the same string. */
  lemma {:induction false} TrimStartLower(s: string)
    ensures TrimStart(Lower(s)) == Lower(TrimStart(s))
    decreases |s|
  {
    if |s| > 0 {
      assert Lower(s)[0] == LowerChar(s[0]);
      assert IsBlank(LowerChar(s[0])) == IsBlank(s[0]);
      if IsBlank(s[0]) {
        assert Lower(s)[1..] == Lower(s[1..]);
        TrimStartLower(s[1..]);
      }
    }
  }

  lemma {:induction false} TrimEndLower(s: string)
    ensures TrimEnd(Lower(s)) == Lower(TrimEnd(s))
    decreases |s|
  {
    if |s| > 0 {
      assert Lower(s)[|s| - 1] == LowerChar(s[|s| - 1]);
      assert IsBlank(LowerChar(s[|s| - 1])) == IsBlank(s[|s| - 1]);
      if IsBlank(s[|s| - 1]) {
        assert Lower(s)[..|s| - 1] == Lower(s[..|s| - 1]);
        TrimEndLower(s[..|s| - 1]);
      }
    }
  }

  lemma TrimLower(s: string)
    ensures Trim(Lower(s)) == Lower(Trim(s))
  {
    TrimStartLower(s);
    TrimEndLower(TrimStart(s));
  }

  lemma LowerIdempotent(s: string)
    ensures Lower(Lower(s)) == Lower(s)
  {
  }

  /** Every occurrence of one character replaced by another (String.replace(char, char)). */
  function ReplaceChar(s: string, from: char, to: char): string
  {
    seq(|s|, i requires 0 <= i < |s| => if s[i] == from then to else s[i])
  }

  lemma ReplaceCharBack(s: string, from: char, to: char)
    requires to !in s
    ensures ReplaceChar(ReplaceChar(s, from, to), to, from) == s
  {
  }

  /** String.split(" ", 2) on a single-character separator: the part before
      the first separator and, when there is one, everything after it. */
  function SplitOnce(s: string, sep: char): (r: (string, Option<string>))
    ensures sep !in r.0
    ensures r.1.None? <==> sep !in s
    ensures r.1.None? ==> r.0 == s
    ensures r.1.Some? ==> s == r.0 + [sep] + r.1.value
  {
    if |s| == 0 then (s, None)
    else if s[0] == sep then ([], Some(s[1..]))
    else
      var (head, rest) := SplitOnce(s[1..], sep);
      assert s == [s[0]] + s[1..];
      ([s[0]] + head, rest)
  }

  lemma {:induction false} SplitOnceAt(head: string, sep: char, rest: string)
    requires sep !in head
    ensures SplitOnce(head + [sep] + rest, sep) == (head, Some(rest))
    decreases |head|
  {
    if |head| > 0 {
      assert (head + [sep] + rest)[1..] == head[1..] + [sep] + rest;
      SplitOnceAt(head[1..], sep, rest);
      assert [head[0]] + head[1..] == head;
    } else {
      assert head + [sep] + rest == [sep] + rest;
    }
  }

  /** String.replace(CharSequence, CharSequence): every occurrence of pat,
      found left to right without overlap, replaced by rep. */
  function ReplaceAll(s: string, pat: string, rep: string): string
    requires |pat| > 0
    decreases |s|
  {
    if |s| < |pat| then s
    else if pat <= s then rep + ReplaceAll(s[|pat|..], pat, rep)
    else [s[0]] + ReplaceAll(s[1..], pat, rep)
  }

  /** The last k characters of s are the first k of pat, a non-empty
      proper prefix of it. */
  predicate PartialAt(s: string, pat: string, k: int)
  {
    0 < k < |pat| && k <= |s| && s[|s| - k..] == pat[..k]
  }

  /** No non-empty proper prefix of pat is left dangling at the end of s. */
  predicate NoPartialMatchAtEnd(s: string, pat: string)
  {
    forall k :: 0 < k < |pat| ==> !PartialAt(s, pat, k)
  }

  lemma NoPartialMatchAtEndSuffix(s: string, pat: string, n: nat)
    requires n <= |s| && NoPartialMatchAtEnd(s, pat)
    ensures NoPartialMatchAtEnd(s[n..], pat)
  {
    forall k | 0 < k < |pat|
      ensures !PartialAt(s[n..], pat, k)
    {
      if k <= |s[n..]| {
        assert s[n..][|s[n..]| - k..] == s[|s| - k..];
        assert !PartialAt(s, pat, k);
      }
    }
  }

  /** When no occurrence of pat can straddle the boundary, replacing in a
      concatenation replaces in each part. */
  lemma {:induction false} ReplaceAllConcat(a: string, b: string, pat: string, rep: string)
    requires |pat| > 0
    requires NoPartialMatchAtEnd(a, pat)
    ensures ReplaceAll(a + b, pat, rep) == ReplaceAll(a, pat, rep) + ReplaceAll(b, pat, rep)
    decreases |a|
  {
    if |a| == 0 {
      assert a + b == b;
    } else if |a| < |pat| {
      ReplaceAllShortPrefix(a, b, pat, rep);
    } else {
      var s := a + b;
      assert s[..|pat|] == a[..|pat|];
      if pat <= a {
        var a', s' := a[|pat|..], s[|pat|..];
        assert s' == a' + b;
        assert ReplaceAll(s, pat, rep) == rep + ReplaceAll(s', pat, rep);
        assert ReplaceAll(a, pat, rep) == rep + ReplaceAll(a', pat, rep);
        NoPartialMatchAtEndSuffix(a, pat, |pat|);
        ReplaceAllConcat(a', b, pat, rep);
      } else {
        var a', s' := a[1..], s[1..];
        assert s' == a' + b;
        assert ReplaceAll(s, pat, rep) == [a[0]] + ReplaceAll(s', pat, rep);
        assert ReplaceAll(a, pat, rep) == [a[0]] + ReplaceAll(a', pat, rep);
        NoPartialMatchAtEndSuffix(a, pat, 1);
        ReplaceAllConcat(a', b, pat, rep);
      }
    }
  }

  /** A non-empty part shorter than pat that is not a prefix of pat is copied
      as it is, character by character. */
  lemma {:induction false} ReplaceAllShortPrefix(a: string, b: string, pat: string, rep: string)
    requires 0 < |a| < |pat|
    requires NoPartialMatchAtEnd(a, pat)
    ensures ReplaceAll(a + b, pat, rep) == a + ReplaceAll(b, pat, rep)
    decreases |a|
  {
    var s := a + b;
    assert s[..|a|] == a;
    assert a[|a| - |a|..] == a;
    assert !PartialAt(a, pat, |a|);
    if |s| >= |pat| {
      assert s[..|pat|][..|a|] == s[..|a|];
      assert !(pat <= s);
      assert ReplaceAll(s, pat, rep) == [s[0]] + ReplaceAll(s[1..], pat, rep);
      assert s[1..] == a[1..] + b;
      if |a| > 1 {
        NoPartialMatchAtEndSuffix(a, pat, 1);
        ReplaceAllShortPrefix(a[1..], b, pat, rep);
        assert [a[0]] + (a[1..] + ReplaceAll(b, pat, rep)) == a + ReplaceAll(b, pat, rep);
      } else {
        assert a[1..] + b == b;
        assert [a[0]] == a;
      }
    } else {
      assert ReplaceAll(b, pat, rep) == b;
    }
  }

  lemma ReplaceAllShort(s: string, pat: string, rep: string)
    requires 0 < |s| < |pat|
    ensures ReplaceAll(s, pat, rep) == s
  {
  }

  predicate IsDigit(c: char) { '0' <= c <= '9' }

  predicate IsDigits(s: string) { forall i :: 0 <= i < |s| ==> IsDigit(s[i]) }

  /** The length of the run of ASCII digits at the start of s: what a
      greedy \d+ consumes there. */
  function DigitRun(s: string): (n: nat)
    ensures n <= |s| && IsDigits(s[..n])
    ensures n == |s| || !IsDigit(s[n])
    decreases |s|
  {
    if s != [] && IsDigit(s[0]) then
      var m := DigitRun(s[1..]);
      assert s[..m + 1] == [s[0]] + s[1..][..m];
      m + 1
    else 0
  }

  lemma {:induction false} DigitRunOf(d: string, rest: string)
    requires IsDigits(d) && (rest == [] || !IsDigit(rest[0]))
    ensures DigitRun(d + rest) == |d|
    decreases |d|
  {
    if d != [] {
      assert (d + rest)[1..] == d[1..] + rest;
      DigitRunOf(d[1..], rest);
    } else {
      assert d + rest == rest;
    }
  }

  function DigitChar(d: int): (c: char)
    requires 0 <= d < 10
    ensures IsDigit(c)
  {
    ('0' as int + d) as char
  }

  function DigitValue(c: char): int
    requires IsDigit(c)
  {
    c as int - '0' as int
  }

  /** Long.toString of a non-negative number. */
  function NatString(n: nat): (r: string)
    ensures |r| > 0 && IsDigits(r)
    decreases n
  {
    if n < 10 then [DigitChar(n)] else NatString(n / 10) + [DigitChar(n % 10)]
  }

  /** Long.toString: a minus sign before the digits of a negative number. */
  function IntString(n: int): (r: string)
    ensures |r| > 0
  {
    if n < 0 then "-" + NatString(-n) else NatString(n)
  }

  function ParseDigits(s: string): nat
    requires IsDigits(s)
    decreases |s|
  {
    if s == [] then 0 else ParseDigits(s[..|s| - 1]) * 10 + DigitValue(s[|s| - 1])
  }

  lemma {:induction false} ParseNatString(n: nat)
    ensures ParseDigits(NatString(n)) == n
    decreases n
  {
    if n >= 10 {
      var s := NatString(n);
      assert s[..|s| - 1] == NatString(n / 10);
      ParseNatString(n / 10);
    }
  }

  lemma IntStringSign(n: int)
    ensures (IntString(n)[0] == '-') == (n < 0)
  {
    if n >= 0 {
      assert IsDigit(IntString(n)[0]);
    }
  }

  /** Different numbers have different decimal renderings. */
  lemma IntStringInjective(a: int, b: int)
    requires IntString(a) == IntString(b)
    ensures a == b
  {
    IntStringSign(a);
    IntStringSign(b);
    if a < 0 && b < 0 {
      assert NatString(-a) == IntString(a)[1..];
      ParseNatString(-a);
      ParseNatString(-b);
    } else if a >= 0 && b >= 0 {
      ParseNatString(a);
      ParseNatString(b);
    }
  }
}
