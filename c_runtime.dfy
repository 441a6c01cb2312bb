/** The pieces of the C runtime that the command-line parser relies on:
    `strtol` with base 10 (section 7.22.1.4 of ISO C11), `strcpy_s`
    (section K.3.7.1.3 of ISO C11) and the reading of a NUL-terminated
    character buffer as a string.

    The program is built for Windows (Winsock, `strcpy_s`, `Sleep`), where
    `long` is 32 bits wide, so `strtol` saturates at -2^31 and 2^31 - 1 and
    assigning its result to an `int` changes nothing. */
module CRuntime {

  const LongMin: int := -0x8000_0000
  const LongMax: int := 0x7FFF_FFFF

  /** `isspace` in the "C" locale. */
  predicate IsSpace(c: char) {
    c == ' ' || c == '\t' || c == '\n' || c == '\U{000B}' || c == '\U{000C}' || c == '\r'
  }

  predicate IsDigit(c: char) {
    '0' <= c <= '9'
  }

  predicate AllDigits(d: seq<char>) {
    forall k :: 0 <= k < |d| ==> IsDigit(d[k])
  }

  function DigitValue(c: char): nat
    requires IsDigit(c)
  {
    (c as int) - ('0' as int)
  }

  function DigitChar(d: nat): (c: char)
    requires d < 10
    ensures IsDigit(c) && DigitValue(c) == d
  {
    (('0' as int) + d) as char
  }

  /** Length of the longest prefix of `s` whose characters all satisfy `p`. */
  function Span(s: seq<char>, p: char -> bool): (n: nat)
    ensures n <= |s|
    ensures forall k :: 0 <= k < n ==> p(s[k])
    ensures n == |s| || !p(s[n])
  {
    if |s| > 0 && p(s[0]) then 1 + Span(s[1..], p) else 0
  }

  /** Value of a string of decimal digits, most significant digit first. */
  function DecimalValue(d: seq<char>): nat
    requires AllDigits(d)
  {
    if d == [] then 0 else DecimalValue(d[..|d| - 1]) * 10 + DigitValue(d[|d| - 1])
  }

  /** The shortest decimal spelling of `n`. */
  function Decimal(n: nat): (d: seq<char>)
    ensures |d| >= 1 && AllDigits(d)
  {
    if n < 10 then [DigitChar(n)] else Decimal(n / 10) + [DigitChar(n % 10)]
  }

  /** The spelling of `n` that `printf("%d")` would produce, a sign only when negative. */
  function Spelled(n: int): (s: seq<char>)
  {
    if n < 0 then ['-'] + Decimal(-n) else Decimal(n)
  }

  /** What `strtol` returns when the subject sequence denotes a value outside `long`. */
  function Saturate(v: int): int
  {
    if v < LongMin then LongMin else if v > LongMax then LongMax else v
  }

  /** The value of the longest run of decimal digits at the front of `body` (0 when there is none). */
  function Magnitude(body: seq<char>): nat
  {
    DecimalValue(body[..Span(body, IsDigit)])
  }

  /** `strtol(s, NULL, 10)`: skip leading white space, take an optional sign
      and the longest run of decimal digits after it; with no digits the
      subject sequence is empty and the result is 0; a value out of range
      gives LONG_MIN or LONG_MAX. */
  function StrToL(s: seq<char>): (r: int)
    ensures LongMin <= r <= LongMax
  {
    var t := s[Span(s, IsSpace)..];
    if |t| > 0 && t[0] == '-' then Saturate(-(Magnitude(t[1..]) as int))
    else if |t| > 0 && t[0] == '+' then Saturate(Magnitude(t[1..]))
    else Saturate(Magnitude(t))
  }

  lemma {:induction false} DecimalRoundTrip(n: nat)
    ensures DecimalValue(Decimal(n)) == n
  {
    if n >= 10 {
      var d := Decimal(n);
      assert d[..|d| - 1] == Decimal(n / 10);
      DecimalRoundTrip(n / 10);
    }
  }

  /** The span of `p` over `w + s`, when every character of `w` satisfies `p`. */
  lemma {:induction false} SpanOfPrefix(w: seq<char>, s: seq<char>, p: char -> bool)
    requires forall k :: 0 <= k < |w| ==> p(w[k])
    ensures Span(w + s, p) == |w| + Span(s, p)
  {
    if w != [] {
      assert (w + s)[0] == w[0];
      assert (w + s)[1..] == w[1..] + s;
      SpanOfPrefix(w[1..], s, p);
    } else {
      assert w + s == s;
    }
  }

  /** The digits of `d` are read in full and reading stops at the first non-digit after them. */
  lemma MagnitudeOfDigits(d: seq<char>, rest: seq<char>)
    requires AllDigits(d)
    requires rest == [] || !IsDigit(rest[0])
    ensures Magnitude(d + rest) == DecimalValue(d)
  {
    SpanOfPrefix(d, rest, IsDigit);
    assert (d + rest)[..|d|] == d;
  }

  /** `strtol` on text that starts with a minus sign or a digit: no white
      space to skip, and the sign, if any, is the minus. */
  lemma StrToLOfSignOrDigit(t: seq<char>)
    requires |t| > 0 && (t[0] == '-' || IsDigit(t[0]))
    ensures StrToL(t) == if t[0] == '-' then Saturate(-(Magnitude(t[1..]) as int)) else Saturate(Magnitude(t))
  {
    assert Span(t, IsSpace) == 0;
    assert t[0..] == t;
  }

  /** `strtol` reads a run of digits `d` written without a sign and stops at
      the non-digit that follows it. */
  lemma StrToLOfDigits(s: seq<char>, d: seq<char>, rest: seq<char>)
    requires AllDigits(d) && |d| > 0
    requires rest == [] || !IsDigit(rest[0])
    requires s == d + rest
    ensures StrToL(s) == Saturate(DecimalValue(d))
  {
    assert IsDigit(s[0]) by { assert s[0] == d[0]; }
    assert StrToL(s) == Saturate(Magnitude(s)) by { StrToLOfSignOrDigit(s); }
    assert Magnitude(s) == DecimalValue(d) by { MagnitudeOfDigits(d, rest); }
  }

  /** `strtol` reads a run of digits `d` after a minus sign as a negative
      value and stops at the non-digit that follows it. */
  lemma StrToLOfNegatedDigits(s: seq<char>, d: seq<char>, rest: seq<char>)
    requires AllDigits(d)
    requires rest == [] || !IsDigit(rest[0])
    requires |s| > 0 && s[0] == '-' && s[1..] == d + rest
    ensures StrToL(s) == Saturate(-(DecimalValue(d) as int))
  {
    assert StrToL(s) == Saturate(-(Magnitude(s[1..]) as int)) by { StrToLOfSignOrDigit(s); }
    assert Magnitude(s[1..]) == DecimalValue(d) by { MagnitudeOfDigits(d, rest); }
  }

  /** How a spelled number followed by more text begins. */
  lemma SpelledFollowedBy(n: int, rest: seq<char>)
    ensures n < 0 ==> (Spelled(n) + rest)[0] == '-' && (Spelled(n) + rest)[1..] == Decimal(-n) + rest
    ensures n >= 0 ==> Spelled(n) + rest == Decimal(n) + rest
  {
    if n < 0 {
      var m: nat := -n;
      assert Spelled(n) + rest == ['-'] + (Decimal(m) + rest);
    }
  }

  /** `strtol` reads back every number `printf("%d")` could spell, saturated
      to the range of `long`, and stops at the first non-digit after it. */
  lemma StrToLOfSpelling(n: int, rest: seq<char>)
    requires rest == [] || !IsDigit(rest[0])
    ensures StrToL(Spelled(n) + rest) == Saturate(n)
  {
    var m: nat := if n < 0 then -n else n;
    var d := Decimal(m);
    SpelledFollowedBy(n, rest);
    DecimalRoundTrip(m);
    if n < 0 {
      StrToLOfNegatedDigits(Spelled(n) + rest, d, rest);
    } else {
      StrToLOfDigits(Spelled(n) + rest, d, rest);
    }
  }

  /** `strtol` looks only at what follows the leading white space. */
  lemma StrToLAfterSpace(s: seq<char>, t: seq<char>)
    requires s[Span(s, IsSpace)..] == t[Span(t, IsSpace)..]
    ensures StrToL(s) == StrToL(t)
  {
  }

  /** Leading white space does not change what `strtol` reads. */
  lemma StrToLSkipsSpace(w: seq<char>, s: seq<char>)
    requires forall k :: 0 <= k < |w| ==> IsSpace(w[k])
    ensures StrToL(w + s) == StrToL(s)
  {
    SpanOfPrefix(w, s, IsSpace);
    SuffixOfConcat(w, s, Span(s, IsSpace));
    StrToLAfterSpace(w + s, s);
  }

  lemma SuffixOfConcat(w: seq<char>, s: seq<char>, k: nat)
    requires k <= |s|
    ensures (w + s)[|w| + k..] == s[k..]
  {
  }

  /** No digit follows the leading white space and the optional sign, so
      the subject sequence of `strtol` is empty: "", "abc", "a1", "-x5", " +". */
  predicate EmptySubject(s: seq<char>) {
    var t := s[Span(s, IsSpace)..];
    var u := if |t| > 0 && (t[0] == '-' || t[0] == '+') then t[1..] else t;
    u == [] || !IsDigit(u[0])
  }

  /** With an empty subject sequence `strtol` gives 0, whatever follows. */
  lemma StrToLWithoutDigits(s: seq<char>)
    requires EmptySubject(s)
    ensures StrToL(s) == 0
  {
  }

  /** The string held in a NUL-terminated buffer: everything before the first NUL. */
  function CString(buf: seq<char>): (s: seq<char>)
    ensures s <= buf && '\0' !in s
    ensures |s| == |buf| || buf[|s|] == '\0'
  {
    if buf == [] || buf[0] == '\0' then [] else [buf[0]] + CString(buf[1..])
  }

  /** A buffer that starts with `s` followed by a NUL holds the string `s`. */
  lemma CStringOfTerminated(buf: seq<char>, s: seq<char>)
    requires '\0' !in s && |s| < |buf|
    requires buf[..|s|] == s && buf[|s|] == '\0'
    ensures CString(buf) == s
  {
    var c := CString(buf);
    assert c == buf[..|c|];
  }

  /** `strcpy_s(dst, dst.Length, src)` for a NUL-free `src`. The runtime
      constraint `s1max > strnlen_s(s2, s1max)` fails exactly when `src` does
      not fit with its terminator (this includes `s1max == 0`); then, if the
      buffer has room, its first character becomes NUL. Otherwise `src` and a
      NUL are copied to the front. The characters after the written NUL are
      unspecified by the standard; this model leaves them as they were. */
  method StrCpyS(dst: array<char>, src: seq<char>) returns (violation: bool)
    requires '\0' !in src
    modifies dst
    ensures violation <==> |src| >= dst.Length
    ensures violation && dst.Length > 0 ==> dst[0] == '\0' && dst[1..] == old(dst[1..])
    ensures violation && dst.Length == 0 ==> dst[..] == old(dst[..])
    ensures !violation ==> dst[..|src|] == src && dst[|src|] == '\0'
    ensures !violation ==> dst[|src| + 1..] == old(dst[|src| + 1..])
    ensures CString(dst[..]) == if violation then [] else src
  {
    violation := |src| >= dst.Length;
    if violation {
      if dst.Length > 0 {
        dst[0] := '\0';
      }
    } else {
      forall k | 0 <= k < |src| {
        dst[k] := src[k];
      }
      dst[|src|] := '\0';
      assert dst[..][..|src|] == src;
      CStringOfTerminated(dst[..], src);
    }
  }
}
