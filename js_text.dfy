/** The JavaScript string built-ins the price table parser depends on, over Dafny strings:
    `String.prototype.trim`, `String.prototype.split` with a one-character separator,
    `String.prototype.startsWith`, and the global `parseInt` called without a radix. */
module JsText {
  import opened Wrappers

  /** ECMAScript WhiteSpace or LineTerminator: what `trim` removes and `parseInt` skips. */
  predicate IsSpace(c: char) {
    || c == '\t' || c == '\n' || c == '\U{000B}' || c == '\U{000C}' || c == '\r' || c == ' '
    || c == '\U{00A0}' || c == '\U{1680}' || ('\U{2000}' <= c <= '\U{200A}')
    || c == '\U{2028}' || c == '\U{2029}' || c == '\U{202F}' || c == '\U{205F}'
    || c == '\U{3000}' || c == '\U{FEFF}'
  }

  /** `s` with its leading white space removed: a suffix of `s` preceded only by white space. */
  function TrimStart(s: string): (r: string)
    ensures |r| <= |s| && r == s[|s| - |r|..]
    ensures forall k :: 0 <= k < |s| - |r| ==> IsSpace(s[k])
    ensures r == [] || !IsSpace(r[0])
  {
    if |s| > 0 && IsSpace(s[0]) then TrimStart(s[1..]) else s
  }

  /** `s` with its trailing white space removed: a prefix of `s` followed only by white space. */
  function TrimEnd(s: string): (r: string)
    ensures |r| <= |s| && r == s[..|r|]
    ensures forall k :: |r| <= k < |s| ==> IsSpace(s[k])
    ensures r == [] || !IsSpace(r[|r| - 1])
  {
    if |s| > 0 && IsSpace(s[|s| - 1]) then TrimEnd(s[..|s| - 1]) else s
  }

  /** Neither starts nor ends with white space. */
  predicate IsTrimmed(s: string) {
    s == [] || (!IsSpace(s[0]) && !IsSpace(s[|s| - 1]))
  }

  /** String.prototype.trim. */
  function Trim(s: string): (r: string)
    ensures IsTrimmed(r)
  {
    TrimEnd(TrimStart(s))
  }

  /** Trimming only removes characters: every character of the result is one of `s`. */
  lemma TrimChars(s: string)
    ensures forall c :: c in Trim(s) ==> c in s
  {
    var t := TrimStart(s);
    var i := |s| - |t|;
    assert Trim(s) == s[i..i + |Trim(s)|];
  }

  /** Trimming leaves nothing exactly when the string is all white space. */
  lemma TrimEmpty(s: string)
    ensures Trim(s) == [] <==> forall k :: 0 <= k < |s| ==> IsSpace(s[k])
  {
    var t := TrimStart(s);
    if TrimEnd(t) == [] {
      assert |t| == 0;
    }
  }

  /** A string that neither starts nor ends with white space is its own trim. */
  lemma TrimOfTrimmed(s: string)
    requires IsTrimmed(s)
    ensures Trim(s) == s
  {
    assert TrimStart(s) == s;
  }

  /** Trimming twice is trimming once. */
  lemma TrimIdempotent(s: string)
    ensures Trim(Trim(s)) == Trim(s)
  {
    TrimOfTrimmed(Trim(s));
  }

  /** Leading white space does not change what `TrimStart` keeps. */
  lemma {:induction false} TrimStartSkips(ws: string, x: string)
    requires forall k :: 0 <= k < |ws| ==> IsSpace(ws[k])
    requires x == [] || !IsSpace(x[0])
    ensures TrimStart(ws + x) == x
  {
    if |ws| > 0 {
      assert (ws + x)[1..] == ws[1..] + x;
      TrimStartSkips(ws[1..], x);
    }
  }

  function StartsWith(s: string, prefix: string): bool {
    |prefix| <= |s| && s[..|prefix|] == prefix
  }

  /** String.prototype.split with a one-character separator: the pieces between separators,
      so `k` separators give `k + 1` pieces, some of which may be empty. */
  function Split(s: string, sep: char): (r: seq<string>)
    ensures |r| >= 1
    ensures forall i :: 0 <= i < |r| ==> sep !in r[i]
  {
    if |s| == 0 then [""]
    else
      var rest := Split(s[1..], sep);
      if s[0] == sep then [""] + rest
      else [[s[0]] + rest[0]] + rest[1..]
  }

  /** Array.prototype.join with a one-character separator. */
  function Join(parts: seq<string>, sep: char): string
    requires |parts| >= 1
  {
    if |parts| == 1 then parts[0] else parts[0] + [sep] + Join(parts[1..], sep)
  }

  /** Joining the pieces of a split gives back the original string. */
  lemma {:induction false} JoinSplit(s: string, sep: char)
    ensures Join(Split(s, sep), sep) == s
  {
    if |s| > 0 {
      JoinSplit(s[1..], sep);
      var rest := Split(s[1..], sep);
      if s[0] != sep && |rest| > 1 {
        assert rest == [rest[0]] + rest[1..];
      }
    }
  }

  /** A piece without the separator, followed by the separator, splits off as one element. */
  lemma {:induction false} SplitPrefix(p: string, sep: char, t: string)
    requires sep !in p
    ensures Split(p + [sep] + t, sep) == [p] + Split(t, sep)
  {
    var s := p + [sep] + t;
    if |p| > 0 {
      assert s[0] == p[0] && s[1..] == p[1..] + [sep] + t;
      SplitPrefix(p[1..], sep, t);
      assert p == [p[0]] + p[1..];
    } else {
      assert s[0] == sep && s[1..] == t;
    }
  }

  /** A string without the separator splits into itself alone. */
  lemma {:induction false} SplitWhole(p: string, sep: char)
    requires sep !in p
    ensures Split(p, sep) == [p]
  {
    if |p| > 0 {
      SplitWhole(p[1..], sep);
      assert p[0] != sep;
      assert p == [p[0]] + p[1..];
    }
  }

  /** Splitting a join of separator-free pieces gives back the pieces. */
  lemma {:induction false} SplitJoin(parts: seq<string>, sep: char)
    requires |parts| >= 1
    requires forall i :: 0 <= i < |parts| ==> sep !in parts[i]
    ensures Split(Join(parts, sep), sep) == parts
  {
    if |parts| == 1 {
      SplitWhole(parts[0], sep);
    } else {
      SplitJoin(parts[1..], sep);
      SplitPrefix(parts[0], sep, Join(parts[1..], sep));
    }
  }

  /** A character in neither the pieces nor the separator is not in their join. */
  lemma {:induction false} JoinAvoids(parts: seq<string>, sep: char, c: char)
    requires |parts| >= 1 && c != sep
    requires forall i :: 0 <= i < |parts| ==> c !in parts[i]
    ensures c !in Join(parts, sep)
  {
    if |parts| > 1 {
      JoinAvoids(parts[1..], sep, c);
    }
  }

  /** A digit of the given radix (10 or 16), as `parseInt` recognises it. */
  predicate IsDigit(c: char, radix: nat) {
    ('0' <= c <= '9') || (radix == 16 && (('a' <= c <= 'f') || ('A' <= c <= 'F')))
  }

  function DigitValue(c: char): nat
    requires IsDigit(c, 16)
  {
    if '0' <= c <= '9' then c as int - '0' as int
    else if 'a' <= c <= 'f' then c as int - 'a' as int + 10
    else c as int - 'A' as int + 10
  }

  /** The longest prefix of `s` made of digits of the radix. */
  function LeadingDigits(s: string, radix: nat): (r: string)
    ensures |r| <= |s| && r == s[..|r|]
    ensures forall k :: 0 <= k < |r| ==> IsDigit(r[k], radix)
    ensures |r| < |s| ==> !IsDigit(s[|r|], radix)
  {
    if |s| > 0 && IsDigit(s[0], radix) then [s[0]] + LeadingDigits(s[1..], radix) else []
  }

  /** The number a run of digits denotes, most significant digit first. */
  function DigitsValue(d: string, radix: nat): nat
    requires radix == 10 || radix == 16
    requires forall k :: 0 <= k < |d| ==> IsDigit(d[k], radix)
  {
    if |d| == 0 then 0
    else
      assert IsDigit(d[|d| - 1], radix);
      DigitsValue(d[..|d| - 1], radix) * radix + DigitValue(d[|d| - 1])
  }

  /** The global `parseInt` with no radix argument; NaN is modelled as None. */
  function ParseInt(s: string): Option<int>
  {
    ParseSigned(TrimStart(s))
  }

  /** `parseInt` after the white space: an optional sign, then the magnitude. */
  function ParseSigned(t: string): Option<int>
  {
    var negative := |t| > 0 && t[0] == '-';
    var u := if |t| > 0 && (t[0] == '-' || t[0] == '+') then t[1..] else t;
    match ParseMagnitude(u)
    case None => None
    case Some(m) =>
      var magnitude: int := m;
      Some(if negative then -magnitude else magnitude)
  }

  /** `parseInt` after the sign: base 16 after a `0x` or `0X` prefix, base 10 otherwise,
      reading the longest run of digits; no digits at all is NaN. */
  function ParseMagnitude(u: string): Option<nat>
  {
    var hex := |u| >= 2 && u[0] == '0' && (u[1] == 'x' || u[1] == 'X');
    var radix := if hex then 16 else 10;
    var digits := LeadingDigits(if hex then u[2..] else u, radix);
    if |digits| == 0 then None else Some(DigitsValue(digits, radix))
  }

  function DigitChar(d: nat): (c: char)
    requires d < 10
    ensures IsDigit(c, 10) && DigitValue(c) == d
  {
    ('0' as int + d) as char
  }

  /** The decimal digits of a natural number, without leading zeros. */
  function NatDigits(n: nat): (r: string)
    ensures |r| >= 1
    ensures forall k :: 0 <= k < |r| ==> IsDigit(r[k], 10)
    ensures n > 0 ==> r[0] != '0'
    ensures n == 0 ==> r == "0"
  {
    if n < 10 then [DigitChar(n)] else NatDigits(n / 10) + [DigitChar(n % 10)]
  }

  /** The decimal text of an integer, as `String(n)` writes it. */
  function DecimalString(n: int): string {
    if n < 0 then "-" + NatDigits(-n) else NatDigits(n)
  }

  lemma {:induction false} NatDigitsValue(n: nat)
    ensures DigitsValue(NatDigits(n), 10) == n
  {
    if n >= 10 {
      NatDigitsValue(n / 10);
      var d := NatDigits(n);
      assert d[..|d| - 1] == NatDigits(n / 10);
    }
  }

  lemma {:induction false} LeadingDigitsOf(d: string, tail: string, radix: nat)
    requires forall k :: 0 <= k < |d| ==> IsDigit(d[k], radix)
    requires tail == [] || !IsDigit(tail[0], radix)
    ensures LeadingDigits(d + tail, radix) == d
  {
    if |d| > 0 {
      assert (d + tail)[1..] == d[1..] + tail;
      LeadingDigitsOf(d[1..], tail, radix);
    }
  }

  /** Leading white space does not change what `parseInt` reads. */
  lemma ParseIntSkipsSpace(ws: string, x: string)
    requires forall k :: 0 <= k < |ws| ==> IsSpace(ws[k])
    requires x == [] || !IsSpace(x[0])
    ensures ParseInt(ws + x) == ParseInt(x)
  {
    TrimStartSkips(ws, x);
    TrimStartSkips("", x);
    assert "" + x == x;
  }

  /** Unsigned digits followed by a non-digit tail read as their value. */
  lemma ParseMagnitudeDigits(m: nat, tail: string)
    requires tail == [] || !IsDigit(tail[0], 10)
    requires m == 0 && |tail| > 0 ==> tail[0] != 'x' && tail[0] != 'X'
    ensures ParseMagnitude(NatDigits(m) + tail) == Some(m)
  {
    LeadingDigitsOf(NatDigits(m), tail, 10);
    NatDigitsValue(m);
    var d := NatDigits(m);
    var u := d + tail;
    if |u| >= 2 && u[0] == '0' {
      assert m == 0;
      assert u[1] == tail[0];
    }
  }

  /** `parseInt` reads back the decimal text of any integer, whatever white space precedes it
      and whatever non-digit text follows it (as in "500 sheets" or "2.5"), provided a zero
      is not followed by an `x` that would make it a hexadecimal prefix. */
  lemma ParseIntDecimal(ws: string, n: int, tail: string)
    requires forall k :: 0 <= k < |ws| ==> IsSpace(ws[k])
    requires tail == [] || !IsDigit(tail[0], 10)
    requires n == 0 && |tail| > 0 ==> tail[0] != 'x' && tail[0] != 'X'
    ensures ParseInt(ws + DecimalString(n) + tail) == Some(n)
  {
    var x := DecimalString(n) + tail;
    assert ws + DecimalString(n) + tail == ws + x;
    assert x[0] == '-' || IsDigit(x[0], 10);
    TrimStartSkips(ws, x);
    ParseSignedDecimal(n, tail);
  }

  lemma ParseSignedDecimal(n: int, tail: string)
    requires tail == [] || !IsDigit(tail[0], 10)
    requires n == 0 && |tail| > 0 ==> tail[0] != 'x' && tail[0] != 'X'
    ensures ParseSigned(DecimalString(n) + tail) == Some(n)
  {
    if n < 0 {
      ParseNegativeDecimal(n, tail);
    } else {
      ParseNonNegativeDecimal(n, tail);
    }
  }

  lemma ParseNegativeDecimal(n: int, tail: string)
    requires n < 0
    requires tail == [] || !IsDigit(tail[0], 10)
    ensures ParseSigned(DecimalString(n) + tail) == Some(n)
  {
    var x := DecimalString(n) + tail;
    DecimalStringNegative(n, tail);
    ParseMagnitudeDigits(-n, tail);
    ParseMinus(x, -n);
  }

  lemma DecimalStringNegative(n: int, tail: string)
    requires n < 0
    ensures var x := DecimalString(n) + tail; |x| > 0 && x[0] == '-' && x[1..] == NatDigits(-n) + tail
  {
    var d := NatDigits(-n);
    assert DecimalString(n) == ['-'] + d;
    assert (['-'] + d) + tail == ['-'] + (d + tail);
  }

  lemma ParseNonNegativeDecimal(n: nat, tail: string)
    requires tail == [] || !IsDigit(tail[0], 10)
    requires n == 0 && |tail| > 0 ==> tail[0] != 'x' && tail[0] != 'X'
    ensures ParseSigned(DecimalString(n) + tail) == Some(n)
  {
    var u := NatDigits(n) + tail;
    assert DecimalString(n) + tail == u;
    ParseMagnitudeDigits(n, tail);
    ParseUnsigned(u, n);
  }

  /** A minus sign negates the magnitude that follows it. */
  lemma ParseMinus(x: string, m: nat)
    requires |x| > 0 && x[0] == '-' && ParseMagnitude(x[1..]) == Some(m)
    ensures ParseSigned(x) == Some(-(m as int))
  {
  }

  /** Without a sign the magnitude is the value. */
  lemma ParseUnsigned(u: string, m: nat)
    requires ParseMagnitude(u) == Some(m)
    requires |u| > 0 && IsDigit(u[0], 10)
    ensures ParseSigned(u) == Some(m)
  {
  }

  /** `parseInt` reads back the decimal text of any integer. */
  lemma ParseIntRoundTrip(n: int)
    ensures ParseInt(DecimalString(n)) == Some(n)
  {
    var x := DecimalString(n);
    DecimalStringLead(n);
    assert TrimStart(x) == x;
    ParseSignedDecimal(n, "");
    assert x + "" == x;
  }

  /** The decimal text of an integer starts with a minus sign or a digit. */
  lemma DecimalStringLead(n: int)
    ensures |DecimalString(n)| > 0
    ensures DecimalString(n)[0] == '-' || IsDigit(DecimalString(n)[0], 10)
  {
  }
}
