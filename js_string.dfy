/**
 * The ECMAScript String and Number built-ins that the QRIS rewrite calls:
 * `slice`, `indexOf`, `replace` with a string pattern, `split` with a string
 * separator, `trim`, `padStart`, `Number.prototype.toString(radix)` and
 * `toUpperCase` on ASCII text.  A Dafny `char` is one Unicode scalar value,
 * so positions and lengths here count characters where ECMAScript counts
 * UTF-16 code units; the two agree on text in the Basic Multilingual Plane.
 */
module JsString {
  import opened Wrappers

  // ---------------------------------------------------------------- slice

  /** The start/end clamping of String.prototype.slice: a negative index counts from the end. */
  function RelativeIndex(k: int, len: nat): (r: nat)
    ensures r <= len
    ensures 0 <= k <= len ==> r == k
    ensures k < 0 && len + k >= 0 ==> r == len + k
  {
    if k < 0 then (if len + k < 0 then 0 else len + k)
    else if k > len then len
    else k
  }

  /** String.prototype.slice(start, end). */
  function Slice(s: string, start: int, end: int): (r: string)
    ensures |r| <= |s|
  {
    var from := RelativeIndex(start, |s|);
    var to := RelativeIndex(end, |s|);
    if from < to then s[from..to] else ""
  }

  // ---------------------------------------------------------------- search

  /** `pat` occurs in `s` starting at index `i`. */
  predicate OccursAt(s: string, pat: string, i: nat) {
    i + |pat| <= |s| && s[i..i + |pat|] == pat
  }

  /** String.prototype.indexOf(pat, from), with None for -1. */
  function IndexOfFrom(s: string, pat: string, from: nat): (r: Option<nat>)
    ensures r.Some? ==> from <= r.value && OccursAt(s, pat, r.value)
    ensures r.Some? ==> forall j :: from <= j < r.value ==> !OccursAt(s, pat, j)
    ensures r.None? ==> forall j :: from <= j ==> !OccursAt(s, pat, j)
    decreases |s| - from
  {
    if from + |pat| > |s| then None
    else if s[from..from + |pat|] == pat then Some(from)
    else IndexOfFrom(s, pat, from + 1)
  }

  /** String.prototype.indexOf(pat): the first occurrence, or None. */
  function IndexOf(s: string, pat: string): (r: Option<nat>)
    ensures r.Some? ==> OccursAt(s, pat, r.value) && forall j: nat :: j < r.value ==> !OccursAt(s, pat, j)
    ensures r.None? ==> forall j :: !OccursAt(s, pat, j)
  {
    IndexOfFrom(s, pat, 0)
  }

  /**
   * String.prototype.replace(pat, rep) with a string pattern: only the first
   * occurrence is replaced.  (`rep` is taken literally; the `$` patterns of
   * the built-in do not occur in the replacement this program uses.)
   */
  function ReplaceFirst(s: string, pat: string, rep: string): (r: string)
  {
    match IndexOf(s, pat)
    case None => s
    case Some(i) => s[..i] + rep + s[i + |pat|..]
  }

  /** An occurrence of `pat` at `i` fixes the characters there one by one. */
  lemma OccurrenceChars(s: string, pat: string, i: nat)
    requires OccursAt(s, pat, i)
    ensures forall m :: 0 <= m < |pat| ==> s[i + m] == pat[m]
  {
    forall m | 0 <= m < |pat|
      ensures s[i + m] == pat[m]
    {
      assert s[i..i + |pat|][m] == s[i + m];
    }
  }

  /** Matching characters one by one make an occurrence. */
  lemma CharsOccur(s: string, pat: string, i: nat)
    requires i + |pat| <= |s|
    requires forall m :: 0 <= m < |pat| ==> s[i + m] == pat[m]
    ensures OccursAt(s, pat, i)
  {
    assert s[i..i + |pat|] == pat;
  }

  /** One mismatching character rules out an occurrence. */
  lemma MismatchAt(s: string, pat: string, j: nat, m: nat)
    requires j + |pat| <= |s| && m < |pat| && s[j + m] != pat[m]
    ensures !OccursAt(s, pat, j)
  {
    assert s[j..j + |pat|][m] == s[j + m];
  }

  /**
   * Replacing the first occurrence by text of the same length keeps the
   * length, writes the replacement over the occurrence and keeps every
   * other character.
   */
  lemma ReplaceFirstChars(s: string, pat: string, rep: string, i: nat)
    requires |rep| == |pat| && IndexOf(s, pat) == Some(i)
    ensures |ReplaceFirst(s, pat, rep)| == |s|
    ensures forall k :: 0 <= k < |s| ==>
      ReplaceFirst(s, pat, rep)[k] == if i <= k < i + |pat| then rep[k - i] else s[k]
  {
    var r := ReplaceFirst(s, pat, rep);
    assert r == s[..i] + rep + s[i + |pat|..];
    forall k | 0 <= k < |s|
      ensures r[k] == if i <= k < i + |pat| then rep[k - i] else s[k]
    {
      if k >= i + |pat| {
        assert r[k] == s[i + |pat|..][k - i - |pat|];
      }
    }
  }

  // ---------------------------------------------------------------- split

  /** Array.prototype.join(sep), the inverse of Split. */
  function Join(parts: seq<string>, sep: string): string
  {
    if |parts| == 0 then ""
    else if |parts| == 1 then parts[0]
    else parts[0] + sep + Join(parts[1..], sep)
  }

  /** String.prototype.split(sep) with a non-empty string separator. */
  function Split(s: string, sep: string): (parts: seq<string>)
    requires sep != ""
    ensures |parts| >= 1
    ensures Join(parts, sep) == s
    ensures forall k :: 0 <= k < |parts| ==> IndexOf(parts[k], sep).None?
    decreases |s|
  {
    match IndexOf(s, sep)
    case None => [s]
    case Some(i) =>
      NoEarlierOccurrence(s, sep, i);
      [s[..i]] + Split(s[i + |sep|..], sep)
  }

  /** Before the first occurrence of `pat` in `s`, the prefix `s[..i]` holds none. */
  lemma NoEarlierOccurrence(s: string, pat: string, i: nat)
    requires pat != "" && i <= |s|
    requires forall j: nat :: j < i ==> !OccursAt(s, pat, j)
    ensures IndexOf(s[..i], pat).None?
  {
    forall j: nat | OccursAt(s[..i], pat, j)
      ensures false
    {
      assert s[..i][j..j + |pat|] == s[j..j + |pat|];
      assert OccursAt(s, pat, j);
    }
  }

  /**
   * What `parts[0]` and `parts[1]` of a split are: the text before the first
   * separator, and the text between the first and the second (or the end).
   * Without a separator the split is the whole string alone.
   */
  lemma {:induction false} SplitFirstParts(s: string, sep: string)
    requires sep != ""
    ensures IndexOf(s, sep).None? ==> Split(s, sep) == [s]
    ensures IndexOf(s, sep).Some? ==>
      var i := IndexOf(s, sep).value;
      var rest := s[i + |sep|..];
      var parts := Split(s, sep);
      && |parts| >= 2
      && parts[0] == s[..i]
      && parts[1] == (match IndexOf(rest, sep) case None => rest case Some(j) => rest[..j])
      && (IndexOf(rest, sep).None? <==> |parts| == 2)
  {
    match IndexOf(s, sep)
    case None =>
    case Some(i) =>
      var rest := s[i + |sep|..];
      assert Split(s, sep) == [s[..i]] + Split(rest, sep);
      SplitFirstPart(rest, sep);
  }

  lemma SplitFirstPart(s: string, sep: string)
    requires sep != ""
    ensures Split(s, sep)[0] == (match IndexOf(s, sep) case None => s case Some(j) => s[..j])
    ensures IndexOf(s, sep).None? <==> |Split(s, sep)| == 1
  {
  }

  // ---------------------------------------------------------------- trim

  /** The white space and line terminators that String.prototype.trim removes. */
  const JsSpaces: set<char> := {
    '\t', '\n', '\U{B}', '\U{C}', '\r', ' ', '\U{A0}', '\U{1680}',
    '\U{2000}', '\U{2001}', '\U{2002}', '\U{2003}', '\U{2004}', '\U{2005}',
    '\U{2006}', '\U{2007}', '\U{2008}', '\U{2009}', '\U{200A}',
    '\U{2028}', '\U{2029}', '\U{202F}', '\U{205F}', '\U{3000}', '\U{FEFF}'
  }

  /*
   * Trimming takes the set of characters to cut as a parameter, so that its
   * proofs never look inside JsSpaces.
   */

  /** The end of the run of `ws` characters that starts at `i`. */
  function SpanFrom(s: string, ws: set<char>, i: nat): (n: nat)
    requires i <= |s|
    ensures i <= n <= |s| && (n < |s| ==> s[n] !in ws)
    ensures forall k :: i <= k < n ==> s[k] in ws
    decreases |s| - i
  {
    if i < |s| && s[i] in ws then SpanFrom(s, ws, i + 1) else i
  }

  /** The start of the run of `ws` characters that ends at `j`, going no lower than `lo`. */
  function SpanBack(s: string, ws: set<char>, lo: nat, j: nat): (m: nat)
    requires lo <= j <= |s|
    ensures lo <= m <= j && (m > lo ==> s[m - 1] !in ws)
    ensures forall k :: m <= k < j ==> s[k] in ws
    decreases j
  {
    if j > lo && s[j - 1] in ws then SpanBack(s, ws, lo, j - 1) else j
  }

  /**
   * Both ends of `s` cut of the characters in `ws`: the result is the piece
   * of `s` that starts after the leading run of them; everything cut on
   * either side is in `ws`, and the result neither starts nor ends with a
   * character of `ws`. (When it is empty, every character of `s` was cut.)
   */
  function TrimWith(s: string, ws: set<char>): (r: string)
    ensures var a := SpanFrom(s, ws, 0);
      && a + |r| <= |s| && r == s[a..a + |r|]
      && (forall k :: 0 <= k < a ==> s[k] in ws)
      && (forall k :: a + |r| <= k < |s| ==> s[k] in ws)
      && (r == "" || (r[0] !in ws && r[|r| - 1] !in ws))
  {
    var a := SpanFrom(s, ws, 0);
    var e := SpanBack(s, ws, a, |s|);
    s[a..e]
  }

  /** String.prototype.trim. */
  function Trim(s: string): string {
    TrimWith(s, JsSpaces)
  }

  // ---------------------------------------------------------------- padStart

  /** String.prototype.padStart(n, fill) with a one-character filler. */
  function PadStart(s: string, n: nat, fill: char): (r: string)
    ensures |r| == if |s| >= n then |s| else n
    ensures r[|r| - |s|..] == s
    ensures forall k :: 0 <= k < |r| - |s| ==> r[k] == fill
  {
    if |s| >= n then s else seq(n - |s|, _ => fill) + s
  }

  // ---------------------------------------------------------------- numbers

  function Pow(b: nat, e: nat): (r: nat)
    ensures b >= 1 ==> r >= 1
  {
    if e == 0 then 1 else b * Pow(b, e - 1)
  }

  /** A digit as Number.prototype.toString writes it (lower case). */
  function DigitChar(d: nat): (c: char)
    requires d < 36
    ensures DigitValue(c) == d
  {
    if d < 10 then ('0' as int + d) as char else ('a' as int + d - 10) as char
  }

  /** The value of a digit in either case, 36 for anything that is not one. */
  function DigitValue(c: char): (d: nat)
    ensures d <= 36
  {
    if '0' <= c <= '9' then c as int - '0' as int
    else if 'a' <= c <= 'z' then c as int - 'a' as int + 10
    else if 'A' <= c <= 'Z' then c as int - 'A' as int + 10
    else 36
  }

  /** The number a digit string denotes in `radix`. */
  function DigitsValue(s: string, radix: nat): nat
  {
    if s == "" then 0 else DigitsValue(s[..|s| - 1], radix) * radix + DigitValue(s[|s| - 1])
  }

  /**
   * Number.prototype.toString(radix) of a non-negative integer: one or more
   * digits of `radix`, with no leading zero.
   */
  function NumberToString(n: nat, radix: nat): (r: string)
    requires 2 <= radix <= 36
    ensures |r| >= 1 && (r[0] == '0' ==> n == 0)
    ensures forall k :: 0 <= k < |r| ==> DigitValue(r[k]) < radix
    decreases n
  {
    if n < radix then [DigitChar(n)]
    else
      var q, d := n / radix, n % radix;
      assert 1 <= q < n && d < radix by { DivMod(n, radix); }
      var front := NumberToString(q, radix);
      assert (front + [DigitChar(d)])[0] == front[0];
      front + [DigitChar(d)]
  }

  /** The numeral Number.prototype.toString writes reads back as the number. */
  lemma {:induction false} NumberToStringValue(n: nat, radix: nat)
    requires 2 <= radix <= 36
    ensures DigitsValue(NumberToString(n, radix), radix) == n
    decreases n
  {
    if n < radix {
      var r := [DigitChar(n)];
      assert r[..0] == "";
    } else {
      var q, d := n / radix, n % radix;
      assert q < n && d < radix by { DivMod(n, radix); }
      var front := NumberToString(q, radix);
      assert NumberToString(n, radix) == front + [DigitChar(d)];
      assert DigitsValue(front, radix) == q by { NumberToStringValue(q, radix); }
      assert DigitsValue(front + [DigitChar(d)], radix) == q * radix + d by {
        AppendDigit(front, DigitChar(d), radix);
      }
      assert q * radix + d == n by { DivMod(n, radix); }
    }
  }

  lemma AppendDigit(front: string, last: char, radix: nat)
    ensures DigitsValue(front + [last], radix) == DigitsValue(front, radix) * radix + DigitValue(last)
  {
    assert (front + [last])[..|front|] == front;
  }

  lemma DivMod(n: nat, b: nat)
    requires b >= 1
    ensures (n / b) * b + n % b == n && n % b < b
    ensures n >= b ==> n / b >= 1
    ensures b >= 2 && n >= 1 ==> n / b < n
  {
  }

  /** The numeral of `n` has at most `k` digits exactly when `n < radix^k`. */
  lemma {:induction false} NumberToStringLength(n: nat, radix: nat, k: nat)
    requires 2 <= radix <= 36 && k >= 1
    ensures |NumberToString(n, radix)| <= k <==> n < Pow(radix, k)
    decreases n
  {
    assert Pow(radix, 1) == radix;
    if n < radix {
      PowMonotone(radix, 1, k);
    } else if k > 1 {
      var q, d := n / radix, n % radix;
      assert q < n && d < radix by { DivMod(n, radix); }
      assert NumberToString(n, radix) == NumberToString(q, radix) + [DigitChar(d)];
      NumberToStringLength(q, radix, k - 1);
      assert q < Pow(radix, k - 1) <==> n < radix * Pow(radix, k - 1) by {
        DivBelow(n, radix, Pow(radix, k - 1));
      }
    }
  }

  /** `n / b < p` exactly when `n < b * p`. */
  lemma DivBelow(n: nat, b: nat, p: nat)
    requires b >= 1
    ensures n / b < p <==> n < b * p
  {
    var q, m := n / b, n % b;
    assert n == b * q + m && 0 <= m < b;
    if q < p {
      assert b * q <= b * (p - 1) by { MulMonotone(b, q, p - 1); }
    } else {
      assert b * p <= b * q by { MulMonotone(b, p, q); }
    }
  }

  lemma MulMonotone(b: nat, x: nat, y: nat)
    requires x <= y
    ensures b * x <= b * y
  {
  }

  lemma {:induction false} PowMonotone(b: nat, i: nat, j: nat)
    requires b >= 1 && i <= j
    ensures Pow(b, i) <= Pow(b, j)
    decreases j
  {
    if j > i {
      PowMonotone(b, i, j - 1);
      assert Pow(b, j - 1) <= b * Pow(b, j - 1) by { MulMonotone(Pow(b, j - 1), 1, b); }
    }
  }

  /** Leading zeros do not change the value of a digit string. */
  lemma {:induction false} LeadingZeros(z: string, s: string, radix: nat)
    requires forall k :: 0 <= k < |z| ==> z[k] == '0'
    ensures DigitsValue(z + s, radix) == DigitsValue(s, radix)
    decreases |s|
  {
    if s == "" {
      assert z + s == z;
      ZerosValue(z, radix);
    } else {
      assert (z + s)[..|z + s| - 1] == z + s[..|s| - 1];
      LeadingZeros(z, s[..|s| - 1], radix);
    }
  }

  lemma {:induction false} ZerosValue(z: string, radix: nat)
    requires forall k :: 0 <= k < |z| ==> z[k] == '0'
    ensures DigitsValue(z, radix) == 0
    decreases |z|
  {
    if z != "" {
      ZerosValue(z[..|z| - 1], radix);
    }
  }

  // ---------------------------------------------------------------- case

  function UpperChar(c: char): char {
    if 'a' <= c <= 'z' then (c as int - 32) as char else c
  }

  /** String.prototype.toUpperCase on ASCII text. */
  function AsciiUpper(s: string): (r: string)
    ensures |r| == |s| && forall k :: 0 <= k < |s| ==> r[k] == UpperChar(s[k])
  {
    seq(|s|, k requires 0 <= k < |s| => UpperChar(s[k]))
  }
}
