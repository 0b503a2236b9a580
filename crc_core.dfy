/**
 * What the two `crc16` copies share: the CRC-16/CCITT-FALSE parameters, the
 * shift/XOR round on a JavaScript 32-bit integer register, the left fold
 * over character codes, the UTF-16 code units of a string and the
 * four-digit upper-case hexadecimal rendering of the register.
 */
module Crc16Core {
  import opened JsString

  /** The register: JavaScript's bitwise operators work on 32-bit integers. */
  type Register = bv32

  /** A UTF-16 code unit, as `charCodeAt` returns it. */
  type CodeUnit = u: int | 0 <= u < 0x10000

  const Polynomial: Register := 0x1021
  const InitialRegister: Register := 0xFFFF

  /** One round: shift left, and XOR in the polynomial when bit 15 was set. */
  function Round(x: Register): Register {
    if x & 0x8000 != 0 then (x << 1) ^ Polynomial else x << 1
  }

  /** The two branches of the round, as the source writes them, are the round. */
  lemma RoundCases(x: Register, next: Register)
    requires x & 0x8000 != 0 ==> next == (x << 1) ^ Polynomial
    requires x & 0x8000 == 0 ==> next == x << 1
    ensures next == Round(x)
  {
  }

  /** `n` applications of `f`, the inner loop of either copy. */
  function Iterate(f: Register -> Register, x: Register, n: nat): Register {
    if n == 0 then x else f(Iterate(f, x, n - 1))
  }

  /** The outer loop: `step` applied to each code in turn, from the left. */
  function Fold(step: (Register, CodeUnit) -> Register, x: Register, codes: seq<CodeUnit>): Register
    decreases |codes|
  {
    if codes == [] then x else Fold(step, step(x, codes[0]), codes[1..])
  }

  /** Folding over a single code is a single step. */
  lemma FoldOne(step: (Register, CodeUnit) -> Register, x: Register, c: CodeUnit)
    ensures Fold(step, x, [c]) == step(x, c)
  {
    assert [c][1..] == [];
  }

  /** One more code at the end is one more step on the register reached so far. */
  lemma {:induction false} FoldSnoc(step: (Register, CodeUnit) -> Register, x: Register, codes: seq<CodeUnit>, c: CodeUnit)
    ensures Fold(step, x, codes + [c]) == step(Fold(step, x, codes), c)
    decreases |codes|
  {
    if codes == [] {
      assert codes + [c] == [c];
    } else {
      assert (codes + [c])[1..] == codes[1..] + [c];
      FoldSnoc(step, step(x, codes[0]), codes[1..], c);
    }
  }

  /** The fold over one more element of a prefix, as a loop over `codes` needs it. */
  lemma FoldPrefix(step: (Register, CodeUnit) -> Register, x: Register, codes: seq<CodeUnit>, i: nat)
    requires i < |codes|
    ensures Fold(step, x, codes[..i + 1]) == step(Fold(step, x, codes[..i]), codes[i])
  {
    assert codes[..i + 1] == codes[..i] + [codes[i]];
    FoldSnoc(step, x, codes[..i], codes[i]);
  }

  /** Folding a concatenation folds the second part from where the first ended. */
  lemma {:induction false} FoldAppend(step: (Register, CodeUnit) -> Register, x: Register, a: seq<CodeUnit>, b: seq<CodeUnit>)
    ensures Fold(step, x, a + b) == Fold(step, Fold(step, x, a), b)
    decreases |a|
  {
    if a == [] {
      assert a + b == b;
    } else {
      assert (a + b)[1..] == a[1..] + b;
      FoldAppend(step, step(x, a[0]), a[1..], b);
    }
  }

  // ------------------------------------------------------------ code units

  predicate IsBmp(c: char) {
    c as int < 0x10000
  }

  /**
   * The UTF-16 code units of one character: itself inside the Basic
   * Multilingual Plane, otherwise a high and a low surrogate that together
   * encode it.
   */
  function CharUnits(c: char): (r: seq<CodeUnit>)
    ensures |r| == (if IsBmp(c) then 1 else 2)
    ensures IsBmp(c) ==> r == [c as int]
    ensures !IsBmp(c) ==>
      && 0xD800 <= r[0] < 0xDC00 && 0xDC00 <= r[1] < 0xE000
      && 0x10000 + (r[0] as int - 0xD800) * 0x400 + (r[1] as int - 0xDC00) == c as int
  {
    var v := c as int;
    if v < 0x10000 then [v]
    else
      assert 0 <= (v - 0x10000) / 0x400 < 0x400 && 0 <= (v - 0x10000) % 0x400 < 0x400;
      [0xD800 + (v - 0x10000) / 0x400, 0xDC00 + (v - 0x10000) % 0x400]
  }

  /** The code units `charCodeAt` walks through, in order. */
  function CodeUnits(s: string): seq<CodeUnit> {
    if s == "" then [] else CharUnits(s[0]) + CodeUnits(s[1..])
  }

  lemma {:induction false} CodeUnitsAppend(s: string, t: string)
    ensures CodeUnits(s + t) == CodeUnits(s) + CodeUnits(t)
    decreases |s|
  {
    if s == "" {
      assert s + t == t;
    } else {
      assert (s + t)[1..] == s[1..] + t;
      CodeUnitsAppend(s[1..], t);
    }
  }

  /**
   * `ch.charCodeAt(0)` for a character that `for..of` yields: the code of a
   * BMP character, the leading surrogate of any other.
   */
  function LeadUnit(c: char): (u: CodeUnit)
    ensures IsBmp(c) ==> u == c as int
  {
    CharUnits(c)[0]
  }

  // ------------------------------------------------------------ rendering

  predicate IsUpperHexDigit(c: char) {
    '0' <= c <= '9' || 'A' <= c <= 'F'
  }

  /** The value of the low 16 bits of a register. */
  function Low16(x: Register): (n: nat)
    ensures n < 0x10000
  {
    ((x & 0xFFFF) as bv16) as int
  }

  /** The value of a register that already fits in 16 bits. */
  function Value16(x: Register): (n: nat)
    requires x <= 0xFFFF
    ensures n < 0x10000
  {
    (x as bv16) as int
  }

  lemma Low16Value16(x: Register)
    requires x <= 0xFFFF
    ensures Low16(x) == Value16(x)
  {
    assert x & 0xFFFF == x;
  }

  /** `n.toString(16).toUpperCase().padStart(4, '0')`. */
  function Hex4(n: nat): string {
    PadStart(AsciiUpper(NumberToString(n, 16)), 4, '0')
  }

  /**
   * Below 0x10000 the rendering is exactly four upper-case hexadecimal
   * digits, zero-padded on the left, that read back as `n`.
   */
  lemma Hex4Shape(n: nat)
    requires n < 0x10000
    ensures |Hex4(n)| == 4
    ensures forall k :: 0 <= k < 4 ==> IsUpperHexDigit(Hex4(n)[k])
    ensures DigitsValue(Hex4(n), 16) == n
  {
    var d := NumberToString(n, 16);
    assert |d| <= 4 by {
      NumberToStringLength(n, 16, 4);
      assert Pow(16, 4) == 0x10000;
    }
    var u := AsciiUpper(d);
    assert DigitsValue(u, 16) == n by {
      UpperValue(d);
      NumberToStringValue(n, 16);
    }
    assert forall k :: 0 <= k < |u| ==> IsUpperHexDigit(u[k]) by {
      forall k | 0 <= k < |u| ensures IsUpperHexDigit(u[k]) {
        assert DigitValue(d[k]) < 16;
      }
    }
    var r := PadStart(u, 4, '0');
    assert r == Hex4(n);
    ZeroPadded(u, r);
  }

  lemma ZeroPadded(u: string, r: string)
    requires |u| <= 4 && r == PadStart(u, 4, '0')
    requires forall k :: 0 <= k < |u| ==> IsUpperHexDigit(u[k])
    ensures |r| == 4 && DigitsValue(r, 16) == DigitsValue(u, 16)
    ensures forall k :: 0 <= k < 4 ==> IsUpperHexDigit(r[k])
  {
    var z := r[..4 - |u|];
    assert r == z + u;
    LeadingZeros(z, u, 16);
    forall k | 0 <= k < 4
      ensures IsUpperHexDigit(r[k])
    {
      if k >= 4 - |u| {
        assert r[k] == u[k - (4 - |u|)];
      }
    }
  }

  /** Upper-casing a digit string keeps its value. */
  lemma {:induction false} UpperValue(s: string)
    ensures DigitsValue(AsciiUpper(s), 16) == DigitsValue(s, 16)
    decreases |s|
  {
    if s != "" {
      var u := AsciiUpper(s);
      assert u[..|u| - 1] == AsciiUpper(s[..|s| - 1]);
      UpperValue(s[..|s| - 1]);
    }
  }
}
