/**
 * The tag-length-value layout of an EMV merchant-presented QR payload: each
 * field is a two-digit tag, a two-digit decimal length and exactly that many
 * characters of value.  The rewrite builds its fields by hand in this layout;
 * the decoder below is a reference reading of it, used to state what the
 * built payload means.
 */
module Tlv {
  import opened Wrappers
  import opened JsString

  datatype Field = Field(tag: string, value: string)

  predicate IsDecimalDigit(c: char) {
    '0' <= c <= '9'
  }

  predicate IsTwoDigits(s: string) {
    |s| == 2 && IsDecimalDigit(s[0]) && IsDecimalDigit(s[1])
  }

  /** A length as the layout writes it: two decimal digits (the last two, past 99). */
  function LengthText(n: nat): (r: string)
    ensures IsTwoDigits(r)
  {
    [DigitChar(n / 10 % 10), DigitChar(n % 10)]
  }

  /** The two fixed lengths the payload rewrite writes out literally. */
  lemma LengthTextLiterals()
    ensures LengthText(2) == "02" && LengthText(4) == "04"
  {
  }

  /** The number two decimal digits denote. */
  function LengthValue(d: string): (n: nat)
    requires IsTwoDigits(d)
    ensures n <= 99
  {
    DigitValue(d[0]) * 10 + DigitValue(d[1])
  }

  /** Reading back a written length gives the length. */
  lemma LengthRoundTrip(n: nat)
    requires n <= 99
    ensures LengthValue(LengthText(n)) == n
  {
    assert n / 10 % 10 == n / 10;
  }

  /** Writing a read length gives the two digits back. */
  lemma LengthTextOfValue(d: string)
    requires IsTwoDigits(d)
    ensures LengthText(LengthValue(d)) == d
  {
    var hi, lo := DigitValue(d[0]), DigitValue(d[1]);
    assert DigitChar(hi) == d[0] && DigitChar(lo) == d[1];
    assert (hi * 10 + lo) / 10 % 10 == hi && (hi * 10 + lo) % 10 == lo;
  }

  /**
   * `n.toString().padStart(2, "0")`, the way the rewrite writes a length:
   * the layout's two digits up to 99, and more than two characters beyond,
   * so that a longer value no longer fits the layout.
   */
  function Pad2(n: nat): string {
    PadStart(NumberToString(n, 10), 2, '0')
  }

  lemma Pad2IsLengthText(n: nat)
    ensures n <= 99 ==> Pad2(n) == LengthText(n)
    ensures n > 99 ==> |Pad2(n)| > 2
  {
    NumberToStringLength(n, 10, 2);
    assert Pow(10, 2) == 100;
    if n <= 99 {
      if n < 10 {
        assert NumberToString(n, 10) == [DigitChar(n)];
        assert n / 10 % 10 == 0 && n % 10 == n;
      } else {
        assert NumberToString(n / 10, 10) == [DigitChar(n / 10)];
        assert n / 10 % 10 == n / 10;
        assert NumberToString(n, 10) == [DigitChar(n / 10), DigitChar(n % 10)];
      }
    }
  }

  /** A field the layout can carry: a two-digit tag and at most 99 characters of value. */
  predicate ValidField(f: Field) {
    IsTwoDigits(f.tag) && |f.value| <= 99
  }

  function Encode(f: Field): string {
    f.tag + LengthText(|f.value|) + f.value
  }

  function EncodeAll(fs: seq<Field>): string {
    if fs == [] then "" else Encode(fs[0]) + EncodeAll(fs[1..])
  }

  /**
   * Reads the field at the front of `s`: its tag, its two-digit length and
   * that many characters of value; None when `s` is too short for them or a
   * tag or length character is not a digit.
   */
  function ReadField(s: string): (r: Option<(Field, string)>)
    ensures r.Some? ==> |r.value.1| < |s| && ValidField(r.value.0)
  {
    if |s| < 4 || !IsTwoDigits(s[..2]) || !IsTwoDigits(s[2..4]) then None
    else
      var len := LengthValue(s[2..4]);
      if |s| < 4 + len then None
      else Some((Field(s[..2], s[4..4 + len]), s[4 + len..]))
  }

  /** What ReadField takes off the front is exactly the encoding of the field it returns. */
  lemma ReadFieldInverse(s: string)
    requires ReadField(s).Some?
    ensures s == Encode(ReadField(s).value.0) + ReadField(s).value.1
  {
    var len := LengthValue(s[2..4]);
    assert LengthText(len) == s[2..4] by { LengthTextOfValue(s[2..4]); }
    assert s == s[..2] + s[2..4] + s[4..4 + len] + s[4 + len..];
  }

  /** Reading an encoded field gives the field back and leaves what follows. */
  lemma ReadEncoded(f: Field, rest: string)
    requires ValidField(f)
    ensures ReadField(Encode(f) + rest) == Some((f, rest))
  {
    var s := Encode(f) + rest;
    var len := |f.value|;
    assert s[..2] == f.tag;
    assert s[2..4] == LengthText(len);
    assert LengthValue(s[2..4]) == len by { LengthRoundTrip(len); }
    assert s[4..4 + len] == f.value;
    assert s[4 + len..] == rest;
  }

  /** Decodes a whole payload into its top-level fields. */
  function Decode(s: string): (r: Option<seq<Field>>)
    decreases |s|
  {
    if s == "" then Some([])
    else
      match ReadField(s)
      case None => None
      case Some((f, rest)) =>
        match Decode(rest)
        case None => None
        case Some(fs) => Some([f] + fs)
  }

  /** A decoded payload is the encoding of its fields. */
  lemma {:induction false} EncodeDecoded(s: string)
    requires Decode(s).Some?
    ensures EncodeAll(Decode(s).value) == s
    decreases |s|
  {
    if s != "" {
      var (f, rest) := ReadField(s).value;
      var fs := Decode(rest).value;
      assert Decode(s).value == [f] + fs;
      assert s == Encode(f) + rest by { ReadFieldInverse(s); }
      assert EncodeAll(fs) == rest by { EncodeDecoded(rest); }
      assert EncodeAll([f] + fs) == Encode(f) + EncodeAll(fs) by {
        assert ([f] + fs)[1..] == fs;
      }
    }
  }

  /** A field read from `s` is read the same way when more text follows. */
  lemma ReadFieldAppend(s: string, more: string)
    requires ReadField(s).Some?
    ensures ReadField(s + more) == Some((ReadField(s).value.0, ReadField(s).value.1 + more))
  {
    var (f, rest) := ReadField(s).value;
    assert s == Encode(f) + rest by { ReadFieldInverse(s); }
    assert s + more == Encode(f) + (rest + more);
    ReadEncoded(f, rest + more);
  }

  /** Two decodable payloads placed side by side decode to both field lists in order. */
  lemma {:induction false} DecodeAppend(a: string, b: string)
    requires Decode(a).Some? && Decode(b).Some?
    ensures Decode(a + b) == Some(Decode(a).value + Decode(b).value)
    decreases |a|
  {
    if a == "" {
      assert a + b == b;
      assert Decode(a).value + Decode(b).value == Decode(b).value;
    } else {
      DecodeUncons(a);
      var f, rest := ReadField(a).value.0, ReadField(a).value.1;
      var fs, gs := Decode(rest).value, Decode(b).value;
      assert Decode(a + b) == Some([f] + (fs + gs)) by {
        ReadFieldAppend(a, b);
        DecodeAppend(rest, b);
        DecodeCons(a + b, f, rest + b, fs + gs);
      }
      assert [f] + (fs + gs) == ([f] + fs) + gs;
    }
  }

  /** Five decodable payloads in a row decode to their field lists in order. */
  lemma DecodeAppend5(a: string, b: string, c: string, d: string, e: string)
    requires Decode(a).Some? && Decode(b).Some? && Decode(c).Some? && Decode(d).Some? && Decode(e).Some?
    ensures Decode(a + b + c + d + e) == Some(Decode(a).value + Decode(b).value + Decode(c).value + Decode(d).value + Decode(e).value)
  {
    DecodeAppend(a, b);
    DecodeAppend(a + b, c);
    DecodeAppend(a + b + c, d);
    DecodeAppend(a + b + c + d, e);
  }

  /** One valid field on its own decodes to exactly that field. */
  lemma DecodeSingle(f: Field)
    requires ValidField(f)
    ensures Decode(Encode(f)) == Some([f])
  {
    ReadEncoded(f, "");
    assert Encode(f) + "" == Encode(f);
    assert [f] + [] == [f];
    DecodeCons(Encode(f), f, "", []);
  }

  lemma DecodeUncons(s: string)
    requires s != "" && Decode(s).Some?
    ensures ReadField(s).Some? && Decode(ReadField(s).value.1).Some?
    ensures Decode(s).value == [ReadField(s).value.0] + Decode(ReadField(s).value.1).value
  {
  }

  lemma DecodeCons(s: string, f: Field, rest: string, fs: seq<Field>)
    requires s != "" && ReadField(s) == Some((f, rest)) && Decode(rest) == Some(fs)
    ensures Decode(s) == Some([f] + fs)
  {
  }

  /** Decoding undoes encoding, for every list of valid fields. */
  lemma {:induction false} DecodeEncodeAll(fs: seq<Field>)
    requires forall k :: 0 <= k < |fs| ==> ValidField(fs[k])
    ensures Decode(EncodeAll(fs)) == Some(fs)
  {
    if fs != [] {
      var s := EncodeAll(fs);
      assert s == Encode(fs[0]) + EncodeAll(fs[1..]);
      assert Decode(EncodeAll(fs[1..])) == Some(fs[1..]) by { DecodeEncodeAll(fs[1..]); }
      assert ReadField(s) == Some((fs[0], EncodeAll(fs[1..]))) by { ReadEncoded(fs[0], EncodeAll(fs[1..])); }
      assert s != "" by { assert |Encode(fs[0])| >= 4; }
      assert [fs[0]] + fs[1..] == fs;
    }
  }
}
