/**
 * The deployed copy of the rewrite (`netlify/functions/generate.ts`): a
 * `crc16` that walks the string by code points and masks the register to
 * 16 bits after every round, and the payload statements of the POST
 * handler, which write the fee verbatim behind a fixed tag-55 indicator,
 * trim both halves of the split payload and fail without a country marker.
 */
module NetlifyGenerate {
  import opened Wrappers
  import opened JsString
  import opened Tlv
  import opened Crc16Core
  import opened QrisCommon

  // ------------------------------------------------------------ crc16

  /** `crc &= 0xFFFF`. */
  function Mask(x: Register): Register {
    x & 0xFFFF
  }

  lemma MaskIs(x: Register, r: Register)
    requires r == x & 0xFFFF
    ensures r == Mask(x)
  {
  }

  /** One round of the inner loop: the round, then the mask. */
  function MaskedRound(x: Register): Register {
    Mask(Round(x))
  }

  /** After every masked round the register is within 0..0xFFFF. */
  lemma MaskedBound(x: Register)
    ensures MaskedRound(x) <= 0xFFFF
  {
  }

  lemma MaskedIs(x: Register, next: Register, out: Register)
    requires next == Round(x) && out == Mask(next)
    ensures out == MaskedRound(x)
  {
  }

  /** One code point of the outer loop: XOR its first code unit into the high byte, then eight rounds. */
  function Step(x: Register, u: CodeUnit): Register {
    Iterate(MaskedRound, x ^ ((u as Register) << 8), 8)
  }

  lemma StepIs(x: Register, u: CodeUnit, start: Register, out: Register)
    requires start == x ^ ((u as Register) << 8) && out == Iterate(MaskedRound, start, 8)
    ensures out == Step(x, u)
  {
  }

  /** After at least one masked round the register fits in 16 bits. */
  lemma StepBound(x: Register, u: CodeUnit)
    ensures Step(x, u) <= 0xFFFF
  {
    var before := Iterate(MaskedRound, x ^ ((u as Register) << 8), 7);
    assert Step(x, u) == MaskedRound(before);
    MaskedBound(before);
  }

  /** A register of 16 bits stays one through any number of steps. */
  lemma {:induction false} FoldBound(x: Register, units: seq<CodeUnit>)
    requires x <= 0xFFFF
    ensures Fold(Step, x, units) <= 0xFFFF
    decreases |units|
  {
    if units != [] {
      StepBound(x, units[0]);
      FoldBound(Step(x, units[0]), units[1..]);
    }
  }

  /** `ch.charCodeAt(0)` for each code point `ch` that `for..of` yields. */
  function LeadUnits(s: string): (r: seq<CodeUnit>)
    ensures |r| == |s| && forall k :: 0 <= k < |s| ==> r[k] == LeadUnit(s[k])
  {
    seq(|s|, k requires 0 <= k < |s| => LeadUnit(s[k]))
  }

  /** The register after the outer loop; it never leaves 16 bits. */
  function FinalRegister(s: string): (r: Register)
    ensures r <= 0xFFFF
  {
    FoldBound(InitialRegister, LeadUnits(s));
    Fold(Step, InitialRegister, LeadUnits(s))
  }

  /**
   * What `crc16(str)` returns: exactly four upper-case hexadecimal digits,
   * zero-padded on the left, that spell the register.
   */
  function Checksum(s: string): (r: string)
    ensures |r| == 4 && forall k :: 0 <= k < 4 ==> IsUpperHexDigit(r[k])
    ensures DigitsValue(r, 16) == Value16(FinalRegister(s))
  {
    var n := Value16(FinalRegister(s));
    Hex4Shape(n);
    Hex4(n)
  }

  /** `crc16`: the result is the checksum of `str`. */
  method Crc16(str: string) returns (r: string)
    ensures r == Checksum(str)
  {
    var crc := ReadAll(str);
    r := Hex4(Value16(crc));
  }

  /**
   * The two loops of `crc16`: one step per code point of `str`, eight
   * masked rounds per step; after every round the register is within
   * 0..0xFFFF.
   */
  method ReadAll(str: string) returns (crc: Register)
    ensures crc == FinalRegister(str)
  {
    crc := InitialRegister;
    var i := 0;
    while i < |str|
      invariant 0 <= i <= |str|
      invariant crc == Fold(Step, InitialRegister, LeadUnits(str)[..i])
    {
      ghost var prev := crc;
      var u := LeadUnit(str[i]);
      var start := crc ^ ((u as Register) << 8);
      crc := start;
      var j := 0;
      while j < 8
        invariant 0 <= j <= 8
        invariant crc == Iterate(MaskedRound, start, j)
      {
        ghost var before := crc;
        crc := if crc & 0x8000 != 0 then (crc << 1) ^ Polynomial else crc << 1;
        RoundCases(before, crc);
        ghost var next := crc;
        crc := crc & 0xFFFF;
        MaskIs(next, crc);
        MaskedIs(before, next, crc);
        j := j + 1;
      }
      StepIs(prev, u, start, crc);
      FoldPrefix(Step, InitialRegister, LeadUnits(str), i);
      i := i + 1;
    }
    assert LeadUnits(str)[..i] == LeadUnits(str);
  }

  // ------------------------------------------------------------ fee

  /** The fee types the form offers: "r" for a fixed amount in rupiah, "p" for a percentage. */
  datatype FeeKind = Fixed | Percentage

  /** `["r", "p"].includes(fee_type)`, and which of the two it is. */
  function FeeKindOf(feeType: string): Option<FeeKind> {
    if feeType == "r" then Some(Fixed)
    else if feeType == "p" then Some(Percentage)
    else None
  }

  /**
   * The indicator written before the fee: tag 55 with value 02 (fixed fee,
   * carried in tag 56) or value 03 (percentage, carried in tag 57), then
   * the tag that carries the fee.
   */
  function FeeTag(kind: FeeKind): string {
    match kind
    case Fixed => "55020256"
    case Percentage => "55020357"
  }

  /** The fee text appended to the amount field, `fee_value` verbatim behind its indicator. */
  function FeeText(serviceFee: bool, feeType: string, feeValue: string): string {
    if serviceFee && FeeKindOf(feeType).Some? then
      FeeTag(FeeKindOf(feeType).value) + Pad2(|feeValue|) + feeValue
    else
      ""
  }

  /**
   * What the fee text means as TLV fields: the indicator 55 and the fee
   * value under tag 56 for a fixed fee or 57 for a percentage.
   */
  function FeeFields(serviceFee: bool, feeType: string, feeValue: string): seq<Field> {
    if serviceFee && feeType == "r" then [Field("55", "02"), Field("56", feeValue)]
    else if serviceFee && feeType == "p" then [Field("55", "03"), Field("57", feeValue)]
    else []
  }

  /**
   * No fee text unless the flag is set and the type is "r" or "p"; the
   * indicator is 55020256 for "r" and 55020357 for "p", followed by the
   * padded length and the fee value itself; up to 99 characters of fee
   * value, the text reads as the fee fields.
   */
  lemma FeeTextSpec(serviceFee: bool, feeType: string, feeValue: string)
    ensures FeeText(serviceFee, feeType, feeValue) == "" <==> !(serviceFee && (feeType == "r" || feeType == "p"))
    ensures serviceFee && feeType == "r" ==> FeeText(serviceFee, feeType, feeValue) == "55020256" + Pad2(|feeValue|) + feeValue
    ensures serviceFee && feeType == "p" ==> FeeText(serviceFee, feeType, feeValue) == "55020357" + Pad2(|feeValue|) + feeValue
    ensures |feeValue| <= 99 ==> Decode(FeeText(serviceFee, feeType, feeValue)) == Some(FeeFields(serviceFee, feeType, feeValue))
  {
    if serviceFee && FeeKindOf(feeType).Some? && |feeValue| <= 99 {
      if feeType == "r" {
        FeeTagDecodes(Fixed, "02", "56", feeValue);
        FieldPair(Field("55", "02"), Field("56", feeValue));
      } else {
        FeeTagDecodes(Percentage, "03", "57", feeValue);
        FieldPair(Field("55", "03"), Field("57", feeValue));
      }
    }
  }

  lemma FieldPair(a: Field, b: Field)
    ensures [a] + [b] == [a, b]
  {
  }

  /** An indicator, its carrier tag and the fee value are two TLV fields. */
  lemma FeeTagDecodes(kind: FeeKind, indicator: string, carrier: string, feeValue: string)
    requires |feeValue| <= 99
    requires FeeTag(kind) == "55" + "02" + indicator + carrier && |indicator| == 2 && IsTwoDigits(carrier)
    ensures Decode(FeeTag(kind) + Pad2(|feeValue|) + feeValue) == Some([Field("55", indicator)] + [Field(carrier, feeValue)])
  {
    LengthTextLiterals();
    Pad2IsLengthText(|feeValue|);
    var head := "55" + "02" + indicator;
    var pad := Pad2(|feeValue|);
    var first := Encode(Field("55", indicator));
    var second := Encode(Field(carrier, feeValue));
    assert first == head;
    assert second == carrier + pad + feeValue;
    SeqAssoc(head, carrier, pad);
    SeqAssoc(head, carrier + pad, feeValue);
    assert FeeTag(kind) + pad + feeValue == first + second;
    DecodeSingle(Field("55", indicator));
    DecodeSingle(Field(carrier, feeValue));
    DecodeAppend(first, second);
  }

  // ------------------------------------------------------------ payload

  datatype GenerateError =
    | MissingParameters     // `qris` or `qty` empty: the 400 response
    | MissingCountryMarker  // `parts[1].trim()` on undefined: the 500 response

  /** The last four characters of `r` are the checksum of everything before them. */
  predicate Sealed(r: string) {
    |r| >= 4 && r[|r| - 4..] == Checksum(r[..|r| - 4])
  }

  /** `payload + crc16(payload)`. */
  function Seal(payload: string): (r: string)
    ensures Sealed(r) && r[..|r| - 4] == payload
  {
    assert (payload + Checksum(payload))[..|payload|] == payload;
    payload + Checksum(payload)
  }

  /**
   * `parts[0].trim() + amountField + parts[1].trim()` for `parts` the split
   * of `base` at the country marker; nothing when there is no `parts[1]`.
   */
  function Splice(base: string, amountField: string): Option<string> {
    var parts := Split(base, CountryMarker);
    if |parts| < 2 then None else Some(Trim(parts[0]) + amountField + Trim(parts[1]))
  }

  /**
   * The splice fails exactly when `base` has no country marker; otherwise
   * it is the trimmed text before the first marker, the amount field, and
   * the trimmed text after the marker up to the next one (all of the rest
   * with only one marker).
   */
  lemma SpliceShape(base: string, amountField: string)
    ensures Splice(base, amountField).None? <==> IndexOf(base, CountryMarker).None?
    ensures Splice(base, amountField).Some? ==>
      var i := IndexOf(base, CountryMarker).value;
      && Splice(base, amountField).value
           == Trim(base[..i]) + amountField + Trim(UpToNext(base[i + 6..], CountryMarker))
      && (IndexOf(base[i + 6..], CountryMarker).None? ==> UpToNext(base[i + 6..], CountryMarker) == base[i + 6..])
  {
    SplitAtMarker(base);
  }

  /**
   * The handler's guard and payload statements: the dynamic payload, or
   * the error the handler answers with.
   */
  function Generate(qris: string, qty: string, serviceFee: bool, feeType: string, feeValue: string)
    : (r: Result<string, GenerateError>)
    ensures r == Err(MissingParameters) <==> qris == "" || qty == ""
    ensures r == Err(MissingCountryMarker) <==> qris != "" && qty != "" && IndexOf(Base(qris), CountryMarker).None?
    ensures r.Ok? ==> Sealed(r.value)
  {
    if qris == "" || qty == "" then Err(MissingParameters)
    else
      var amountField := AmountField(qty) + FeeText(serviceFee, feeType, feeValue) + CountryMarker;
      SpliceShape(Base(qris), amountField);
      match Splice(Base(qris), amountField)
      case None => Err(MissingCountryMarker)
      case Some(payload) => Ok(Seal(payload))
  }

  /**
   * A generated payload is the trimmed text before the first country
   * marker, the amount field, the fee text, the marker, and the trimmed
   * text after it up to the next marker, sealed with its checksum.
   */
  lemma GenerateShape(qris: string, qty: string, serviceFee: bool, feeType: string, feeValue: string, i: nat)
    requires qris != "" && qty != "" && IndexOf(Base(qris), CountryMarker) == Some(i)
    ensures Generate(qris, qty, serviceFee, feeType, feeValue) == Ok(Seal(
      Trim(Base(qris)[..i]) + (AmountField(qty) + FeeText(serviceFee, feeType, feeValue) + CountryMarker)
      + Trim(UpToNext(Base(qris)[i + 6..], CountryMarker))))
  {
    var amountField := AmountField(qty) + FeeText(serviceFee, feeType, feeValue) + CountryMarker;
    SpliceShape(Base(qris), amountField);
    var payload := Splice(Base(qris), amountField).value;
    assert Generate(qris, qty, serviceFee, feeType, feeValue) == Ok(Seal(payload));
  }

  /**
   * When the trimmed head decodes and the trimmed tail is TLV fields
   * closed by "6304", a sealed payload `head + block + "5802ID" + tail`
   * reads as the head's fields, the block's, the country code, the tail's
   * fields and the checksum field.
   */
  lemma SealedDecodes(head: string, block: string, tail: string)
    requires Decode(head).Some? && Decode(block).Some?
    requires |tail| >= 4 && tail[|tail| - 4..] == ChecksumHeader && Decode(tail[..|tail| - 4]).Some?
    ensures var r := Seal(head + (block + CountryMarker) + tail);
      Decode(r) == Some(Decode(head).value + Decode(block).value + [Field("58", "ID")]
        + Decode(tail[..|tail| - 4]).value + [Field("63", r[|r| - 4..])])
  {
    var payload := head + (block + CountryMarker) + tail;
    var crc := Checksum(payload);
    SeqAssoc(head, block, CountryMarker);
    assert payload == head + block + CountryMarker + tail;
    assert Seal(payload) == payload + crc;
    DecodeReassembled(head, block, tail, crc);
  }

  /**
   * For a quantity and a fee value of at most 99 characters, when the
   * trimmed head decodes and the trimmed tail is TLV fields closed by
   * "6304", the generated payload reads as the head's fields, the amount,
   * the fee fields, the country code, the tail's fields and the checksum.
   */
  lemma GenerateDecodes(qris: string, qty: string, serviceFee: bool, feeType: string, feeValue: string, i: nat)
    requires qris != "" && qty != "" && IndexOf(Base(qris), CountryMarker) == Some(i)
    requires |qty| <= 99 && |feeValue| <= 99
    requires var tail := Trim(UpToNext(Base(qris)[i + 6..], CountryMarker));
      && Decode(Trim(Base(qris)[..i])).Some?
      && |tail| >= 4 && tail[|tail| - 4..] == ChecksumHeader && Decode(tail[..|tail| - 4]).Some?
    ensures Generate(qris, qty, serviceFee, feeType, feeValue).Ok?
    ensures var tail := Trim(UpToNext(Base(qris)[i + 6..], CountryMarker));
      var r := Generate(qris, qty, serviceFee, feeType, feeValue).value;
      Decode(r) == Some(Decode(Trim(Base(qris)[..i])).value + [Field(AmountTag, qty)]
        + FeeFields(serviceFee, feeType, feeValue) + [Field("58", "ID")]
        + Decode(tail[..|tail| - 4]).value + [Field("63", r[|r| - 4..])])
  {
    var base := Base(qris);
    var head := Trim(base[..i]);
    var tail := Trim(UpToNext(base[i + 6..], CountryMarker));
    var block := AmountField(qty) + FeeText(serviceFee, feeType, feeValue);
    GenerateShape(qris, qty, serviceFee, feeType, feeValue, i);
    var r := Seal(head + (block + CountryMarker) + tail);
    var hs := Decode(head).value;
    var fs := [Field(AmountTag, qty)] + FeeFields(serviceFee, feeType, feeValue);
    var ts := Decode(tail[..|tail| - 4]).value;
    BlockDecodes(qty, serviceFee, feeType, feeValue);
    SealedDecodes(head, block, tail);
    assert Decode(r) == Some(hs + fs + [Field("58", "ID")] + ts + [Field("63", r[|r| - 4..])]);
    FieldsAssoc(hs, [Field(AmountTag, qty)], FeeFields(serviceFee, feeType, feeValue));
  }

  lemma FieldsAssoc(a: seq<Field>, b: seq<Field>, c: seq<Field>)
    ensures a + (b + c) == a + b + c
  {
  }

  /** For a quantity and a fee value of at most 99 characters the block reads as the amount and fee fields. */
  lemma BlockDecodes(qty: string, serviceFee: bool, feeType: string, feeValue: string)
    requires |qty| <= 99 && |feeValue| <= 99
    ensures Decode(AmountField(qty) + FeeText(serviceFee, feeType, feeValue))
      == Some([Field(AmountTag, qty)] + FeeFields(serviceFee, feeType, feeValue))
  {
    AmountFieldSpec(qty);
    FeeTextSpec(serviceFee, feeType, feeValue);
    DecodeAppend(AmountField(qty), FeeText(serviceFee, feeType, feeValue));
  }
}
