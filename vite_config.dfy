/**
 * The development server's copy of the rewrite (`vite.config.ts`): a
 * `crc16` whose 32-bit register is masked to 16 bits only once, after the
 * last character, and `processQRIS`, which adds a float-formatted fee under
 * a bare tag 55 and takes no care over a missing country marker.
 */
module ViteConfig {
  import opened Wrappers
  import opened JsString
  import opened Tlv
  import opened Crc16Core
  import opened QrisCommon

  // ------------------------------------------------------------ crc16

  /** One character of the outer loop: XOR the code into the high byte, then eight rounds. */
  function Step(x: Register, u: CodeUnit): Register {
    Iterate(Round, x ^ ((u as Register) << 8), 8)
  }

  lemma StepIs(x: Register, u: CodeUnit, start: Register, out: Register)
    requires start == x ^ ((u as Register) << 8) && out == Iterate(Round, start, 8)
    ensures out == Step(x, u)
  {
  }

  /** The register after the outer loop, before the final mask. */
  function FinalRegister(data: string): Register {
    Fold(Step, InitialRegister, CodeUnits(data))
  }

  /**
   * What `crc16(data)` returns: exactly four upper-case hexadecimal digits,
   * zero-padded on the left, that spell the low 16 bits of the register.
   */
  function Checksum(data: string): (r: string)
    ensures |r| == 4 && forall k :: 0 <= k < 4 ==> IsUpperHexDigit(r[k])
    ensures DigitsValue(r, 16) == Low16(FinalRegister(data))
  {
    var n := Low16(FinalRegister(data));
    Hex4Shape(n);
    Hex4(n)
  }

  /** `crc16`: the result is the checksum of `data`. */
  method Crc16(data: string) returns (r: string)
    ensures r == Checksum(data)
  {
    var crc := ReadAll(data);
    crc := crc & 0xFFFF;
    r := Hex4(Value16(crc));
  }

  /**
   * The two loops of `crc16`: one step per UTF-16 code unit of `data` (the
   * units `charCodeAt` returns for indices below `data.length`), eight
   * rounds per step.
   */
  method ReadAll(data: string) returns (crc: Register)
    ensures crc == FinalRegister(data)
  {
    var units := CodeUnits(data);
    crc := InitialRegister;
    var i := 0;
    while i < |units|
      invariant 0 <= i <= |units|
      invariant crc == Fold(Step, InitialRegister, units[..i])
    {
      ghost var prev := crc;
      var start := crc ^ ((units[i] as Register) << 8);
      crc := start;
      var j := 0;
      while j < 8
        invariant 0 <= j <= 8
        invariant crc == Iterate(Round, start, j)
      {
        ghost var before := crc;
        if crc & 0x8000 != 0 {
          crc := (crc << 1) ^ Polynomial;
        } else {
          crc := crc << 1;
        }
        RoundCases(before, crc);
        j := j + 1;
      }
      StepIs(prev, units[i], start, crc);
      FoldPrefix(Step, InitialRegister, units, i);
      i := i + 1;
    }
    assert units[..i] == units;
  }

  /**
   * The checksum reads its input one character at a time: the register after
   * `s + [c]` is the register after `s` carried through the code units of
   * `c`, which is one step for a character of the Basic Multilingual Plane.
   */
  lemma RegisterSnoc(s: string, c: char)
    ensures FinalRegister(s + [c]) == Fold(Step, FinalRegister(s), CharUnits(c))
    ensures IsBmp(c) ==> FinalRegister(s + [c]) == Step(FinalRegister(s), c as int)
  {
    var x := FinalRegister(s);
    assert CodeUnits(s + [c]) == CodeUnits(s) + CharUnits(c) by {
      CodeUnitsAppend(s, [c]);
      assert CodeUnits([c]) == CharUnits(c) + CodeUnits("");
    }
    FoldAppend(Step, InitialRegister, CodeUnits(s), CharUnits(c));
    if IsBmp(c) {
      FoldOne(Step, x, c as int);
    }
  }

  /** With nothing to read, the initial register comes back unchanged. */
  lemma ChecksumEmpty()
    ensures Checksum("") == "FFFF"
  {
    assert FinalRegister("") == 0xFFFF;
    assert NumberToString(15, 16) == "f";
    assert NumberToString(255, 16) == "ff";
    assert NumberToString(4095, 16) == "fff";
    assert NumberToString(65535, 16) == "ffff";
    assert AsciiUpper("ffff") == "FFFF";
  }

  /** Eight rounds from `a0`, given round by round. */
  lemma EightRounds(a0: Register, a1: Register, a2: Register, a3: Register,
                    a4: Register, a5: Register, a6: Register, a7: Register, a8: Register)
    requires Round(a0) == a1 && Round(a1) == a2 && Round(a2) == a3 && Round(a3) == a4
    requires Round(a4) == a5 && Round(a5) == a6 && Round(a6) == a7 && Round(a7) == a8
    ensures Iterate(Round, a0, 8) == a8
  {
    assert Iterate(Round, a0, 1) == a1;
    assert Iterate(Round, a0, 2) == a2;
    assert Iterate(Round, a0, 3) == a3;
    assert Iterate(Round, a0, 4) == a4;
    assert Iterate(Round, a0, 5) == a5;
    assert Iterate(Round, a0, 6) == a6;
    assert Iterate(Round, a0, 7) == a7;
  }

  /**
   * The nine steps of the check input "123456789", each on the register the
   * previous one left (the rounds are given one by one).
   */
  lemma CheckSteps()
    ensures Step(0xFFFF, 0x31) == 0xC2C782
    ensures Step(0xC2C782, 0x32) == 0xC2FA3DBA
    ensures Step(0xC2FA3DBA, 0x33) == 0xFA0E5BCE
    ensures Step(0xFA0E5BCE, 0x34) == 0xE695349
    ensures Step(0xE695349, 0x35) == 0x69604560
    ensures Step(0x69604560, 0x36) == 0x60742EF4
    ensures Step(0x60742EF4, 0x37) == 0x74187718
    ensures Step(0x74187718, 0x38) == 0x184BA12B
    ensures Step(0x184BA12B, 0x39) == 0x4B9129B1
  {
    assert 0xFFFF ^ ((0x31 as Register) << 8) == 0xCEFF;
    EightRounds(0xCEFF, 0x18DDF, 0x30B9F, 0x6173E, 0xC2E7C, 0x185CF8, 0x30B9F0, 0x6163C1, 0xC2C782);
    assert 0xC2C782 ^ ((0x32 as Register) << 8) == 0xC2F582;
    EightRounds(0xC2F582, 0x185FB25, 0x30BE66B, 0x617DCF7, 0xC2FA9CF, 0x185F43BF, 0x30BE877E, 0x617D1EDD, 0xC2FA3DBA);
    assert 0xC2FA3DBA ^ ((0x33 as Register) << 8) == 0xC2FA0EBA;
    EightRounds(0xC2FA0EBA, 0x85F41D74, 0xBE83AE8, 0x17D075D0, 0x2FA0EBA0, 0x5F41C761, 0xBE839EE3, 0x7D072DE7, 0xFA0E5BCE);
    assert 0xFA0E5BCE ^ ((0x34 as Register) << 8) == 0xFA0E6FCE;
    EightRounds(0xFA0E6FCE, 0xF41CDF9C, 0xE839AF19, 0xD0734E13, 0xA0E69C26, 0x41CD286D, 0x839A50DA, 0x734A1B4, 0xE695349);
    assert 0xE695349 ^ ((0x35 as Register) << 8) == 0xE696649;
    EightRounds(0xE696649, 0x1CD2CC92, 0x39A58905, 0x734B022B, 0xE6960456, 0xCD2C08AC, 0x9A581158, 0x34B022B0, 0x69604560);
    assert 0x69604560 ^ ((0x36 as Register) << 8) == 0x69607360;
    EightRounds(0x69607360, 0xD2C0E6C0, 0xA581DDA1, 0x4B03AB63, 0x960746E7, 0x2C0E8DCE, 0x581D0BBD, 0xB03A177A, 0x60742EF4);
    assert 0x60742EF4 ^ ((0x37 as Register) << 8) == 0x607419F4;
    EightRounds(0x607419F4, 0xC0E833E8, 0x81D067D0, 0x3A0CFA0, 0x7418F61, 0xE830EE3, 0x1D061DC6, 0x3A0C3B8C, 0x74187718);
    assert 0x74187718 ^ ((0x38 as Register) << 8) == 0x74184F18;
    EightRounds(0x74184F18, 0xE8309E30, 0xD0612C41, 0xA0C25882, 0x4184B104, 0x83097229, 0x612E452, 0xC25D885, 0x184BA12B);
    assert 0x184BA12B ^ ((0x39 as Register) << 8) == 0x184B982B;
    EightRounds(0x184B982B, 0x30972077, 0x612E40EE, 0xC25C81DC, 0x84B91399, 0x9722732, 0x12E44E64, 0x25C89CC8, 0x4B9129B1);
  }

  /** One more character of `s` is one more step of the register. */
  lemma PrefixStep(s: string, n: nat, u: CodeUnit, x: Register, y: Register)
    requires 0 < n <= |s| && FinalRegister(s[..n-1]) == x
    requires s[n-1] as int == u && IsBmp(s[n-1]) && Step(x, u) == y
    ensures FinalRegister(s[..n]) == y
  {
    assert s[..n] == s[..n-1] + [s[n-1]];
    RegisterSnoc(s[..n-1], s[n-1]);
  }

  /** The register after the first 3 characters of the check input. */
  lemma CheckPrefix3(s: string)
    requires s == "123456789"
    ensures FinalRegister(s[..3]) == 0xFA0E5BCE
  {
    CheckSteps();
    assert s[..0] == "";
    PrefixStep(s, 1, 0x31, 0xFFFF, 0xC2C782);
    PrefixStep(s, 2, 0x32, 0xC2C782, 0xC2FA3DBA);
    PrefixStep(s, 3, 0x33, 0xC2FA3DBA, 0xFA0E5BCE);
  }

  /** The register after the first 6 characters of the check input. */
  lemma CheckPrefix6(s: string)
    requires s == "123456789"
    ensures FinalRegister(s[..6]) == 0x60742EF4
  {
    CheckSteps();
    CheckPrefix3(s);
    PrefixStep(s, 4, 0x34, 0xFA0E5BCE, 0xE695349);
    PrefixStep(s, 5, 0x35, 0xE695349, 0x69604560);
    PrefixStep(s, 6, 0x36, 0x69604560, 0x60742EF4);
  }

  /** The register after the first 9 characters of the check input. */
  lemma CheckPrefix9(s: string)
    requires s == "123456789"
    ensures FinalRegister(s[..9]) == 0x4B9129B1
  {
    CheckSteps();
    CheckPrefix6(s);
    PrefixStep(s, 7, 0x37, 0x60742EF4, 0x74187718);
    PrefixStep(s, 8, 0x38, 0x74187718, 0x184BA12B);
    PrefixStep(s, 9, 0x39, 0x184BA12B, 0x4B9129B1);
  }

  /**
   * The standard check input of CRC-16/CCITT-FALSE: "123456789" gives
   * 0x29B1 (the register holds 0x4B9129B1 before the mask).
   */
  lemma ChecksumCheckValue(s: string)
    requires s == "123456789"
    ensures FinalRegister(s) == 0x4B9129B1
    ensures Checksum(s) == "29B1"
  {
    CheckPrefix9(s);
    assert s[..9] == s;
    assert Low16(0x4B9129B1) == 0x29B1;
    assert NumberToString(2, 16) == "2";
    assert NumberToString(0x29, 16) == "29";
    assert NumberToString(0x29B, 16) == "29b";
    assert NumberToString(0x29B1, 16) == "29b1";
    assert AsciiUpper("29b1") == "29B1";
  }

  // ------------------------------------------------------------ processQRIS

  /**
   * The floating-point part of the fee, which the model takes as given:
   * whether `Number(feeValue) > 0`, the text of
   * `(Number(qty) * Number(feeValue) / 100).toFixed(2)` and the text of
   * `Number(feeValue).toFixed(2)`.
   */
  datatype FeeArithmetic = FeeArithmetic(positive: bool, percentOfQty: string, fixed: string)

  /** A fee is written when the flag is set and the fee value is non-empty and positive. */
  predicate FeeApplies(serviceFee: bool, feeValue: string, fee: FeeArithmetic) {
    serviceFee && feeValue != "" && fee.positive
  }

  /** The fee text: a percentage of the quantity for type "p", a fixed amount for any other type. */
  function FeeAmount(feeType: string, fee: FeeArithmetic): string {
    if feeType == "p" then fee.percentOfQty else fee.fixed
  }

  /** `feeField`: tag 55, the padded length and the fee text, or nothing. */
  function FeeField(serviceFee: bool, feeType: string, feeValue: string, fee: FeeArithmetic): string {
    if FeeApplies(serviceFee, feeValue, fee) then
      var amount := FeeAmount(feeType, fee);
      "55" + Pad2(|amount|) + amount
    else
      ""
  }

  /**
   * The fee field is empty exactly when no fee applies; otherwise, for a fee
   * text of at most 99 characters, it is one TLV field with tag 55 holding
   * that text, and beyond 99 its length prefix overflows two digits.
   */
  lemma FeeFieldSpec(serviceFee: bool, feeType: string, feeValue: string, fee: FeeArithmetic)
    ensures FeeField(serviceFee, feeType, feeValue, fee) == "" <==> !FeeApplies(serviceFee, feeValue, fee)
    ensures !serviceFee ==> FeeField(serviceFee, feeType, feeValue, fee) == ""
    ensures FeeApplies(serviceFee, feeValue, fee) && |FeeAmount(feeType, fee)| <= 99 ==>
      && FeeField(serviceFee, feeType, feeValue, fee) == Encode(Field("55", FeeAmount(feeType, fee)))
      && Decode(FeeField(serviceFee, feeType, feeValue, fee)) == Some([Field("55", FeeAmount(feeType, fee))])
    ensures FeeApplies(serviceFee, feeValue, fee) && |FeeAmount(feeType, fee)| > 99 ==>
      |FeeField(serviceFee, feeType, feeValue, fee)| > 4 + |FeeAmount(feeType, fee)|
  {
    var amount := FeeAmount(feeType, fee);
    Pad2IsLengthText(|amount|);
    if FeeApplies(serviceFee, feeValue, fee) && |amount| <= 99 {
      DecodeSingle(Field("55", amount));
    }
  }

  /**
   * `parts[1]` in a string concatenation: the second part, or the text
   * "undefined" when the split found no marker.
   */
  function SecondPart(parts: seq<string>): string {
    if |parts| >= 2 then parts[1] else "undefined"
  }

  /**
   * `parts[0] + block + "5802ID" + parts[1]` for `parts` the split of
   * `base` at the country marker.
   */
  function Reassemble(base: string, block: string): string {
    var parts := Split(base, CountryMarker);
    parts[0] + block + CountryMarker + SecondPart(parts)
  }

  /** `newQRIS`: the payload rebuilt around the first country marker, before its checksum. */
  function NewPayload(qris: string, qty: string, serviceFee: bool, feeType: string, feeValue: string,
                      fee: FeeArithmetic): string
  {
    Reassemble(Base(qris), AmountField(qty) + FeeField(serviceFee, feeType, feeValue, fee))
  }

  /** The last four characters of `r` are the checksum of everything before them. */
  predicate Sealed(r: string) {
    |r| >= 4 && r[|r| - 4..] == Checksum(r[..|r| - 4])
  }

  /** `payload + crc16(payload)`. */
  function Seal(payload: string): (r: string)
    ensures Sealed(r) && r[..|r| - 4] == payload
  {
    assert (payload + Checksum(payload))[..|payload|] == payload;
    payload + Checksum(payload)
  }

  /** `processQRIS`: the rebuilt payload followed by its checksum. */
  function ProcessQris(qris: string, qty: string, serviceFee: bool, feeType: string, feeValue: string,
                       fee: FeeArithmetic): (r: string)
    ensures Sealed(r)
    ensures r[..|r| - 4] == NewPayload(qris, qty, serviceFee, feeType, feeValue, fee)
  {
    Seal(NewPayload(qris, qty, serviceFee, feeType, feeValue, fee))
  }

  /**
   * With a country marker at `i` in `base`, the block lands right before
   * it, and what follows the marker is kept up to the next marker; with
   * exactly one marker that is an insertion, and all of `base` is kept.
   */
  lemma ReassembleShape(base: string, block: string)
    ensures IndexOf(base, CountryMarker).Some? ==>
      var i := IndexOf(base, CountryMarker).value;
      && Reassemble(base, block) == base[..i] + block + CountryMarker + UpToNext(base[i + 6..], CountryMarker)
      && (IndexOf(base[i + 6..], CountryMarker).None? ==> Reassemble(base, block) == base[..i] + block + base[i..])
  {
    SplitAtMarker(base);
    if IndexOf(base, CountryMarker).Some? {
      var i := IndexOf(base, CountryMarker).value;
      MarkerSplits(base, i);
    }
  }

  /** Without a country marker the block is appended, then the marker and the text "undefined". */
  lemma ReassembleWithoutMarker(base: string, block: string)
    requires IndexOf(base, CountryMarker).None?
    ensures Reassemble(base, block) == base + block + CountryMarker + "undefined"
  {
    SplitAtMarker(base);
  }

  /**
   * With a second country marker `k` characters after the first one, all
   * of `base` from the second marker on, six characters at least, is
   * missing from the result.
   */
  lemma ReassembleDropsAfterSecondMarker(base: string, block: string, i: nat, k: nat)
    requires IndexOf(base, CountryMarker) == Some(i)
    requires IndexOf(base[i + 6..], CountryMarker) == Some(k)
    ensures i + 6 + k + 6 <= |base|
    ensures Reassemble(base, block) == base[..i] + block + base[i..i + 6 + k]
  {
    var rest := base[i + 6..];
    MarkerSplits(base, i);
    MarkerSplits(rest, k);
    var kept := UpToNext(rest, CountryMarker);
    assert kept == rest[..k];
    ReassembleShape(base, block);
    WindowAfterMarker(base, i, k);
    SeqAssoc(base[..i] + block, CountryMarker, kept);
  }
  lemma WindowAfterMarker(base: string, i: nat, k: nat)
    requires i + 6 + k <= |base| && base[i..] == CountryMarker + base[i + 6..]
    ensures base[i..i + 6 + k] == CountryMarker + base[i + 6..][..k]
  {
    assert base[i..i + 6 + k] == base[i..][..6 + k];
  }


  // ------------------------------------------------------------ the rewrite, corrected

  /**
   * The splice as evidently intended: nothing without a country marker,
   * and otherwise the block inserted before the first marker, keeping
   * everything after it.
   */
  function InsertBeforeMarker(base: string, block: string): (r: Option<string>)
    ensures r.None? <==> IndexOf(base, CountryMarker).None?
    ensures r.Some? ==>
      var i := IndexOf(base, CountryMarker).value;
      && |r.value| == |base| + |block|
      && r.value[..i] == base[..i] && r.value[i..i + |block|] == block && r.value[i + |block|..] == base[i..]
  {
    match IndexOf(base, CountryMarker)
    case None => None
    case Some(i) =>
      ConcatSlices(base[..i], block, base[i..]);
      Some(base[..i] + block + base[i..])
  }

  /** With exactly one country marker, the source's splice is the corrected one. */
  lemma InsertAgrees(base: string, block: string)
    requires IndexOf(base, CountryMarker).Some?
    requires IndexOf(base[IndexOf(base, CountryMarker).value + 6..], CountryMarker).None?
    ensures InsertBeforeMarker(base, block) == Some(Reassemble(base, block))
  {
    ReassembleShape(base, block);
  }

  datatype RewriteError = MissingCountryMarker | AmbiguousCountryMarker

  /** A second country marker follows the first. */
  predicate RepeatedMarker(base: string)
    requires IndexOf(base, CountryMarker).Some?
  {
    IndexOf(base[IndexOf(base, CountryMarker).value + 6..], CountryMarker).Some?
  }

  /**
   * The rewrite as evidently intended: fail when the country marker is
   * absent or repeated, seal the splice otherwise.
   */
  function Rewrite(qris: string, qty: string, serviceFee: bool, feeType: string, feeValue: string,
                   fee: FeeArithmetic): (r: Result<string, RewriteError>)
    ensures r == Err(MissingCountryMarker) <==> IndexOf(Base(qris), CountryMarker).None?
    ensures r == Err(AmbiguousCountryMarker)
        <==> IndexOf(Base(qris), CountryMarker).Some? && RepeatedMarker(Base(qris))
    ensures r.Ok? ==> Sealed(r.value)
  {
    match InsertBeforeMarker(Base(qris), AmountField(qty) + FeeField(serviceFee, feeType, feeValue, fee))
    case None => Err(MissingCountryMarker)
    case Some(payload) =>
      if RepeatedMarker(Base(qris)) then Err(AmbiguousCountryMarker) else Ok(Seal(payload))
  }

  /** With exactly one country marker, `processQRIS` computes the corrected rewrite. */
  lemma RewriteAgrees(qris: string, qty: string, serviceFee: bool, feeType: string, feeValue: string,
                      fee: FeeArithmetic)
    requires IndexOf(Base(qris), CountryMarker).Some?
    requires !RepeatedMarker(Base(qris))
    ensures Rewrite(qris, qty, serviceFee, feeType, feeValue, fee) == Ok(ProcessQris(qris, qty, serviceFee, feeType, feeValue, fee))
  {
    InsertAgrees(Base(qris), AmountField(qty) + FeeField(serviceFee, feeType, feeValue, fee));
  }

  /**
   * When the text before the marker, the block, and the text after the
   * marker up to its closing "6304" are TLV fields, the spliced and sealed
   * payload reads as those fields, the country code field and the
   * checksum field, in that order.
   */
  lemma SealedSpliceDecodes(base: string, block: string)
    requires InsertBeforeMarker(base, block).Some?
    requires var i := IndexOf(base, CountryMarker).value;
      var tail := base[i + 6..];
      && Decode(base[..i]).Some? && Decode(block).Some?
      && |tail| >= 4 && tail[|tail| - 4..] == ChecksumHeader && Decode(tail[..|tail| - 4]).Some?
    ensures var i := IndexOf(base, CountryMarker).value;
      var tail := base[i + 6..];
      var r := Seal(InsertBeforeMarker(base, block).value);
      Decode(r) == Some(Decode(base[..i]).value + Decode(block).value + [Field("58", "ID")]
        + Decode(tail[..|tail| - 4]).value + [Field("63", r[|r| - 4..])])
  {
    var i := IndexOf(base, CountryMarker).value;
    var payload := base[..i] + block + CountryMarker + base[i + 6..];
    assert InsertBeforeMarker(base, block).value == base[..i] + block + base[i..];
    MarkerSplits(base, i);
    SeqAssoc(base[..i] + block, CountryMarker, base[i + 6..]);
    assert InsertBeforeMarker(base, block).value == payload;
    var crc := Checksum(payload);
    assert Seal(payload)[|Seal(payload)| - 4..] == crc;
    DecodeReassembled(base[..i], block, base[i + 6..], crc);
  }

  /**
   * For a quantity and a fee text of at most 99 characters the block reads
   * as the amount field followed by the fee field when a fee applies.
   */
  lemma BlockDecodes(qty: string, serviceFee: bool, feeType: string, feeValue: string, fee: FeeArithmetic)
    requires |qty| <= 99 && |FeeAmount(feeType, fee)| <= 99
    ensures Decode(AmountField(qty) + FeeField(serviceFee, feeType, feeValue, fee)) == Some(
      [Field(AmountTag, qty)]
      + (if FeeApplies(serviceFee, feeValue, fee) then [Field("55", FeeAmount(feeType, fee))] else []))
  {
    AmountFieldSpec(qty);
    FeeFieldSpec(serviceFee, feeType, feeValue, fee);
    DecodeAppend(AmountField(qty), FeeField(serviceFee, feeType, feeValue, fee));
  }
}
