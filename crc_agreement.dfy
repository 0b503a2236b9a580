/**
 * How the two `crc16` copies relate. On text whose characters all lie in
 * the Basic Multilingual Plane both walk the same code units, and masking
 * the register after every round (the deployed copy) or only once at the
 * end (the development copy) leaves the same low 16 bits, so both return
 * the same four digits. Outside the BMP they read different units.
 */
module CrcAgreement {
  import opened Crc16Core
  import ViteConfig
  import NetlifyGenerate

  // ------------------------------------------------------------ the low 16 bits

  lemma Bit15(a: Register, b: Register)
    requires NetlifyGenerate.Mask(a) == NetlifyGenerate.Mask(b)
    ensures a & 0x8000 == b & 0x8000
  {
  }

  lemma ShiftLow(a: Register, b: Register)
    requires NetlifyGenerate.Mask(a) == NetlifyGenerate.Mask(b)
    ensures NetlifyGenerate.Mask(a << 1) == NetlifyGenerate.Mask(b << 1)
  {
  }

  lemma XorLow(a: Register, b: Register, z: Register)
    requires NetlifyGenerate.Mask(a) == NetlifyGenerate.Mask(b)
    ensures NetlifyGenerate.Mask(a ^ z) == NetlifyGenerate.Mask(b ^ z)
  {
  }

  lemma MaskTwice(z: Register)
    ensures NetlifyGenerate.Mask(NetlifyGenerate.Mask(z)) == NetlifyGenerate.Mask(z)
  {
  }

  lemma MaskKeeps(z: Register)
    requires z <= 0xFFFF
    ensures NetlifyGenerate.Mask(z) == z
  {
  }

  /** The low 16 bits after a round depend only on the low 16 bits before it. */
  lemma RoundLow(a: Register, b: Register)
    requires NetlifyGenerate.Mask(a) == NetlifyGenerate.Mask(b)
    ensures NetlifyGenerate.Mask(Round(a)) == NetlifyGenerate.Mask(Round(b))
  {
    Bit15(a, b);
    ShiftLow(a, b);
    if a & 0x8000 != 0 {
      XorLow(a << 1, b << 1, Polynomial);
    }
  }

  /** Unmasked and masked rounds agree on the low 16 bits, however many are run. */
  lemma {:induction false} IterateLow(a: Register, b: Register, n: nat)
    requires NetlifyGenerate.Mask(a) == NetlifyGenerate.Mask(b)
    ensures NetlifyGenerate.Mask(Iterate(Round, a, n))
         == NetlifyGenerate.Mask(Iterate(NetlifyGenerate.MaskedRound, b, n))
    decreases n
  {
    if n > 0 {
      var x := Iterate(Round, a, n - 1);
      var y := Iterate(NetlifyGenerate.MaskedRound, b, n - 1);
      IterateLow(a, b, n - 1);
      RoundLow(x, y);
      MaskTwice(Round(y));
    }
  }

  lemma EightRoundsLow(x: Register, y: Register, z: Register)
    requires NetlifyGenerate.Mask(x) == NetlifyGenerate.Mask(y)
    ensures NetlifyGenerate.Mask(Iterate(Round, x ^ z, 8))
         == NetlifyGenerate.Mask(Iterate(NetlifyGenerate.MaskedRound, y ^ z, 8))
  {
    XorLow(x, y, z);
    IterateLow(x ^ z, y ^ z, 8);
  }

  /** One character: both copies' steps agree on the low 16 bits. */
  lemma StepLow(x: Register, y: Register, u: CodeUnit, z: Register)
    requires NetlifyGenerate.Mask(x) == NetlifyGenerate.Mask(y) && z == (u as Register) << 8
    ensures NetlifyGenerate.Mask(ViteConfig.Step(x, u)) == NetlifyGenerate.Mask(NetlifyGenerate.Step(y, u))
  {
    EightRoundsLow(x, y, z);
    ViteStepAt(x, u, z);
    NetlifyStepAt(y, u, z);
  }

  lemma ViteStepAt(x: Register, u: CodeUnit, z: Register)
    requires z == (u as Register) << 8
    ensures ViteConfig.Step(x, u) == Iterate(Round, x ^ z, 8)
  {
    ViteConfig.StepIs(x, u, x ^ z, Iterate(Round, x ^ z, 8));
  }

  lemma NetlifyStepAt(y: Register, u: CodeUnit, z: Register)
    requires z == (u as Register) << 8
    ensures NetlifyGenerate.Step(y, u) == Iterate(NetlifyGenerate.MaskedRound, y ^ z, 8)
  {
    NetlifyGenerate.StepIs(y, u, y ^ z, Iterate(NetlifyGenerate.MaskedRound, y ^ z, 8));
  }

  /** The outer loops agree on the low 16 bits over the same codes. */
  lemma {:induction false} FoldLow(x: Register, y: Register, codes: seq<CodeUnit>)
    requires NetlifyGenerate.Mask(x) == NetlifyGenerate.Mask(y)
    ensures NetlifyGenerate.Mask(Fold(ViteConfig.Step, x, codes))
         == NetlifyGenerate.Mask(Fold(NetlifyGenerate.Step, y, codes))
    decreases |codes|
  {
    if codes != [] {
      StepLow(x, y, codes[0], (codes[0] as Register) << 8);
      FoldLow(ViteConfig.Step(x, codes[0]), NetlifyGenerate.Step(y, codes[0]), codes[1..]);
    }
  }

  // ------------------------------------------------------------ code units

  predicate AllBmp(s: string) {
    forall k :: 0 <= k < |s| ==> IsBmp(s[k])
  }

  /**
   * On BMP text the code units `charCodeAt` walks by index are the first
   * code units of the characters `for..of` yields.
   */
  lemma {:induction false} BmpUnits(s: string)
    requires AllBmp(s)
    ensures CodeUnits(s) == NetlifyGenerate.LeadUnits(s)
    decreases |s|
  {
    if s != "" {
      assert AllBmp(s[1..]) by {
        forall k | 0 <= k < |s[1..]| ensures IsBmp(s[1..][k]) {
          assert s[1..][k] == s[k + 1];
        }
      }
      BmpUnits(s[1..]);
      assert NetlifyGenerate.LeadUnits(s) == [LeadUnit(s[0])] + NetlifyGenerate.LeadUnits(s[1..]);
    }
  }

  /** A character outside the BMP is two code units for one copy and one for the other. */
  lemma AstralUnits(c: char)
    requires !IsBmp(c)
    ensures |CodeUnits([c])| == 2 && |NetlifyGenerate.LeadUnits([c])| == 1
  {
    assert [c][1..] == "";
  }

  // ------------------------------------------------------------ registers and checksums

  /** On BMP text the deployed register is the development register's low 16 bits. */
  lemma RegistersAgree(s: string)
    requires AllBmp(s)
    ensures NetlifyGenerate.Mask(ViteConfig.FinalRegister(s)) == NetlifyGenerate.FinalRegister(s)
  {
    BmpUnits(s);
    FoldLow(InitialRegister, InitialRegister, CodeUnits(s));
    MaskKeeps(NetlifyGenerate.FinalRegister(s));
  }

  /** On BMP text both copies of `crc16` return the same four digits. */
  lemma ChecksumsAgree(s: string)
    requires AllBmp(s)
    ensures ViteConfig.Checksum(s) == NetlifyGenerate.Checksum(s)
  {
    RegistersAgree(s);
    LowOfMask(ViteConfig.FinalRegister(s), NetlifyGenerate.FinalRegister(s));
  }

  lemma LowOfMask(v: Register, n: Register)
    requires NetlifyGenerate.Mask(v) == n
    ensures Low16(v) == Value16(n)
  {
  }

  /** The deployed copy also gives the CRC-16/CCITT-FALSE check value 0x29B1. */
  lemma NetlifyCheckValue(s: string)
    requires s == "123456789"
    ensures NetlifyGenerate.Checksum(s) == "29B1"
  {
    ViteConfig.ChecksumCheckValue(s);
    CheckInputBmp(s);
    ChecksumsAgree(s);
  }

  lemma CheckInputBmp(s: string)
    requires s == "123456789"
    ensures AllBmp(s)
  {
    forall k | 0 <= k < |s| ensures IsBmp(s[k]) {
      assert s[k] <= '9';
    }
  }
}
