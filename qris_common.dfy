/**
 * The steps of the static-to-dynamic QRIS rewrite that both copies of it
 * write the same way: dropping the old checksum, flipping the
 * point-of-initiation method from static to dynamic, and building the
 * transaction-amount field; and the TLV reading of a reassembled payload.
 */
module QrisCommon {
  import opened Wrappers
  import opened JsString
  import opened Tlv

  /** Tag 01 (point-of-initiation method), length 02, value 11: a static code. */
  const StaticPoi := "010211"
  /** The same field with value 12: a dynamic, single-transaction code. */
  const DynamicPoi := "010212"
  /** Tag 58 (country code), length 02, value ID: where the amount block is inserted. */
  const CountryMarker := "5802ID"
  /** Tag 54 (transaction amount). */
  const AmountTag := "54"
  /** Tag 63 (CRC) with length 04, the last field before the checksum digits. */
  const ChecksumHeader := "6304"

  // ------------------------------------------------------------ strip

  /** `qris.slice(0, -4)`: the payload without its four checksum digits. */
  function StripChecksum(qris: string): string {
    Slice(qris, 0, -4)
  }

  /**
   * Stripping removes exactly the last four characters, and leaves nothing
   * of a string shorter than four.
   */
  lemma StripChecksumSpec(qris: string)
    ensures |qris| >= 4 ==> |StripChecksum(qris)| == |qris| - 4 && StripChecksum(qris) + qris[|qris| - 4..] == qris
    ensures |qris| < 4 ==> StripChecksum(qris) == ""
  {
    if |qris| >= 4 {
      assert StripChecksum(qris) == qris[..|qris| - 4];
    }
  }

  // ------------------------------------------------------------ flip

  /** `s.replace("010211", "010212")`. */
  function MarkDynamic(s: string): string {
    ReplaceFirst(s, StaticPoi, DynamicPoi)
  }

  /**
   * The flip keeps the length; with no static marker it changes nothing;
   * otherwise it turns the '1' at the end of the first marker into a '2'
   * (so the dynamic marker stands there) and keeps every other character.
   */
  lemma MarkDynamicSpec(s: string)
    ensures |MarkDynamic(s)| == |s|
    ensures IndexOf(s, StaticPoi).None? ==> MarkDynamic(s) == s
    ensures IndexOf(s, StaticPoi).Some? ==>
      var i := IndexOf(s, StaticPoi).value;
      && i + 6 <= |s| && s[i + 5] == '1' && MarkDynamic(s)[i + 5] == '2'
      && OccursAt(MarkDynamic(s), DynamicPoi, i)
      && forall k :: 0 <= k < |s| && k != i + 5 ==> MarkDynamic(s)[k] == s[k]
  {
    if IndexOf(s, StaticPoi).Some? {
      var i := IndexOf(s, StaticPoi).value;
      var r := MarkDynamic(s);
      ReplaceFirstChars(s, StaticPoi, DynamicPoi, i);
      OccurrenceChars(s, StaticPoi, i);
      forall k | 0 <= k < |s| && k != i + 5
        ensures r[k] == s[k]
      {
        if i <= k < i + 6 {
          assert r[k] == DynamicPoi[k - i] && s[k] == StaticPoi[k - i];
        }
      }
      assert s[i + 5] == StaticPoi[5] && r[i + 5] == DynamicPoi[5];
      assert forall m :: 0 <= m < 6 ==> r[i + m] == DynamicPoi[m];
      CharsOccur(r, DynamicPoi, i);
    }
  }

  /** Two static markers never overlap. */
  lemma StaticPoiNoOverlap(s: string, i: nat)
    requires OccursAt(s, StaticPoi, i)
    ensures forall j: nat :: i < j < i + 6 ==> !OccursAt(s, StaticPoi, j)
  {
    OccurrenceChars(s, StaticPoi, i);
    forall j: nat | i < j < i + 6 && j + 6 <= |s|
      ensures !OccursAt(s, StaticPoi, j)
    {
      if j == i + 2 {
        assert s[j + 1] == StaticPoi[3];
        MismatchAt(s, StaticPoi, j, 1);
      } else {
        assert s[j] == StaticPoi[j - i];
        MismatchAt(s, StaticPoi, j, 0);
      }
    }
  }

  /** Two strings that agree on a window agree on whether `pat` occurs there. */
  lemma SameWindow(s: string, r: string, pat: string, j: nat)
    requires |r| == |s| && j + |pat| <= |s|
    requires forall k :: j <= k < j + |pat| ==> r[k] == s[k]
    ensures OccursAt(r, pat, j) == OccursAt(s, pat, j)
  {
    assert r[j..j + |pat|] == s[j..j + |pat|];
  }

  /**
   * Every static marker after the first survives the flip: markers cannot
   * overlap, so the one changed character lies outside them.
   */
  lemma MarkDynamicKeepsLater(s: string, j: nat)
    requires OccursAt(s, StaticPoi, j) && j != IndexOf(s, StaticPoi).value
    ensures j >= IndexOf(s, StaticPoi).value + 6
    ensures OccursAt(MarkDynamic(s), StaticPoi, j)
  {
    var i := IndexOf(s, StaticPoi).value;
    StaticPoiNoOverlap(s, i);
    MarkDynamicSpec(s);
    SameWindow(s, MarkDynamic(s), StaticPoi, j);
  }

  /**
   * With at most one static marker the flip leaves none, so flipping again
   * changes nothing.
   */
  lemma MarkDynamicSettles(s: string)
    requires forall j: nat :: OccursAt(s, StaticPoi, j) ==> j == IndexOf(s, StaticPoi).value
    ensures IndexOf(MarkDynamic(s), StaticPoi).None?
    ensures MarkDynamic(MarkDynamic(s)) == MarkDynamic(s)
  {
    MarkDynamicSpec(s);
    if IndexOf(s, StaticPoi).Some? {
      NoneLeft(s, MarkDynamic(s), IndexOf(s, StaticPoi).value);
    }
    MarkDynamicSpec(MarkDynamic(s));
  }

  /** The flipped text of a payload with a single static marker has none. */
  lemma NoneLeft(s: string, r: string, i: nat)
    requires |r| == |s| && i + 6 <= |s| && OccursAt(r, DynamicPoi, i)
    requires forall k :: 0 <= k < |s| && k != i + 5 ==> r[k] == s[k]
    requires forall j: nat :: OccursAt(s, StaticPoi, j) ==> j == i
    ensures IndexOf(r, StaticPoi).None?
  {
    OccurrenceChars(r, DynamicPoi, i);
    forall j: nat | j + 6 <= |r|
      ensures !OccursAt(r, StaticPoi, j)
    {
      if j <= i + 5 < j + 6 {
        if j == i + 2 {
          assert r[j + 1] == DynamicPoi[3];
          MismatchAt(r, StaticPoi, j, 1);
        } else {
          assert r[i + 5] == DynamicPoi[5];
          MismatchAt(r, StaticPoi, j, i + 5 - j);
        }
      } else {
        SameWindow(s, r, StaticPoi, j);
      }
    }
  }

  /**
   * With a second static marker the flip is not idempotent: the first flip
   * leaves that marker, and a second flip changes it.
   */
  lemma MarkDynamicTwice(s: string, j: nat)
    requires OccursAt(s, StaticPoi, j) && j != IndexOf(s, StaticPoi).value
    ensures IndexOf(MarkDynamic(s), StaticPoi).Some?
    ensures MarkDynamic(MarkDynamic(s)) != MarkDynamic(s)
  {
    MarkDynamicKeepsLater(s, j);
    var r := MarkDynamic(s);
    MarkDynamicSpec(r);
    var i2 := IndexOf(r, StaticPoi).value;
    assert MarkDynamic(r)[i2 + 5] != r[i2 + 5];
  }

  /** `qris.slice(0, -4).replace("010211", "010212")`: the payload both rewrites splice into. */
  function Base(qris: string): string {
    MarkDynamic(StripChecksum(qris))
  }

  // ------------------------------------------------------------ split

  /** The text of `s` up to the first `pat`, or all of it. */
  function UpToNext(s: string, pat: string): (r: string)
    ensures |r| <= |s| && r == s[..|r|]
  {
    match IndexOf(s, pat)
    case None => s
    case Some(j) => s[..j]
  }

  /**
   * `parts[0]` and `parts[1]` of `base.split("5802ID")`: the text before the
   * first country marker, and the text between it and the next marker (or
   * the end). Without a marker the split is `base` alone.
   */
  lemma SplitAtMarker(base: string)
    ensures IndexOf(base, CountryMarker).None? ==> Split(base, CountryMarker) == [base]
    ensures IndexOf(base, CountryMarker).Some? ==>
      var i := IndexOf(base, CountryMarker).value;
      var parts := Split(base, CountryMarker);
      && |parts| >= 2 && parts[0] == base[..i]
      && parts[1] == UpToNext(base[i + 6..], CountryMarker)
      && (|parts| == 2 <==> IndexOf(base[i + 6..], CountryMarker).None?)
  {
    SplitFirstParts(base, CountryMarker);
  }

  /** A country marker at `i` splits `base` into the text before it, the marker and the rest. */
  lemma MarkerSplits(base: string, i: nat)
    requires OccursAt(base, CountryMarker, i)
    ensures i + 6 <= |base| && base[i..] == CountryMarker + base[i + 6..]
    ensures base == base[..i] + CountryMarker + base[i + 6..]
  {
    OccurrenceChars(base, CountryMarker, i);
    assert base[i..] == CountryMarker + base[i + 6..];
  }

  // ------------------------------------------------------------ amount

  /** `"54" + qty.length.toString().padStart(2, "0") + qty`. */
  function AmountField(qty: string): string {
    AmountTag + Pad2(|qty|) + qty
  }

  /**
   * Up to 99 characters the amount field is one TLV field with tag 54 whose
   * value is `qty` verbatim, so it decodes back to exactly that; beyond 99
   * the length text outgrows its two digits.
   */
  lemma AmountFieldSpec(qty: string)
    ensures |qty| <= 99 ==> AmountField(qty) == Encode(Field(AmountTag, qty))
    ensures |qty| <= 99 ==> Decode(AmountField(qty)) == Some([Field(AmountTag, qty)])
    ensures |qty| > 99 ==> |AmountField(qty)| > 4 + |qty|
  {
    Pad2IsLengthText(|qty|);
    if |qty| <= 99 {
      assert EncodeAll([Field(AmountTag, qty)]) == Encode(Field(AmountTag, qty));
      DecodeEncodeAll([Field(AmountTag, qty)]);
    }
  }

  // ------------------------------------------------------------ reassembly

  /**
   * A reassembled payload `head + fields + "5802ID" + tail + crc` reads as
   * the fields of `head`, then those of `fields`, then the country code
   * field, then the fields of `tail` up to its closing "6304", then the
   * checksum field holding `crc`: the splice keeps the TLV layout whenever
   * the pieces have it.
   */
  lemma DecodeReassembled(head: string, fields: string, tail: string, crc: string)
    requires Decode(head).Some? && Decode(fields).Some?
    requires |tail| >= 4 && tail[|tail| - 4..] == ChecksumHeader && Decode(tail[..|tail| - 4]).Some?
    requires |crc| == 4
    ensures Decode(head + fields + CountryMarker + tail + crc) == Some(
      Decode(head).value + Decode(fields).value + [Field("58", "ID")]
      + Decode(tail[..|tail| - 4]).value + [Field("63", crc)])
  {
    var body := tail[..|tail| - 4];
    var front := head + fields + CountryMarker;
    DecodePieces(head, fields, body, crc);
    SplitTail(front, tail, crc);
  }

  lemma DecodePieces(head: string, fields: string, body: string, crc: string)
    requires Decode(head).Some? && Decode(fields).Some? && Decode(body).Some?
    requires |crc| == 4
    ensures Decode(head + fields + CountryMarker + body + (ChecksumHeader + crc)) == Some(
      Decode(head).value + Decode(fields).value + [Field("58", "ID")]
      + Decode(body).value + [Field("63", crc)])
  {
    CountryFieldDecodes();
    ChecksumFieldDecodes(crc);
    DecodeAppend5(head, fields, CountryMarker, body, ChecksumHeader + crc);
  }

  lemma SplitTail(front: string, tail: string, crc: string)
    requires |tail| >= 4 && tail[|tail| - 4..] == ChecksumHeader
    ensures front + tail + crc == front + tail[..|tail| - 4] + (ChecksumHeader + crc)
  {
    var body := tail[..|tail| - 4];
    assert tail + crc == body + (ChecksumHeader + crc) by {
      assert tail == body + ChecksumHeader;
    }
    SeqAssoc(front, tail, crc);
    SeqAssoc(front, body, ChecksumHeader + crc);
  }

  /** The three pieces of a concatenation are where they were put. */
  lemma ConcatSlices(a: string, b: string, c: string)
    ensures (a + b + c)[..|a|] == a && (a + b + c)[|a|..|a| + |b|] == b && (a + b + c)[|a| + |b|..] == c
  {
    var r := a + b + c;
    assert r[..|a|] == a;
    assert r[|a|..|a| + |b|] == b;
    assert r[|a| + |b|..] == c;
  }

  lemma SeqAssoc(a: string, b: string, c: string)
    ensures a + b + c == a + (b + c)
  {
  }

  /** The country code marker is the single field 58 = "ID". */
  lemma CountryFieldDecodes()
    ensures Decode(CountryMarker) == Some([Field("58", "ID")])
  {
    LengthTextLiterals();
    assert Encode(Field("58", "ID")) == CountryMarker;
    DecodeSingle(Field("58", "ID"));
  }

  /** "6304" followed by four checksum characters is the single field 63. */
  lemma ChecksumFieldDecodes(crc: string)
    requires |crc| == 4
    ensures Decode(ChecksumHeader + crc) == Some([Field("63", crc)])
  {
    LengthTextLiterals();
    assert Encode(Field("63", crc)) == ChecksumHeader + crc;
    DecodeSingle(Field("63", crc));
  }
}
