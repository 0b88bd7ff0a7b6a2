/** The INT metadata header,
    as `parse_int_header` reads it: 14 fields, 64 bits in all. */
module IntMetadata {
  import opened Options
  import opened Bits
  import opened ByteString
  import opened BitCursor
  import opened HeaderFields

  /** The bits the header spans: eight per byte of `INT_HEADER`. */
  const INT_HEADER_BITS: nat := BYTE_SIZE * INT_HEADER

  /** Field widths in bits: ver 4, rep 2, c 1, e 1, m 1, rsvd1 7, rsvd2 3, hopMetadataLen 5, remainingHopCnt 8, instructionMask0003 4, instructionMask0407 4, instructionMask0811 4, instructionMask1215 4, rsvd3 16. */
  datatype IntHeader = IntHeader(
    ver: nat, rep: nat, c: nat, e: nat, m: nat, rsvd1: nat, rsvd2: nat, hopMetadataLen: nat,
    remainingHopCnt: nat, instructionMask0003: nat, instructionMask0407: nat,
    instructionMask0811: nat, instructionMask1215: nat, rsvd3: nat)

  /** Every field fits its width, as every decoded field does. */
  predicate IntHeaderFits(h: IntHeader) {
    h.ver < Pow2(4) && h.rep < Pow2(2) && h.c < Pow2(1) && h.e < Pow2(1) && h.m < Pow2(1) &&
    h.rsvd1 < Pow2(7) && h.rsvd2 < Pow2(3) && h.hopMetadataLen < Pow2(5) &&
    h.remainingHopCnt < Pow2(8) && h.instructionMask0003 < Pow2(4) &&
    h.instructionMask0407 < Pow2(4) && h.instructionMask0811 < Pow2(4) &&
    h.instructionMask1215 < Pow2(4) && h.rsvd3 < Pow2(16)
  }

  /** Lays the fields out again, most significant bit first, in decoding order. */
  function EncodeIntHeader(h: IntHeader): (r: string)
    ensures |r| == INT_HEADER_BITS && IsBinary(r)
  {
    Encode(h.ver, 4) + Encode(h.rep, 2) + Encode(h.c, 1) + Encode(h.e, 1) + Encode(h.m, 1) +
    Encode(h.rsvd1, 7) + Encode(h.rsvd2, 3) + Encode(h.hopMetadataLen, 5) +
    Encode(h.remainingHopCnt, 8) + Encode(h.instructionMask0003, 4) +
    Encode(h.instructionMask0407, 4) + Encode(h.instructionMask0811, 4) +
    Encode(h.instructionMask1215, 4) + Encode(h.rsvd3, 16)
  }

  /** The field reads of `parse_int_header`, in order, with the bit index starting at 0;
      the first read that fails ends decoding. */
  function DecodeIntHeader(binStr: string): Option<Decoded<IntHeader>> {
    var ver :- Bin2Int(binStr, 0, 4);
    var rep :- Bin2Int(binStr, ver.next, 2);
    var c :- Bin2Int(binStr, rep.next, 1);
    var e :- Bin2Int(binStr, c.next, 1);
    var m :- Bin2Int(binStr, e.next, 1);
    var rsvd1 :- Bin2Int(binStr, m.next, 7);
    var rsvd2 :- Bin2Int(binStr, rsvd1.next, 3);
    var hopMetadataLen :- Bin2Int(binStr, rsvd2.next, 5);
    var remainingHopCnt :- Bin2Int(binStr, hopMetadataLen.next, 8);
    var instructionMask0003 :- Bin2Int(binStr, remainingHopCnt.next, 4);
    var instructionMask0407 :- Bin2Int(binStr, instructionMask0003.next, 4);
    var instructionMask0811 :- Bin2Int(binStr, instructionMask0407.next, 4);
    var instructionMask1215 :- Bin2Int(binStr, instructionMask0811.next, 4);
    var rsvd3 :- Bin2Int(binStr, instructionMask1215.next, 16);
    Some(Decoded(
      IntHeader(ver.value, rep.value, c.value, e.value, m.value, rsvd1.value, rsvd2.value,
                hopMetadataLen.value, remainingHopCnt.value, instructionMask0003.value,
                instructionMask0407.value, instructionMask0811.value,
                instructionMask1215.value, rsvd3.value),
      rsvd3.next))
  }

  /** The header whose fields are the numbers spelled by bit ranges of `s`. */
  function IntHeaderAt(s: string): IntHeader
    requires |s| >= INT_HEADER_BITS
  {
    IntHeader(Field(s, 0, 4), Field(s, 4, 2), Field(s, 6, 1), Field(s, 7, 1), Field(s, 8, 1),
              Field(s, 9, 7), Field(s, 16, 3), Field(s, 19, 5), Field(s, 24, 8),
              Field(s, 32, 4), Field(s, 36, 4), Field(s, 40, 4), Field(s, 44, 4),
              Field(s, 48, 16))
  }

  /** Field layout: on a binary string that holds the whole header, every read
      succeeds, field k is the value of its own bit range, and the bit index
      ends at INT_HEADER_BITS. */
  lemma DecodeIntHeaderAt(s: string)
    requires IsBinary(s) && |s| >= INT_HEADER_BITS
    ensures DecodeIntHeader(s) == Some(Decoded(IntHeaderAt(s), INT_HEADER_BITS))
  {
    ReadAt(s, 0, 4); ReadAt(s, 4, 2); ReadAt(s, 6, 1); ReadAt(s, 7, 1); ReadAt(s, 8, 1);
    ReadAt(s, 9, 7); ReadAt(s, 16, 3); ReadAt(s, 19, 5); ReadAt(s, 24, 8); ReadAt(s, 32, 4);
    ReadAt(s, 36, 4); ReadAt(s, 40, 4); ReadAt(s, 44, 4); ReadAt(s, 48, 16);
  }

  /** A string shorter than the header makes some read overrun, so decoding fails. */
  lemma DecodeIntHeaderShort(s: string)
    requires IsBinary(s) && |s| < INT_HEADER_BITS
    ensures DecodeIntHeader(s) == None
  {
    if |s| < 4 {
    } else if |s| < 6 {
      ReadFits(s, 0, 4);
    } else if |s| < 7 {
      ReadFits(s, 0, 4); ReadFits(s, 4, 2);
    } else if |s| < 8 {
      ReadFits(s, 0, 4); ReadFits(s, 4, 2); ReadFits(s, 6, 1);
    } else if |s| < 9 {
      ReadFits(s, 0, 4); ReadFits(s, 4, 2); ReadFits(s, 6, 1); ReadFits(s, 7, 1);
    } else if |s| < 16 {
      ReadFits(s, 0, 4); ReadFits(s, 4, 2); ReadFits(s, 6, 1); ReadFits(s, 7, 1); ReadFits(s, 8, 1);
    } else if |s| < 19 {
      ReadFits(s, 0, 4); ReadFits(s, 4, 2); ReadFits(s, 6, 1); ReadFits(s, 7, 1); ReadFits(s, 8, 1);
      ReadFits(s, 9, 7);
    } else if |s| < 24 {
      ReadFits(s, 0, 4); ReadFits(s, 4, 2); ReadFits(s, 6, 1); ReadFits(s, 7, 1); ReadFits(s, 8, 1);
      ReadFits(s, 9, 7); ReadFits(s, 16, 3);
    } else if |s| < 32 {
      ReadFits(s, 0, 4); ReadFits(s, 4, 2); ReadFits(s, 6, 1); ReadFits(s, 7, 1); ReadFits(s, 8, 1);
      ReadFits(s, 9, 7); ReadFits(s, 16, 3); ReadFits(s, 19, 5);
    } else if |s| < 36 {
      ReadFits(s, 0, 4); ReadFits(s, 4, 2); ReadFits(s, 6, 1); ReadFits(s, 7, 1); ReadFits(s, 8, 1);
      ReadFits(s, 9, 7); ReadFits(s, 16, 3); ReadFits(s, 19, 5); ReadFits(s, 24, 8);
    } else if |s| < 40 {
      ReadFits(s, 0, 4); ReadFits(s, 4, 2); ReadFits(s, 6, 1); ReadFits(s, 7, 1); ReadFits(s, 8, 1);
      ReadFits(s, 9, 7); ReadFits(s, 16, 3); ReadFits(s, 19, 5); ReadFits(s, 24, 8);
      ReadFits(s, 32, 4);
    } else if |s| < 44 {
      ReadFits(s, 0, 4); ReadFits(s, 4, 2); ReadFits(s, 6, 1); ReadFits(s, 7, 1); ReadFits(s, 8, 1);
      ReadFits(s, 9, 7); ReadFits(s, 16, 3); ReadFits(s, 19, 5); ReadFits(s, 24, 8);
      ReadFits(s, 32, 4); ReadFits(s, 36, 4);
    } else if |s| < 48 {
      ReadFits(s, 0, 4); ReadFits(s, 4, 2); ReadFits(s, 6, 1); ReadFits(s, 7, 1); ReadFits(s, 8, 1);
      ReadFits(s, 9, 7); ReadFits(s, 16, 3); ReadFits(s, 19, 5); ReadFits(s, 24, 8);
      ReadFits(s, 32, 4); ReadFits(s, 36, 4); ReadFits(s, 40, 4);
    } else {
      ReadFits(s, 0, 4); ReadFits(s, 4, 2); ReadFits(s, 6, 1); ReadFits(s, 7, 1); ReadFits(s, 8, 1);
      ReadFits(s, 9, 7); ReadFits(s, 16, 3); ReadFits(s, 19, 5); ReadFits(s, 24, 8);
      ReadFits(s, 32, 4); ReadFits(s, 36, 4); ReadFits(s, 40, 4); ReadFits(s, 44, 4);
    }
  }

  /** Re-encoding the fields read from a binary string gives back its first 64 bits. */
  lemma IntHeaderAtLossless(s: string)
    requires IsBinary(s) && |s| >= INT_HEADER_BITS
    ensures IntHeaderFits(IntHeaderAt(s)) && EncodeIntHeader(IntHeaderAt(s)) == s[..INT_HEADER_BITS]
  {
    var h := IntHeaderAt(s);
    FieldBits(s, 0, 4);
    FieldBits(s, 4, 2);
    Adjacent(s, 0, 4, 6);
    assert Encode(h.ver, 4) + Encode(h.rep, 2)
        == s[0..6];
    FieldBits(s, 6, 1);
    Adjacent(s, 0, 6, 7);
    assert Encode(h.ver, 4) + Encode(h.rep, 2) + Encode(h.c, 1)
        == s[0..7];
    FieldBits(s, 7, 1);
    Adjacent(s, 0, 7, 8);
    assert Encode(h.ver, 4) + Encode(h.rep, 2) + Encode(h.c, 1) + Encode(h.e, 1)
        == s[0..8];
    FieldBits(s, 8, 1);
    Adjacent(s, 0, 8, 9);
    assert Encode(h.ver, 4) + Encode(h.rep, 2) + Encode(h.c, 1) + Encode(h.e, 1) + Encode(h.m, 1)
        == s[0..9];
    FieldBits(s, 9, 7);
    Adjacent(s, 0, 9, 16);
    assert Encode(h.ver, 4) + Encode(h.rep, 2) + Encode(h.c, 1) + Encode(h.e, 1) + Encode(h.m, 1) + Encode(h.rsvd1, 7)
        == s[0..16];
    FieldBits(s, 16, 3);
    Adjacent(s, 0, 16, 19);
    assert Encode(h.ver, 4) + Encode(h.rep, 2) + Encode(h.c, 1) + Encode(h.e, 1) + Encode(h.m, 1) + Encode(h.rsvd1, 7) + Encode(h.rsvd2, 3)
        == s[0..19];
    FieldBits(s, 19, 5);
    Adjacent(s, 0, 19, 24);
    assert Encode(h.ver, 4) + Encode(h.rep, 2) + Encode(h.c, 1) + Encode(h.e, 1) + Encode(h.m, 1) + Encode(h.rsvd1, 7) + Encode(h.rsvd2, 3) + Encode(h.hopMetadataLen, 5)
        == s[0..24];
    FieldBits(s, 24, 8);
    Adjacent(s, 0, 24, 32);
    assert Encode(h.ver, 4) + Encode(h.rep, 2) + Encode(h.c, 1) + Encode(h.e, 1) + Encode(h.m, 1) + Encode(h.rsvd1, 7) + Encode(h.rsvd2, 3) + Encode(h.hopMetadataLen, 5) + Encode(h.remainingHopCnt, 8)
        == s[0..32];
    FieldBits(s, 32, 4);
    Adjacent(s, 0, 32, 36);
    assert Encode(h.ver, 4) + Encode(h.rep, 2) + Encode(h.c, 1) + Encode(h.e, 1) + Encode(h.m, 1) + Encode(h.rsvd1, 7) + Encode(h.rsvd2, 3) + Encode(h.hopMetadataLen, 5) + Encode(h.remainingHopCnt, 8) + Encode(h.instructionMask0003, 4)
        == s[0..36];
    FieldBits(s, 36, 4);
    Adjacent(s, 0, 36, 40);
    assert Encode(h.ver, 4) + Encode(h.rep, 2) + Encode(h.c, 1) + Encode(h.e, 1) + Encode(h.m, 1) + Encode(h.rsvd1, 7) + Encode(h.rsvd2, 3) + Encode(h.hopMetadataLen, 5) + Encode(h.remainingHopCnt, 8) + Encode(h.instructionMask0003, 4) + Encode(h.instructionMask0407, 4)
        == s[0..40];
    FieldBits(s, 40, 4);
    Adjacent(s, 0, 40, 44);
    assert Encode(h.ver, 4) + Encode(h.rep, 2) + Encode(h.c, 1) + Encode(h.e, 1) + Encode(h.m, 1) + Encode(h.rsvd1, 7) + Encode(h.rsvd2, 3) + Encode(h.hopMetadataLen, 5) + Encode(h.remainingHopCnt, 8) + Encode(h.instructionMask0003, 4) + Encode(h.instructionMask0407, 4) + Encode(h.instructionMask0811, 4)
        == s[0..44];
    FieldBits(s, 44, 4);
    Adjacent(s, 0, 44, 48);
    assert Encode(h.ver, 4) + Encode(h.rep, 2) + Encode(h.c, 1) + Encode(h.e, 1) + Encode(h.m, 1) + Encode(h.rsvd1, 7) + Encode(h.rsvd2, 3) + Encode(h.hopMetadataLen, 5) + Encode(h.remainingHopCnt, 8) + Encode(h.instructionMask0003, 4) + Encode(h.instructionMask0407, 4) + Encode(h.instructionMask0811, 4) + Encode(h.instructionMask1215, 4)
        == s[0..48];
    FieldBits(s, 48, 16);
    Adjacent(s, 0, 48, 64);
  }

  /** Reading back the bit ranges of an encoded header gives its fields. */
  lemma IntHeaderAtEncode(h: IntHeader)
    requires IntHeaderFits(h)
    ensures IntHeaderAt(EncodeIntHeader(h)) == h
  {
    var p1 := Encode(h.ver, 4);
    FieldAtEnd([], h.ver, 4);
    assert [] + p1 == p1;
    var p2 := p1 + Encode(h.rep, 2);
    FieldAtEnd(p1, h.rep, 2);
    FieldsOfAppend(p1, Encode(h.rep, 2));
    var p3 := p2 + Encode(h.c, 1);
    FieldAtEnd(p2, h.c, 1);
    FieldsOfAppend(p2, Encode(h.c, 1));
    var p4 := p3 + Encode(h.e, 1);
    FieldAtEnd(p3, h.e, 1);
    FieldsOfAppend(p3, Encode(h.e, 1));
    var p5 := p4 + Encode(h.m, 1);
    FieldAtEnd(p4, h.m, 1);
    FieldsOfAppend(p4, Encode(h.m, 1));
    var p6 := p5 + Encode(h.rsvd1, 7);
    FieldAtEnd(p5, h.rsvd1, 7);
    FieldsOfAppend(p5, Encode(h.rsvd1, 7));
    var p7 := p6 + Encode(h.rsvd2, 3);
    FieldAtEnd(p6, h.rsvd2, 3);
    FieldsOfAppend(p6, Encode(h.rsvd2, 3));
    var p8 := p7 + Encode(h.hopMetadataLen, 5);
    FieldAtEnd(p7, h.hopMetadataLen, 5);
    FieldsOfAppend(p7, Encode(h.hopMetadataLen, 5));
    var p9 := p8 + Encode(h.remainingHopCnt, 8);
    FieldAtEnd(p8, h.remainingHopCnt, 8);
    FieldsOfAppend(p8, Encode(h.remainingHopCnt, 8));
    var p10 := p9 + Encode(h.instructionMask0003, 4);
    FieldAtEnd(p9, h.instructionMask0003, 4);
    FieldsOfAppend(p9, Encode(h.instructionMask0003, 4));
    var p11 := p10 + Encode(h.instructionMask0407, 4);
    FieldAtEnd(p10, h.instructionMask0407, 4);
    FieldsOfAppend(p10, Encode(h.instructionMask0407, 4));
    var p12 := p11 + Encode(h.instructionMask0811, 4);
    FieldAtEnd(p11, h.instructionMask0811, 4);
    FieldsOfAppend(p11, Encode(h.instructionMask0811, 4));
    var p13 := p12 + Encode(h.instructionMask1215, 4);
    FieldAtEnd(p12, h.instructionMask1215, 4);
    FieldsOfAppend(p12, Encode(h.instructionMask1215, 4));
    var p14 := p13 + Encode(h.rsvd3, 16);
    FieldAtEnd(p13, h.rsvd3, 16);
    FieldsOfAppend(p13, Encode(h.rsvd3, 16));
  }

  /** The decoder fails exactly when the string is shorter than the header's
      64 bits: the field widths add up to the span, so no read overruns a full
      span and the bit index ends exactly at its end. What it decodes is lossless. */
  lemma DecodeIntHeaderSpec(s: string)
    requires IsBinary(s)
    ensures DecodeIntHeader(s).Some? <==> |s| >= INT_HEADER_BITS
    ensures DecodeIntHeader(s).Some? ==>
              var d := DecodeIntHeader(s).value;
              d.hdrIdx == INT_HEADER_BITS && IntHeaderFits(d.header) && EncodeIntHeader(d.header) == s[..INT_HEADER_BITS]
  {
    if |s| >= INT_HEADER_BITS {
      DecodeIntHeaderAt(s);
      IntHeaderAtLossless(s);
    } else {
      DecodeIntHeaderShort(s);
    }
  }

  /** Decoding inverts encoding for every header whose fields fit their widths. */
  lemma IntHeaderRoundTrip(h: IntHeader)
    requires IntHeaderFits(h)
    ensures DecodeIntHeader(EncodeIntHeader(h)) == Some(Decoded(h, INT_HEADER_BITS))
  {
    IntHeaderAtEncode(h);
    DecodeIntHeaderAt(EncodeIntHeader(h));
  }
}
