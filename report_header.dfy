/** The INT telemetry report fixed header (`int_report_fixed_header_t`),
    as `parse_int_report_hdr` reads it: 12 fields, 128 bits in all. */
module Report {
  import opened Options
  import opened Bits
  import opened ByteString
  import opened BitCursor
  import opened HeaderFields

  /** The bits the header spans: eight per byte of `INT_REPORT_SIZE`. */
  const REPORT_BITS: nat := BYTE_SIZE * INT_REPORT_SIZE

  /** Field widths in bits: ver 4, len 4, nproto 3, repMdBits 6, rsvd 6, d 1, q 1, f 1, hwId 6, swId 32, seqNo 32, ingressTstamp 32. */
  datatype ReportHeader = ReportHeader(
    ver: nat, len: nat, nproto: nat, repMdBits: nat, rsvd: nat, d: nat, q: nat, f: nat,
    hwId: nat, swId: nat, seqNo: nat, ingressTstamp: nat)

  /** Every field fits its width, as every decoded field does. */
  predicate ReportFits(h: ReportHeader) {
    h.ver < Pow2(4) && h.len < Pow2(4) && h.nproto < Pow2(3) && h.repMdBits < Pow2(6) &&
    h.rsvd < Pow2(6) && h.d < Pow2(1) && h.q < Pow2(1) && h.f < Pow2(1) && h.hwId < Pow2(6) &&
    h.swId < Pow2(32) && h.seqNo < Pow2(32) && h.ingressTstamp < Pow2(32)
  }

  /** Lays the fields out again, most significant bit first, in decoding order. */
  function EncodeReport(h: ReportHeader): (r: string)
    ensures |r| == REPORT_BITS && IsBinary(r)
  {
    Encode(h.ver, 4) + Encode(h.len, 4) + Encode(h.nproto, 3) + Encode(h.repMdBits, 6) +
    Encode(h.rsvd, 6) + Encode(h.d, 1) + Encode(h.q, 1) + Encode(h.f, 1) + Encode(h.hwId, 6) +
    Encode(h.swId, 32) + Encode(h.seqNo, 32) + Encode(h.ingressTstamp, 32)
  }

  /** The field reads of `parse_int_report_hdr`, in order, with the bit index starting at 0;
      the first read that fails ends decoding. */
  function DecodeReport(binStr: string): Option<Decoded<ReportHeader>> {
    var ver :- Bin2Int(binStr, 0, 4);
    var len :- Bin2Int(binStr, ver.next, 4);
    var nproto :- Bin2Int(binStr, len.next, 3);
    var repMdBits :- Bin2Int(binStr, nproto.next, 6);
    var rsvd :- Bin2Int(binStr, repMdBits.next, 6);
    var d :- Bin2Int(binStr, rsvd.next, 1);
    var q :- Bin2Int(binStr, d.next, 1);
    var f :- Bin2Int(binStr, q.next, 1);
    var hwId :- Bin2Int(binStr, f.next, 6);
    var swId :- Bin2Int(binStr, hwId.next, 32);
    var seqNo :- Bin2Int(binStr, swId.next, 32);
    var ingressTstamp :- Bin2Int(binStr, seqNo.next, 32);
    Some(Decoded(
      ReportHeader(ver.value, len.value, nproto.value, repMdBits.value, rsvd.value, d.value,
                   q.value, f.value, hwId.value, swId.value, seqNo.value, ingressTstamp.value),
      ingressTstamp.next))
  }

  /** The same field reads with `bin2int` as written, which cuts a read short at
      the end of the string instead of failing. */
  function DecodeReportAsWritten(binStr: string): Option<Decoded<ReportHeader>> {
    var ver :- Bin2IntAsWritten(binStr, 0, 4);
    var len :- Bin2IntAsWritten(binStr, ver.next, 4);
    var nproto :- Bin2IntAsWritten(binStr, len.next, 3);
    var repMdBits :- Bin2IntAsWritten(binStr, nproto.next, 6);
    var rsvd :- Bin2IntAsWritten(binStr, repMdBits.next, 6);
    var d :- Bin2IntAsWritten(binStr, rsvd.next, 1);
    var q :- Bin2IntAsWritten(binStr, d.next, 1);
    var f :- Bin2IntAsWritten(binStr, q.next, 1);
    var hwId :- Bin2IntAsWritten(binStr, f.next, 6);
    var swId :- Bin2IntAsWritten(binStr, hwId.next, 32);
    var seqNo :- Bin2IntAsWritten(binStr, swId.next, 32);
    var ingressTstamp :- Bin2IntAsWritten(binStr, seqNo.next, 32);
    Some(Decoded(
      ReportHeader(ver.value, len.value, nproto.value, repMdBits.value, rsvd.value, d.value,
                   q.value, f.value, hwId.value, swId.value, seqNo.value, ingressTstamp.value),
      ingressTstamp.next))
  }

  /** As written, decoding a binary string succeeds exactly when the last field,
      which starts at bit 96, has at least one bit, and the index then ends at 128
      even when the string is shorter. */
  lemma DecodeReportAsWrittenSpec(s: string)
    requires IsBinary(s)
    ensures DecodeReportAsWritten(s).Some? <==> |s| > 96
    ensures DecodeReportAsWritten(s).Some? ==> DecodeReportAsWritten(s).value.hdrIdx == REPORT_BITS
  {
    if |s| > 96 {
      AsWrittenReadStarts(s, 0, 4); AsWrittenReadStarts(s, 4, 4); AsWrittenReadStarts(s, 8, 3);
      AsWrittenReadStarts(s, 11, 6); AsWrittenReadStarts(s, 17, 6); AsWrittenReadStarts(s, 23, 1);
      AsWrittenReadStarts(s, 24, 1); AsWrittenReadStarts(s, 25, 1); AsWrittenReadStarts(s, 26, 6);
      AsWrittenReadStarts(s, 32, 32); AsWrittenReadStarts(s, 64, 32); AsWrittenReadStarts(s, 96, 32);
    }
  }

  /** The header whose fields are the numbers spelled by bit ranges of `s`. */
  function ReportAt(s: string): ReportHeader
    requires |s| >= REPORT_BITS
  {
    ReportHeader(Field(s, 0, 4), Field(s, 4, 4), Field(s, 8, 3), Field(s, 11, 6),
                 Field(s, 17, 6), Field(s, 23, 1), Field(s, 24, 1), Field(s, 25, 1),
                 Field(s, 26, 6), Field(s, 32, 32), Field(s, 64, 32), Field(s, 96, 32))
  }

  /** Field layout: on a binary string that holds the whole header, every read
      succeeds, field k is the value of its own bit range, and the bit index
      ends at REPORT_BITS. */
  lemma DecodeReportAt(s: string)
    requires IsBinary(s) && |s| >= REPORT_BITS
    ensures DecodeReport(s) == Some(Decoded(ReportAt(s), REPORT_BITS))
  {
    ReadAt(s, 0, 4); ReadAt(s, 4, 4); ReadAt(s, 8, 3); ReadAt(s, 11, 6); ReadAt(s, 17, 6);
    ReadAt(s, 23, 1); ReadAt(s, 24, 1); ReadAt(s, 25, 1); ReadAt(s, 26, 6); ReadAt(s, 32, 32);
    ReadAt(s, 64, 32); ReadAt(s, 96, 32);
  }

  /** A string shorter than the header makes some read overrun, so decoding fails. */
  lemma DecodeReportShort(s: string)
    requires IsBinary(s) && |s| < REPORT_BITS
    ensures DecodeReport(s) == None
  {
    if |s| < 4 {
    } else if |s| < 8 {
      ReadFits(s, 0, 4);
    } else if |s| < 11 {
      ReadFits(s, 0, 4); ReadFits(s, 4, 4);
    } else if |s| < 17 {
      ReadFits(s, 0, 4); ReadFits(s, 4, 4); ReadFits(s, 8, 3);
    } else if |s| < 23 {
      ReadFits(s, 0, 4); ReadFits(s, 4, 4); ReadFits(s, 8, 3); ReadFits(s, 11, 6);
    } else if |s| < 24 {
      ReadFits(s, 0, 4); ReadFits(s, 4, 4); ReadFits(s, 8, 3); ReadFits(s, 11, 6); ReadFits(s, 17, 6);
    } else if |s| < 25 {
      ReadFits(s, 0, 4); ReadFits(s, 4, 4); ReadFits(s, 8, 3); ReadFits(s, 11, 6); ReadFits(s, 17, 6);
      ReadFits(s, 23, 1);
    } else if |s| < 26 {
      ReadFits(s, 0, 4); ReadFits(s, 4, 4); ReadFits(s, 8, 3); ReadFits(s, 11, 6); ReadFits(s, 17, 6);
      ReadFits(s, 23, 1); ReadFits(s, 24, 1);
    } else if |s| < 32 {
      ReadFits(s, 0, 4); ReadFits(s, 4, 4); ReadFits(s, 8, 3); ReadFits(s, 11, 6); ReadFits(s, 17, 6);
      ReadFits(s, 23, 1); ReadFits(s, 24, 1); ReadFits(s, 25, 1);
    } else if |s| < 64 {
      ReadFits(s, 0, 4); ReadFits(s, 4, 4); ReadFits(s, 8, 3); ReadFits(s, 11, 6); ReadFits(s, 17, 6);
      ReadFits(s, 23, 1); ReadFits(s, 24, 1); ReadFits(s, 25, 1); ReadFits(s, 26, 6);
    } else if |s| < 96 {
      ReadFits(s, 0, 4); ReadFits(s, 4, 4); ReadFits(s, 8, 3); ReadFits(s, 11, 6); ReadFits(s, 17, 6);
      ReadFits(s, 23, 1); ReadFits(s, 24, 1); ReadFits(s, 25, 1); ReadFits(s, 26, 6);
      ReadFits(s, 32, 32);
    } else {
      ReadFits(s, 0, 4); ReadFits(s, 4, 4); ReadFits(s, 8, 3); ReadFits(s, 11, 6); ReadFits(s, 17, 6);
      ReadFits(s, 23, 1); ReadFits(s, 24, 1); ReadFits(s, 25, 1); ReadFits(s, 26, 6);
      ReadFits(s, 32, 32); ReadFits(s, 64, 32);
    }
  }

  /** Re-encoding the fields read from a binary string gives back its first 128 bits. */
  lemma ReportAtLossless(s: string)
    requires IsBinary(s) && |s| >= REPORT_BITS
    ensures ReportFits(ReportAt(s)) && EncodeReport(ReportAt(s)) == s[..REPORT_BITS]
  {
    var h := ReportAt(s);
    FieldBits(s, 0, 4);
    FieldBits(s, 4, 4);
    Adjacent(s, 0, 4, 8);
    assert Encode(h.ver, 4) + Encode(h.len, 4)
        == s[0..8];
    FieldBits(s, 8, 3);
    Adjacent(s, 0, 8, 11);
    assert Encode(h.ver, 4) + Encode(h.len, 4) + Encode(h.nproto, 3)
        == s[0..11];
    FieldBits(s, 11, 6);
    Adjacent(s, 0, 11, 17);
    assert Encode(h.ver, 4) + Encode(h.len, 4) + Encode(h.nproto, 3) + Encode(h.repMdBits, 6)
        == s[0..17];
    FieldBits(s, 17, 6);
    Adjacent(s, 0, 17, 23);
    assert Encode(h.ver, 4) + Encode(h.len, 4) + Encode(h.nproto, 3) + Encode(h.repMdBits, 6) + Encode(h.rsvd, 6)
        == s[0..23];
    FieldBits(s, 23, 1);
    Adjacent(s, 0, 23, 24);
    assert Encode(h.ver, 4) + Encode(h.len, 4) + Encode(h.nproto, 3) + Encode(h.repMdBits, 6) + Encode(h.rsvd, 6) + Encode(h.d, 1)
        == s[0..24];
    FieldBits(s, 24, 1);
    Adjacent(s, 0, 24, 25);
    assert Encode(h.ver, 4) + Encode(h.len, 4) + Encode(h.nproto, 3) + Encode(h.repMdBits, 6) + Encode(h.rsvd, 6) + Encode(h.d, 1) + Encode(h.q, 1)
        == s[0..25];
    FieldBits(s, 25, 1);
    Adjacent(s, 0, 25, 26);
    assert Encode(h.ver, 4) + Encode(h.len, 4) + Encode(h.nproto, 3) + Encode(h.repMdBits, 6) + Encode(h.rsvd, 6) + Encode(h.d, 1) + Encode(h.q, 1) + Encode(h.f, 1)
        == s[0..26];
    FieldBits(s, 26, 6);
    Adjacent(s, 0, 26, 32);
    assert Encode(h.ver, 4) + Encode(h.len, 4) + Encode(h.nproto, 3) + Encode(h.repMdBits, 6) + Encode(h.rsvd, 6) + Encode(h.d, 1) + Encode(h.q, 1) + Encode(h.f, 1) + Encode(h.hwId, 6)
        == s[0..32];
    FieldBits(s, 32, 32);
    Adjacent(s, 0, 32, 64);
    assert Encode(h.ver, 4) + Encode(h.len, 4) + Encode(h.nproto, 3) + Encode(h.repMdBits, 6) + Encode(h.rsvd, 6) + Encode(h.d, 1) + Encode(h.q, 1) + Encode(h.f, 1) + Encode(h.hwId, 6) + Encode(h.swId, 32)
        == s[0..64];
    FieldBits(s, 64, 32);
    Adjacent(s, 0, 64, 96);
    assert Encode(h.ver, 4) + Encode(h.len, 4) + Encode(h.nproto, 3) + Encode(h.repMdBits, 6) + Encode(h.rsvd, 6) + Encode(h.d, 1) + Encode(h.q, 1) + Encode(h.f, 1) + Encode(h.hwId, 6) + Encode(h.swId, 32) + Encode(h.seqNo, 32)
        == s[0..96];
    FieldBits(s, 96, 32);
    Adjacent(s, 0, 96, 128);
  }

  /** Reading back the bit ranges of an encoded header gives its fields. */
  lemma ReportAtEncode(h: ReportHeader)
    requires ReportFits(h)
    ensures ReportAt(EncodeReport(h)) == h
  {
    var p1 := Encode(h.ver, 4);
    FieldAtEnd([], h.ver, 4);
    assert [] + p1 == p1;
    var p2 := p1 + Encode(h.len, 4);
    FieldAtEnd(p1, h.len, 4);
    FieldsOfAppend(p1, Encode(h.len, 4));
    var p3 := p2 + Encode(h.nproto, 3);
    FieldAtEnd(p2, h.nproto, 3);
    FieldsOfAppend(p2, Encode(h.nproto, 3));
    var p4 := p3 + Encode(h.repMdBits, 6);
    FieldAtEnd(p3, h.repMdBits, 6);
    FieldsOfAppend(p3, Encode(h.repMdBits, 6));
    var p5 := p4 + Encode(h.rsvd, 6);
    FieldAtEnd(p4, h.rsvd, 6);
    FieldsOfAppend(p4, Encode(h.rsvd, 6));
    var p6 := p5 + Encode(h.d, 1);
    FieldAtEnd(p5, h.d, 1);
    FieldsOfAppend(p5, Encode(h.d, 1));
    var p7 := p6 + Encode(h.q, 1);
    FieldAtEnd(p6, h.q, 1);
    FieldsOfAppend(p6, Encode(h.q, 1));
    var p8 := p7 + Encode(h.f, 1);
    FieldAtEnd(p7, h.f, 1);
    FieldsOfAppend(p7, Encode(h.f, 1));
    var p9 := p8 + Encode(h.hwId, 6);
    FieldAtEnd(p8, h.hwId, 6);
    FieldsOfAppend(p8, Encode(h.hwId, 6));
    var p10 := p9 + Encode(h.swId, 32);
    FieldAtEnd(p9, h.swId, 32);
    FieldsOfAppend(p9, Encode(h.swId, 32));
    var p11 := p10 + Encode(h.seqNo, 32);
    FieldAtEnd(p10, h.seqNo, 32);
    FieldsOfAppend(p10, Encode(h.seqNo, 32));
    var p12 := p11 + Encode(h.ingressTstamp, 32);
    FieldAtEnd(p11, h.ingressTstamp, 32);
    FieldsOfAppend(p11, Encode(h.ingressTstamp, 32));
  }

  /** The decoder fails exactly when the string is shorter than the header's
      128 bits: the field widths add up to the span, so no read overruns a full
      span and the bit index ends exactly at its end. What it decodes is lossless. */
  lemma DecodeReportSpec(s: string)
    requires IsBinary(s)
    ensures DecodeReport(s).Some? <==> |s| >= REPORT_BITS
    ensures DecodeReport(s).Some? ==>
              var d := DecodeReport(s).value;
              d.hdrIdx == REPORT_BITS && ReportFits(d.header) && EncodeReport(d.header) == s[..REPORT_BITS]
  {
    if |s| >= REPORT_BITS {
      DecodeReportAt(s);
      ReportAtLossless(s);
    } else {
      DecodeReportShort(s);
    }
  }

  /** Decoding inverts encoding for every header whose fields fit their widths. */
  lemma ReportRoundTrip(h: ReportHeader)
    requires ReportFits(h)
    ensures DecodeReport(EncodeReport(h)) == Some(Decoded(h, REPORT_BITS))
  {
    ReportAtEncode(h);
    DecodeReportAt(EncodeReport(h));
  }
}
