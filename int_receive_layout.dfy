/** Properties of the driver `int_parser`: where each header sits in the payload,
    when parsing fails, and that it inverts laying the six headers out. */
module IntReceiveLayout {
  import opened Options
  import opened Bits
  import opened ByteString
  import opened HeaderFields
  import opened Report
  import opened Ethernet
  import opened Ipv4
  import opened Udp
  import opened IntShim
  import opened IntMetadata
  import opened IntReceive

  /** On a payload that holds all six spans, each parser succeeds at its offset
      and returns the next one. */
  lemma SpansParse(payload: seq<Byte>)
    requires |payload| >= 70
    ensures ParseIntReportHdr(payload, 0).Some? && ParseIntReportHdr(payload, 0).value.next == 16
    ensures ParseEthernetHdr(payload, 16).Some? && ParseEthernetHdr(payload, 16).value.next == 30
    ensures ParseIpv4Hdr(payload, 30).Some? && ParseIpv4Hdr(payload, 30).value.next == 50
    ensures ParseUdpHdr(payload, 50).Some? && ParseUdpHdr(payload, 50).value.next == 58
    ensures ParseIntShimHdr(payload, 58).Some? && ParseIntShimHdr(payload, 58).value.next == 62
    ensures ParseIntHeader(payload, 62).Some? && ParseIntHeader(payload, 62).value.next == 70
  {
    ParseIntReportHdrSpec(payload, 0);
    ParseEthernetHdrSpec(payload, 16);
    ParseIpv4HdrSpec(payload, 30);
    ParseUdpHdrSpec(payload, 50);
    ParseIntShimHdrSpec(payload, 58);
    ParseIntHeaderSpec(payload, 62);
  }

  /** On a payload that holds all six spans, `int_parser` returns the headers the
      six parsers decode at offsets 0, 16, 30, 50, 58 and 62, and offset 70. */
  lemma IntParserOffsets(payload: seq<Byte>)
    requires |payload| >= 70
    ensures ParseIntReportHdr(payload, 0).Some? && ParseEthernetHdr(payload, 16).Some?
            && ParseIpv4Hdr(payload, 30).Some? && ParseUdpHdr(payload, 50).Some?
            && ParseIntShimHdr(payload, 58).Some? && ParseIntHeader(payload, 62).Some?
    ensures IntParser(payload) == Some(Parsed(IntReport(
              ParseIntReportHdr(payload, 0).value.header,
              ParseEthernetHdr(payload, 16).value.header,
              ParseIpv4Hdr(payload, 30).value.header,
              ParseUdpHdr(payload, 50).value.header,
              ParseIntShimHdr(payload, 58).value.header,
              ParseIntHeader(payload, 62).value.header), 70))
  {
    SpansParse(payload);
  }

  /** The layout of a report payload: on a payload of at least 70 bytes parsing
      succeeds and ends at offset 70, and the six headers are decoded from the
      spans starting at offsets 0, 16, 30, 50, 58 and 62: each re-encodes to
      exactly the bits of its own span. */
  lemma IntParserLayout(payload: seq<Byte>)
    requires |payload| >= 70
    ensures IntParser(payload).Some? && IntParser(payload).value.next == 70
    ensures var r := IntParser(payload).value.header;
            EncodeReport(r.report) == Bin(payload[0..16])
            && EncodeEthernet(r.ethernet) == Bin(payload[16..30])
            && EncodeIpv4(r.ipv4) == Bin(payload[30..50])
            && EncodeUdp(r.udp) == Bin(payload[50..58])
            && EncodeShim(r.shim) == Bin(payload[58..62])
            && EncodeIntHeader(r.intHeader) == Bin(payload[62..70])
  {
    IntParserOffsets(payload);
    ParseIntReportHdrSpec(payload, 0);
    ParseEthernetHdrSpec(payload, 16);
    ParseIpv4HdrSpec(payload, 30);
    ParseUdpHdrSpec(payload, 50);
    ParseIntShimHdrSpec(payload, 58);
    ParseIntHeaderSpec(payload, 62);
  }

  /** Every decoded field fits its width. */
  lemma IntParserFits(payload: seq<Byte>)
    requires IntParser(payload).Some?
    ensures IntReportFits(IntParser(payload).value.header)
  {
    ParseIntReportHdrSpec(payload, 0);
    ParseEthernetHdrSpec(payload, 16);
    ParseIpv4HdrSpec(payload, 30);
    ParseUdpHdrSpec(payload, 50);
    ParseIntShimHdrSpec(payload, 58);
    ParseIntHeaderSpec(payload, 62);
  }

  /** A payload that ends before byte 70 makes the first header whose span it cuts
      fail, so nothing is returned for it. */
  lemma IntParserShort(payload: seq<Byte>)
    requires |payload| < 70
    ensures IntParser(payload) == None
  {
    ParseIntReportHdrSpec(payload, 0);
    if |payload| >= 16 { ParseEthernetHdrSpec(payload, 16); }
    if |payload| >= 30 { ParseIpv4HdrSpec(payload, 30); }
    if |payload| >= 50 { ParseUdpHdrSpec(payload, 50); }
    if |payload| >= 58 { ParseIntShimHdrSpec(payload, 58); }
    if |payload| >= 62 { ParseIntHeaderSpec(payload, 62); }
  }

  /** The bits of the first 70 bytes are the bits of the six spans in order. */
  lemma BinOfSpans(payload: seq<Byte>)
    requires |payload| >= 70
    ensures Bin(payload[..70]) == Bin(payload[0..16]) + Bin(payload[16..30]) + Bin(payload[30..50])
                                  + Bin(payload[50..58]) + Bin(payload[58..62]) + Bin(payload[62..70])
  {
    var s0, s1, s2 := payload[0..16], payload[16..30], payload[30..50];
    var s3, s4, s5 := payload[50..58], payload[58..62], payload[62..70];
    assert payload[..70] == s0 + s1 + s2 + s3 + s4 + s5;
    BinAppend(s0 + s1 + s2 + s3 + s4, s5);
    BinAppend(s0 + s1 + s2 + s3, s4);
    BinAppend(s0 + s1 + s2, s3);
    BinAppend(s0 + s1, s2);
    BinAppend(s0, s1);
  }

  /** Parsing fails exactly when the payload is shorter than the 70 bytes of the
      six headers, so a payload cut short anywhere inside them yields no headers
      at all; otherwise it ends at offset 70 and the decoded headers re-encode to
      exactly the bits of the first 70 bytes. */
  lemma IntParserSpec(payload: seq<Byte>)
    ensures IntParser(payload).Some? <==> |payload| >= INT_REPORT_HEADERS_SIZE
    ensures IntParser(payload).Some? ==>
              var p := IntParser(payload).value;
              p.next == INT_REPORT_HEADERS_SIZE && IntReportFits(p.header)
              && EncodeIntReport(p.header) == Bin(payload[..INT_REPORT_HEADERS_SIZE])
  {
    if |payload| >= INT_REPORT_HEADERS_SIZE {
      IntParserLayout(payload);
      IntParserFits(payload);
      BinOfSpans(payload);
    } else {
      IntParserShort(payload);
    }
  }

  /** Two concatenations of six strings whose first five parts match in length
      agree part by part. */
  lemma SplitConcat(a1: string, a2: string, a3: string, a4: string, a5: string, a6: string,
                    b1: string, b2: string, b3: string, b4: string, b5: string, b6: string)
    requires |a1| == |b1| && |a2| == |b2| && |a3| == |b3| && |a4| == |b4| && |a5| == |b5|
    requires a1 + a2 + a3 + a4 + a5 + a6 == b1 + b2 + b3 + b4 + b5 + b6
    ensures a1 == b1 && a2 == b2 && a3 == b3 && a4 == b4 && a5 == b5 && a6 == b6
  {
    var a, b := a1 + a2 + a3 + a4 + a5 + a6, b1 + b2 + b3 + b4 + b5 + b6;
    var o1 := |a1|;
    var o2 := o1 + |a2|;
    var o3 := o2 + |a3|;
    var o4 := o3 + |a4|;
    var o5 := o4 + |a5|;
    assert a1 == a[..o1] == b[..o1] == b1;
    assert a2 == a[o1..o2] == b[o1..o2] == b2;
    assert a3 == a[o2..o3] == b[o2..o3] == b3;
    assert a4 == a[o3..o4] == b[o3..o4] == b4;
    assert a5 == a[o4..o5] == b[o4..o5] == b5;
    assert a6 == a[o5..] == b[o5..] == b6;
  }

  /** Headers whose fields fit are determined by their encoding: two reports laid
      out as the same bits are the same report. */
  lemma EncodeIntReportInjective(r: IntReport, s: IntReport)
    requires IntReportFits(r) && IntReportFits(s)
    requires EncodeIntReport(r) == EncodeIntReport(s)
    ensures r == s
  {
    SplitConcat(EncodeReport(r.report), EncodeEthernet(r.ethernet), EncodeIpv4(r.ipv4),
                EncodeUdp(r.udp), EncodeShim(r.shim), EncodeIntHeader(r.intHeader),
                EncodeReport(s.report), EncodeEthernet(s.ethernet), EncodeIpv4(s.ipv4),
                EncodeUdp(s.udp), EncodeShim(s.shim), EncodeIntHeader(s.intHeader));
    ReportAtEncode(r.report);
    ReportAtEncode(s.report);
    EthernetAtEncode(r.ethernet);
    EthernetAtEncode(s.ethernet);
    Ipv4AtEncode(r.ipv4);
    Ipv4AtEncode(s.ipv4);
    UdpAtEncode(r.udp);
    UdpAtEncode(s.udp);
    ShimAtEncode(r.shim);
    ShimAtEncode(s.shim);
    IntHeaderAtEncode(r.intHeader);
    IntHeaderAtEncode(s.intHeader);
  }

  /** Any six headers whose fields fit, encoded at the start of a payload and
      followed by any bytes, are parsed back exactly, ending at offset 70. */
  lemma IntParserRoundTrip(r: IntReport, rest: seq<Byte>)
    requires IntReportFits(r)
    ensures IntParser(Pack(EncodeIntReport(r)) + rest) == Some(Parsed(r, INT_REPORT_HEADERS_SIZE))
  {
    var bits := EncodeIntReport(r);
    var payload := Pack(bits) + rest;
    assert payload[..INT_REPORT_HEADERS_SIZE] == Pack(bits);
    IntParserSpec(payload);
    BinOfPack(bits);
    EncodeIntReportInjective(r, IntParser(payload).value.header);
  }
}
