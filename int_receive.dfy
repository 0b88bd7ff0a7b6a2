/** The payload-level parsers `parse_*` of an INT report, each taking its fixed
    span of the UDP payload, decoding it and returning the offset after it, and
    the driver `int_parser` that chains them from offset 0. */
module IntReceive {
  import opened Options
  import opened Bits
  import opened ByteString
  import opened BitCursor
  import opened HeaderFields
  import opened Report
  import opened Ethernet
  import opened Ipv4
  import opened Udp
  import opened IntShim
  import opened IntMetadata

  /** A header parsed from the payload, with the payload offset after its span. */
  datatype Parsed<H> = Parsed(header: H, next: nat)

  /** `parse_int_report_hdr`: slice the header's span out of the payload (cut short, as
      Python slicing is, when the payload ends early), expand it to bits, decode
      the fields and advance the payload offset by `INT_REPORT_SIZE`. */
  function ParseIntReportHdr(payload: seq<Byte>, payloadIdx: nat): Option<Parsed<ReportHeader>> {
    var intRepHdr := PySlice(payload, payloadIdx, payloadIdx + INT_REPORT_SIZE);
    var binStr := Bin(intRepHdr);
    var d :- DecodeReport(binStr);
    Some(Parsed(d.header, payloadIdx + INT_REPORT_SIZE))
  }

  /** The parser fails exactly when its INT_REPORT_SIZE bytes are not all in the payload;
      otherwise it returns the offset advanced by `INT_REPORT_SIZE` whatever the bytes are,
      and the decoded header re-encodes to exactly the span's bits. */
  lemma ParseIntReportHdrSpec(payload: seq<Byte>, payloadIdx: nat)
    ensures ParseIntReportHdr(payload, payloadIdx).Some? <==> payloadIdx + INT_REPORT_SIZE <= |payload|
    ensures ParseIntReportHdr(payload, payloadIdx).Some? ==>
              var p := ParseIntReportHdr(payload, payloadIdx).value;
              p.next == payloadIdx + INT_REPORT_SIZE && ReportFits(p.header)
              && EncodeReport(p.header) == Bin(payload[payloadIdx..payloadIdx + INT_REPORT_SIZE])
  {
    var span := PySlice(payload, payloadIdx, payloadIdx + INT_REPORT_SIZE);
    if payloadIdx + INT_REPORT_SIZE <= |payload| {
      assert span == payload[payloadIdx..payloadIdx + INT_REPORT_SIZE];
    }
    DecodeReportSpec(Bin(span));
  }

  /** A header encoded into the payload at any offset, with any bytes around
      it, is parsed back exactly. */
  lemma ParseIntReportHdrRoundTrip(h: ReportHeader, pre: seq<Byte>, post: seq<Byte>)
    requires ReportFits(h)
    ensures ParseIntReportHdr(pre + Pack(EncodeReport(h)) + post, |pre|) == Some(Parsed(h, |pre| + INT_REPORT_SIZE))
  {
    var span := Pack(EncodeReport(h));
    assert PySlice(pre + span + post, |pre|, |pre| + INT_REPORT_SIZE) == span;
    BinOfPack(EncodeReport(h));
    ReportRoundTrip(h);
  }

  /** `parse_int_report_hdr` with `bin2int` as written. */
  function ParseIntReportHdrAsWritten(payload: seq<Byte>, payloadIdx: nat): Option<Parsed<ReportHeader>> {
    var intRepHdr := PySlice(payload, payloadIdx, payloadIdx + INT_REPORT_SIZE);
    var binStr := Bin(intRepHdr);
    var d :- DecodeReportAsWritten(binStr);
    Some(Parsed(d.header, payloadIdx + INT_REPORT_SIZE))
  }

  /** As written, the report parser succeeds exactly when at least 13 of its 16
      bytes are in the payload, so that the last field has a bit to read, and it
      then advances the offset by 16 all the same. */
  lemma ParseIntReportHdrAsWrittenSpec(payload: seq<Byte>, payloadIdx: nat)
    ensures ParseIntReportHdrAsWritten(payload, payloadIdx).Some? <==> payloadIdx + 13 <= |payload|
    ensures ParseIntReportHdrAsWritten(payload, payloadIdx).Some? ==>
              ParseIntReportHdrAsWritten(payload, payloadIdx).value.next == payloadIdx + INT_REPORT_SIZE
  {
    DecodeReportAsWrittenSpec(Bin(PySlice(payload, payloadIdx, payloadIdx + INT_REPORT_SIZE)));
  }

  /** A report span cut short by one to three bytes: as written the parser returns
      a header and an offset past the end of the payload; the corrected parser fails. */
  lemma ParseIntReportHdrAsWrittenOverruns(payload: seq<Byte>, payloadIdx: nat)
    requires payloadIdx + 13 <= |payload| < payloadIdx + INT_REPORT_SIZE
    ensures ParseIntReportHdrAsWritten(payload, payloadIdx).Some?
    ensures ParseIntReportHdrAsWritten(payload, payloadIdx).value.next == payloadIdx + INT_REPORT_SIZE > |payload|
    ensures ParseIntReportHdr(payload, payloadIdx) == None
  {
    ParseIntReportHdrAsWrittenSpec(payload, payloadIdx);
    ParseIntReportHdrSpec(payload, payloadIdx);
  }

  /** `parse_ethernet_hdr`: slice the header's span out of the payload (cut short, as
      Python slicing is, when the payload ends early), expand it to bits, decode
      the fields and advance the payload offset by `ETH_SIZE`. */
  function ParseEthernetHdr(payload: seq<Byte>, payloadIdx: nat): Option<Parsed<EthernetHeader>> {
    var ethHdr := PySlice(payload, payloadIdx, payloadIdx + ETH_SIZE);
    var binStr := Bin(ethHdr);
    var d :- DecodeEthernet(binStr);
    Some(Parsed(d.header, payloadIdx + ETH_SIZE))
  }

  /** The parser fails exactly when its ETH_SIZE bytes are not all in the payload;
      otherwise it returns the offset advanced by `ETH_SIZE` whatever the bytes are,
      and the decoded header re-encodes to exactly the span's bits. */
  lemma ParseEthernetHdrSpec(payload: seq<Byte>, payloadIdx: nat)
    ensures ParseEthernetHdr(payload, payloadIdx).Some? <==> payloadIdx + ETH_SIZE <= |payload|
    ensures ParseEthernetHdr(payload, payloadIdx).Some? ==>
              var p := ParseEthernetHdr(payload, payloadIdx).value;
              p.next == payloadIdx + ETH_SIZE && EthernetFits(p.header)
              && EncodeEthernet(p.header) == Bin(payload[payloadIdx..payloadIdx + ETH_SIZE])
  {
    var span := PySlice(payload, payloadIdx, payloadIdx + ETH_SIZE);
    if payloadIdx + ETH_SIZE <= |payload| {
      assert span == payload[payloadIdx..payloadIdx + ETH_SIZE];
    }
    DecodeEthernetSpec(Bin(span));
  }

  /** A header encoded into the payload at any offset, with any bytes around
      it, is parsed back exactly. */
  lemma ParseEthernetHdrRoundTrip(h: EthernetHeader, pre: seq<Byte>, post: seq<Byte>)
    requires EthernetFits(h)
    ensures ParseEthernetHdr(pre + Pack(EncodeEthernet(h)) + post, |pre|) == Some(Parsed(h, |pre| + ETH_SIZE))
  {
    var span := Pack(EncodeEthernet(h));
    assert PySlice(pre + span + post, |pre|, |pre| + ETH_SIZE) == span;
    BinOfPack(EncodeEthernet(h));
    EthernetRoundTrip(h);
  }

  /** `parse_ipv4_hdr`: slice the header's span out of the payload (cut short, as
      Python slicing is, when the payload ends early), expand it to bits, decode
      the fields and advance the payload offset by `IP_SIZE`. */
  function ParseIpv4Hdr(payload: seq<Byte>, payloadIdx: nat): Option<Parsed<Ipv4Header>> {
    var ipv4Hdr := PySlice(payload, payloadIdx, payloadIdx + IP_SIZE);
    var binStr := Bin(ipv4Hdr);
    var d :- DecodeIpv4(binStr);
    Some(Parsed(d.header, payloadIdx + IP_SIZE))
  }

  /** The parser fails exactly when its IP_SIZE bytes are not all in the payload;
      otherwise it returns the offset advanced by `IP_SIZE` whatever the bytes are,
      and the decoded header re-encodes to exactly the span's bits. */
  lemma ParseIpv4HdrSpec(payload: seq<Byte>, payloadIdx: nat)
    ensures ParseIpv4Hdr(payload, payloadIdx).Some? <==> payloadIdx + IP_SIZE <= |payload|
    ensures ParseIpv4Hdr(payload, payloadIdx).Some? ==>
              var p := ParseIpv4Hdr(payload, payloadIdx).value;
              p.next == payloadIdx + IP_SIZE && Ipv4Fits(p.header)
              && EncodeIpv4(p.header) == Bin(payload[payloadIdx..payloadIdx + IP_SIZE])
  {
    var span := PySlice(payload, payloadIdx, payloadIdx + IP_SIZE);
    if payloadIdx + IP_SIZE <= |payload| {
      assert span == payload[payloadIdx..payloadIdx + IP_SIZE];
    }
    DecodeIpv4Spec(Bin(span));
  }

  /** A header encoded into the payload at any offset, with any bytes around
      it, is parsed back exactly. */
  lemma ParseIpv4HdrRoundTrip(h: Ipv4Header, pre: seq<Byte>, post: seq<Byte>)
    requires Ipv4Fits(h)
    ensures ParseIpv4Hdr(pre + Pack(EncodeIpv4(h)) + post, |pre|) == Some(Parsed(h, |pre| + IP_SIZE))
  {
    var span := Pack(EncodeIpv4(h));
    assert PySlice(pre + span + post, |pre|, |pre| + IP_SIZE) == span;
    BinOfPack(EncodeIpv4(h));
    Ipv4RoundTrip(h);
  }

  /** `parse_udp_hdr`: slice the header's span out of the payload (cut short, as
      Python slicing is, when the payload ends early), expand it to bits, decode
      the fields and advance the payload offset by `UDP_SIZE`. */
  function ParseUdpHdr(payload: seq<Byte>, payloadIdx: nat): Option<Parsed<UdpHeader>> {
    var udpHdr := PySlice(payload, payloadIdx, payloadIdx + UDP_SIZE);
    var binStr := Bin(udpHdr);
    var d :- DecodeUdp(binStr);
    Some(Parsed(d.header, payloadIdx + UDP_SIZE))
  }

  /** The parser fails exactly when its UDP_SIZE bytes are not all in the payload;
      otherwise it returns the offset advanced by `UDP_SIZE` whatever the bytes are,
      and the decoded header re-encodes to exactly the span's bits. */
  lemma ParseUdpHdrSpec(payload: seq<Byte>, payloadIdx: nat)
    ensures ParseUdpHdr(payload, payloadIdx).Some? <==> payloadIdx + UDP_SIZE <= |payload|
    ensures ParseUdpHdr(payload, payloadIdx).Some? ==>
              var p := ParseUdpHdr(payload, payloadIdx).value;
              p.next == payloadIdx + UDP_SIZE && UdpFits(p.header)
              && EncodeUdp(p.header) == Bin(payload[payloadIdx..payloadIdx + UDP_SIZE])
  {
    var span := PySlice(payload, payloadIdx, payloadIdx + UDP_SIZE);
    if payloadIdx + UDP_SIZE <= |payload| {
      assert span == payload[payloadIdx..payloadIdx + UDP_SIZE];
    }
    DecodeUdpSpec(Bin(span));
  }

  /** A header encoded into the payload at any offset, with any bytes around
      it, is parsed back exactly. */
  lemma ParseUdpHdrRoundTrip(h: UdpHeader, pre: seq<Byte>, post: seq<Byte>)
    requires UdpFits(h)
    ensures ParseUdpHdr(pre + Pack(EncodeUdp(h)) + post, |pre|) == Some(Parsed(h, |pre| + UDP_SIZE))
  {
    var span := Pack(EncodeUdp(h));
    assert PySlice(pre + span + post, |pre|, |pre| + UDP_SIZE) == span;
    BinOfPack(EncodeUdp(h));
    UdpRoundTrip(h);
  }

  /** `parse_int_shim_hdr`: slice the header's span out of the payload (cut short, as
      Python slicing is, when the payload ends early), expand it to bits, decode
      the fields and advance the payload offset by `INT_SHIM_SIZE`. */
  function ParseIntShimHdr(payload: seq<Byte>, payloadIdx: nat): Option<Parsed<ShimHeader>> {
    var intShimHdr := PySlice(payload, payloadIdx, payloadIdx + INT_SHIM_SIZE);
    var binStr := Bin(intShimHdr);
    var d :- DecodeShim(binStr);
    Some(Parsed(d.header, payloadIdx + INT_SHIM_SIZE))
  }

  /** The parser fails exactly when its INT_SHIM_SIZE bytes are not all in the payload;
      otherwise it returns the offset advanced by `INT_SHIM_SIZE` whatever the bytes are,
      and the decoded header re-encodes to exactly the span's bits. */
  lemma ParseIntShimHdrSpec(payload: seq<Byte>, payloadIdx: nat)
    ensures ParseIntShimHdr(payload, payloadIdx).Some? <==> payloadIdx + INT_SHIM_SIZE <= |payload|
    ensures ParseIntShimHdr(payload, payloadIdx).Some? ==>
              var p := ParseIntShimHdr(payload, payloadIdx).value;
              p.next == payloadIdx + INT_SHIM_SIZE && ShimFits(p.header)
              && EncodeShim(p.header) == Bin(payload[payloadIdx..payloadIdx + INT_SHIM_SIZE])
  {
    var span := PySlice(payload, payloadIdx, payloadIdx + INT_SHIM_SIZE);
    if payloadIdx + INT_SHIM_SIZE <= |payload| {
      assert span == payload[payloadIdx..payloadIdx + INT_SHIM_SIZE];
    }
    DecodeShimSpec(Bin(span));
  }

  /** A header encoded into the payload at any offset, with any bytes around
      it, is parsed back exactly. */
  lemma ParseIntShimHdrRoundTrip(h: ShimHeader, pre: seq<Byte>, post: seq<Byte>)
    requires ShimFits(h)
    ensures ParseIntShimHdr(pre + Pack(EncodeShim(h)) + post, |pre|) == Some(Parsed(h, |pre| + INT_SHIM_SIZE))
  {
    var span := Pack(EncodeShim(h));
    assert PySlice(pre + span + post, |pre|, |pre| + INT_SHIM_SIZE) == span;
    BinOfPack(EncodeShim(h));
    ShimRoundTrip(h);
  }

  /** `parse_int_header`: slice the header's span out of the payload (cut short, as
      Python slicing is, when the payload ends early), expand it to bits, decode
      the fields and advance the payload offset by `INT_HEADER`. */
  function ParseIntHeader(payload: seq<Byte>, payloadIdx: nat): Option<Parsed<IntHeader>> {
    var intHdr := PySlice(payload, payloadIdx, payloadIdx + INT_HEADER);
    var binStr := Bin(intHdr);
    var d :- DecodeIntHeader(binStr);
    Some(Parsed(d.header, payloadIdx + INT_HEADER))
  }

  /** The parser fails exactly when its INT_HEADER bytes are not all in the payload;
      otherwise it returns the offset advanced by `INT_HEADER` whatever the bytes are,
      and the decoded header re-encodes to exactly the span's bits. */
  lemma ParseIntHeaderSpec(payload: seq<Byte>, payloadIdx: nat)
    ensures ParseIntHeader(payload, payloadIdx).Some? <==> payloadIdx + INT_HEADER <= |payload|
    ensures ParseIntHeader(payload, payloadIdx).Some? ==>
              var p := ParseIntHeader(payload, payloadIdx).value;
              p.next == payloadIdx + INT_HEADER && IntHeaderFits(p.header)
              && EncodeIntHeader(p.header) == Bin(payload[payloadIdx..payloadIdx + INT_HEADER])
  {
    var span := PySlice(payload, payloadIdx, payloadIdx + INT_HEADER);
    if payloadIdx + INT_HEADER <= |payload| {
      assert span == payload[payloadIdx..payloadIdx + INT_HEADER];
    }
    DecodeIntHeaderSpec(Bin(span));
  }

  /** A header encoded into the payload at any offset, with any bytes around
      it, is parsed back exactly. */
  lemma ParseIntHeaderRoundTrip(h: IntHeader, pre: seq<Byte>, post: seq<Byte>)
    requires IntHeaderFits(h)
    ensures ParseIntHeader(pre + Pack(EncodeIntHeader(h)) + post, |pre|) == Some(Parsed(h, |pre| + INT_HEADER))
  {
    var span := Pack(EncodeIntHeader(h));
    assert PySlice(pre + span + post, |pre|, |pre| + INT_HEADER) == span;
    BinOfPack(EncodeIntHeader(h));
    IntHeaderRoundTrip(h);
  }

  /** The headers of one INT report, in payload order. */
  datatype IntReport = IntReport(
    report: ReportHeader, ethernet: EthernetHeader, ipv4: Ipv4Header,
    udp: UdpHeader, shim: ShimHeader, intHeader: IntHeader)

  /** Bytes taken by the six headers: the INT header ends at byte 69. */
  const INT_REPORT_HEADERS_SIZE: nat :=
    INT_REPORT_SIZE + ETH_SIZE + IP_SIZE + UDP_SIZE + INT_SHIM_SIZE + INT_HEADER

  predicate IntReportFits(r: IntReport) {
    ReportFits(r.report) && EthernetFits(r.ethernet) && Ipv4Fits(r.ipv4)
    && UdpFits(r.udp) && ShimFits(r.shim) && IntHeaderFits(r.intHeader)
  }

  /** The six headers laid out back to back, as bits. */
  function EncodeIntReport(r: IntReport): (bits: string)
    ensures |bits| == BYTE_SIZE * INT_REPORT_HEADERS_SIZE && IsBinary(bits)
  {
    EncodeReport(r.report) + EncodeEthernet(r.ethernet) + EncodeIpv4(r.ipv4)
    + EncodeUdp(r.udp) + EncodeShim(r.shim) + EncodeIntHeader(r.intHeader)
  }

  /** `int_parser`: from payload offset 0, the report header, then the Ethernet,
      IPv4 and UDP headers of the original packet, then the INT shim and INT
      metadata headers, each parser starting at the offset the previous one
      returned. The first parser that fails ends parsing. */
  function IntParser(payload: seq<Byte>): Option<Parsed<IntReport>> {
    var payloadIdx := 0;
    var report :- ParseIntReportHdr(payload, payloadIdx);
    var ethernet :- ParseEthernetHdr(payload, report.next);
    var ipv4 :- ParseIpv4Hdr(payload, ethernet.next);
    var udp :- ParseUdpHdr(payload, ipv4.next);
    var shim :- ParseIntShimHdr(payload, udp.next);
    var intHeader :- ParseIntHeader(payload, shim.next);
    Some(Parsed(
      IntReport(report.header, ethernet.header, ipv4.header, udp.header, shim.header, intHeader.header),
      intHeader.next))
  }
}
