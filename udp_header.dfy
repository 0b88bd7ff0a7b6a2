/** The UDP header of the encapsulated packet, as in RFC 768,
    as `parse_udp_hdr` reads it: 4 fields, 64 bits in all. */
module Udp {
  import opened Options
  import opened Bits
  import opened ByteString
  import opened BitCursor
  import opened HeaderFields

  /** The bits the header spans: eight per byte of `UDP_SIZE`. */
  const UDP_BITS: nat := BYTE_SIZE * UDP_SIZE

  /** Field widths in bits: srcPort 16, dstPort 16, length 16, checksum 16. */
  datatype UdpHeader = UdpHeader(
    srcPort: nat, dstPort: nat, length: nat, checksum: nat)

  /** Every field fits its width, as every decoded field does. */
  predicate UdpFits(h: UdpHeader) {
    h.srcPort < Pow2(16) && h.dstPort < Pow2(16) && h.length < Pow2(16) && h.checksum < Pow2(16)
  }

  /** Lays the fields out again, most significant bit first, in decoding order. */
  function EncodeUdp(h: UdpHeader): (r: string)
    ensures |r| == UDP_BITS && IsBinary(r)
  {
    Encode(h.srcPort, 16) + Encode(h.dstPort, 16) + Encode(h.length, 16) +
    Encode(h.checksum, 16)
  }

  /** The field reads of `parse_udp_hdr`, in order, with the bit index starting at 0;
      the first read that fails ends decoding. */
  function DecodeUdp(binStr: string): Option<Decoded<UdpHeader>> {
    var srcPort :- Bin2Int(binStr, 0, 16);
    var dstPort :- Bin2Int(binStr, srcPort.next, 16);
    var length :- Bin2Int(binStr, dstPort.next, 16);
    var checksum :- Bin2Int(binStr, length.next, 16);
    Some(Decoded(
      UdpHeader(srcPort.value, dstPort.value, length.value, checksum.value),
      checksum.next))
  }

  /** The header whose fields are the numbers spelled by bit ranges of `s`. */
  function UdpAt(s: string): UdpHeader
    requires |s| >= UDP_BITS
  {
    UdpHeader(Field(s, 0, 16), Field(s, 16, 16), Field(s, 32, 16), Field(s, 48, 16))
  }

  /** Field layout: on a binary string that holds the whole header, every read
      succeeds, field k is the value of its own bit range, and the bit index
      ends at UDP_BITS. */
  lemma DecodeUdpAt(s: string)
    requires IsBinary(s) && |s| >= UDP_BITS
    ensures DecodeUdp(s) == Some(Decoded(UdpAt(s), UDP_BITS))
  {
    ReadAt(s, 0, 16); ReadAt(s, 16, 16); ReadAt(s, 32, 16); ReadAt(s, 48, 16);
  }

  /** A string shorter than the header makes some read overrun, so decoding fails. */
  lemma DecodeUdpShort(s: string)
    requires IsBinary(s) && |s| < UDP_BITS
    ensures DecodeUdp(s) == None
  {
    if |s| < 16 {
    } else if |s| < 32 {
      ReadFits(s, 0, 16);
    } else if |s| < 48 {
      ReadFits(s, 0, 16); ReadFits(s, 16, 16);
    } else {
      ReadFits(s, 0, 16); ReadFits(s, 16, 16); ReadFits(s, 32, 16);
    }
  }

  /** Re-encoding the fields read from a binary string gives back its first 64 bits. */
  lemma UdpAtLossless(s: string)
    requires IsBinary(s) && |s| >= UDP_BITS
    ensures UdpFits(UdpAt(s)) && EncodeUdp(UdpAt(s)) == s[..UDP_BITS]
  {
    var h := UdpAt(s);
    FieldBits(s, 0, 16);
    FieldBits(s, 16, 16);
    Adjacent(s, 0, 16, 32);
    assert Encode(h.srcPort, 16) + Encode(h.dstPort, 16)
        == s[0..32];
    FieldBits(s, 32, 16);
    Adjacent(s, 0, 32, 48);
    assert Encode(h.srcPort, 16) + Encode(h.dstPort, 16) + Encode(h.length, 16)
        == s[0..48];
    FieldBits(s, 48, 16);
    Adjacent(s, 0, 48, 64);
  }

  /** Reading back the bit ranges of an encoded header gives its fields. */
  lemma UdpAtEncode(h: UdpHeader)
    requires UdpFits(h)
    ensures UdpAt(EncodeUdp(h)) == h
  {
    var p1 := Encode(h.srcPort, 16);
    FieldAtEnd([], h.srcPort, 16);
    assert [] + p1 == p1;
    var p2 := p1 + Encode(h.dstPort, 16);
    FieldAtEnd(p1, h.dstPort, 16);
    FieldsOfAppend(p1, Encode(h.dstPort, 16));
    var p3 := p2 + Encode(h.length, 16);
    FieldAtEnd(p2, h.length, 16);
    FieldsOfAppend(p2, Encode(h.length, 16));
    var p4 := p3 + Encode(h.checksum, 16);
    FieldAtEnd(p3, h.checksum, 16);
    FieldsOfAppend(p3, Encode(h.checksum, 16));
  }

  /** The decoder fails exactly when the string is shorter than the header's
      64 bits: the field widths add up to the span, so no read overruns a full
      span and the bit index ends exactly at its end. What it decodes is lossless. */
  lemma DecodeUdpSpec(s: string)
    requires IsBinary(s)
    ensures DecodeUdp(s).Some? <==> |s| >= UDP_BITS
    ensures DecodeUdp(s).Some? ==>
              var d := DecodeUdp(s).value;
              d.hdrIdx == UDP_BITS && UdpFits(d.header) && EncodeUdp(d.header) == s[..UDP_BITS]
  {
    if |s| >= UDP_BITS {
      DecodeUdpAt(s);
      UdpAtLossless(s);
    } else {
      DecodeUdpShort(s);
    }
  }

  /** Decoding inverts encoding for every header whose fields fit their widths. */
  lemma UdpRoundTrip(h: UdpHeader)
    requires UdpFits(h)
    ensures DecodeUdp(EncodeUdp(h)) == Some(Decoded(h, UDP_BITS))
  {
    UdpAtEncode(h);
    DecodeUdpAt(EncodeUdp(h));
  }
}
