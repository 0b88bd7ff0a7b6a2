/** The IPv4 header of the encapsulated packet, laid out as in section 3.1 of RFC 791 with the type-of-service octet split into DSCP (RFC 2474) and ECN (RFC 3168),
    as `parse_ipv4_hdr` reads it: 13 fields, 160 bits in all. */
module Ipv4 {
  import opened Options
  import opened Bits
  import opened ByteString
  import opened BitCursor
  import opened HeaderFields

  /** The bits the header spans: eight per byte of `IP_SIZE`. */
  const IPV4_BITS: nat := BYTE_SIZE * IP_SIZE

  /** Field widths in bits: version 4, ihl 4, dscp 6, ecn 2, length 16, identification 16, flags 3, fragOffset 13, ttl 8, protocol 8, hdrChecksum 16, srcAddr 32, dstAddr 32. */
  datatype Ipv4Header = Ipv4Header(
    version: nat, ihl: nat, dscp: nat, ecn: nat, length: nat, identification: nat, flags: nat,
    fragOffset: nat, ttl: nat, protocol: nat, hdrChecksum: nat, srcAddr: nat, dstAddr: nat)

  /** Every field fits its width, as every decoded field does. */
  predicate Ipv4Fits(h: Ipv4Header) {
    h.version < Pow2(4) && h.ihl < Pow2(4) && h.dscp < Pow2(6) && h.ecn < Pow2(2) &&
    h.length < Pow2(16) && h.identification < Pow2(16) && h.flags < Pow2(3) &&
    h.fragOffset < Pow2(13) && h.ttl < Pow2(8) && h.protocol < Pow2(8) &&
    h.hdrChecksum < Pow2(16) && h.srcAddr < Pow2(32) && h.dstAddr < Pow2(32)
  }

  /** Lays the fields out again, most significant bit first, in decoding order. */
  function EncodeIpv4(h: Ipv4Header): (r: string)
    ensures |r| == IPV4_BITS && IsBinary(r)
  {
    Encode(h.version, 4) + Encode(h.ihl, 4) + Encode(h.dscp, 6) + Encode(h.ecn, 2) +
    Encode(h.length, 16) + Encode(h.identification, 16) + Encode(h.flags, 3) +
    Encode(h.fragOffset, 13) + Encode(h.ttl, 8) + Encode(h.protocol, 8) +
    Encode(h.hdrChecksum, 16) + Encode(h.srcAddr, 32) + Encode(h.dstAddr, 32)
  }

  /** The field reads of `parse_ipv4_hdr`, in order, with the bit index starting at 0;
      the first read that fails ends decoding. */
  function DecodeIpv4(binStr: string): Option<Decoded<Ipv4Header>> {
    var version :- Bin2Int(binStr, 0, 4);
    var ihl :- Bin2Int(binStr, version.next, 4);
    var dscp :- Bin2Int(binStr, ihl.next, 6);
    var ecn :- Bin2Int(binStr, dscp.next, 2);
    var length :- Bin2Int(binStr, ecn.next, 16);
    var identification :- Bin2Int(binStr, length.next, 16);
    var flags :- Bin2Int(binStr, identification.next, 3);
    var fragOffset :- Bin2Int(binStr, flags.next, 13);
    var ttl :- Bin2Int(binStr, fragOffset.next, 8);
    var protocol :- Bin2Int(binStr, ttl.next, 8);
    var hdrChecksum :- Bin2Int(binStr, protocol.next, 16);
    var srcAddr :- Bin2Int(binStr, hdrChecksum.next, 32);
    var dstAddr :- Bin2Int(binStr, srcAddr.next, 32);
    Some(Decoded(
      Ipv4Header(version.value, ihl.value, dscp.value, ecn.value, length.value,
                 identification.value, flags.value, fragOffset.value, ttl.value,
                 protocol.value, hdrChecksum.value, srcAddr.value, dstAddr.value),
      dstAddr.next))
  }

  /** The header whose fields are the numbers spelled by bit ranges of `s`. */
  function Ipv4At(s: string): Ipv4Header
    requires |s| >= IPV4_BITS
  {
    Ipv4Header(Field(s, 0, 4), Field(s, 4, 4), Field(s, 8, 6), Field(s, 14, 2),
               Field(s, 16, 16), Field(s, 32, 16), Field(s, 48, 3), Field(s, 51, 13),
               Field(s, 64, 8), Field(s, 72, 8), Field(s, 80, 16), Field(s, 96, 32),
               Field(s, 128, 32))
  }

  /** Field layout: on a binary string that holds the whole header, every read
      succeeds, field k is the value of its own bit range, and the bit index
      ends at IPV4_BITS. */
  lemma DecodeIpv4At(s: string)
    requires IsBinary(s) && |s| >= IPV4_BITS
    ensures DecodeIpv4(s) == Some(Decoded(Ipv4At(s), IPV4_BITS))
  {
    ReadAt(s, 0, 4); ReadAt(s, 4, 4); ReadAt(s, 8, 6); ReadAt(s, 14, 2); ReadAt(s, 16, 16);
    ReadAt(s, 32, 16); ReadAt(s, 48, 3); ReadAt(s, 51, 13); ReadAt(s, 64, 8); ReadAt(s, 72, 8);
    ReadAt(s, 80, 16); ReadAt(s, 96, 32); ReadAt(s, 128, 32);
  }

  /** A string shorter than the header makes some read overrun, so decoding fails. */
  lemma DecodeIpv4Short(s: string)
    requires IsBinary(s) && |s| < IPV4_BITS
    ensures DecodeIpv4(s) == None
  {
    if |s| < 4 {
    } else if |s| < 8 {
      ReadFits(s, 0, 4);
    } else if |s| < 14 {
      ReadFits(s, 0, 4); ReadFits(s, 4, 4);
    } else if |s| < 16 {
      ReadFits(s, 0, 4); ReadFits(s, 4, 4); ReadFits(s, 8, 6);
    } else if |s| < 32 {
      ReadFits(s, 0, 4); ReadFits(s, 4, 4); ReadFits(s, 8, 6); ReadFits(s, 14, 2);
    } else if |s| < 48 {
      ReadFits(s, 0, 4); ReadFits(s, 4, 4); ReadFits(s, 8, 6); ReadFits(s, 14, 2);
      ReadFits(s, 16, 16);
    } else if |s| < 51 {
      ReadFits(s, 0, 4); ReadFits(s, 4, 4); ReadFits(s, 8, 6); ReadFits(s, 14, 2);
      ReadFits(s, 16, 16); ReadFits(s, 32, 16);
    } else if |s| < 64 {
      ReadFits(s, 0, 4); ReadFits(s, 4, 4); ReadFits(s, 8, 6); ReadFits(s, 14, 2);
      ReadFits(s, 16, 16); ReadFits(s, 32, 16); ReadFits(s, 48, 3);
    } else if |s| < 72 {
      ReadFits(s, 0, 4); ReadFits(s, 4, 4); ReadFits(s, 8, 6); ReadFits(s, 14, 2);
      ReadFits(s, 16, 16); ReadFits(s, 32, 16); ReadFits(s, 48, 3); ReadFits(s, 51, 13);
    } else if |s| < 80 {
      ReadFits(s, 0, 4); ReadFits(s, 4, 4); ReadFits(s, 8, 6); ReadFits(s, 14, 2);
      ReadFits(s, 16, 16); ReadFits(s, 32, 16); ReadFits(s, 48, 3); ReadFits(s, 51, 13);
      ReadFits(s, 64, 8);
    } else if |s| < 96 {
      ReadFits(s, 0, 4); ReadFits(s, 4, 4); ReadFits(s, 8, 6); ReadFits(s, 14, 2);
      ReadFits(s, 16, 16); ReadFits(s, 32, 16); ReadFits(s, 48, 3); ReadFits(s, 51, 13);
      ReadFits(s, 64, 8); ReadFits(s, 72, 8);
    } else if |s| < 128 {
      ReadFits(s, 0, 4); ReadFits(s, 4, 4); ReadFits(s, 8, 6); ReadFits(s, 14, 2);
      ReadFits(s, 16, 16); ReadFits(s, 32, 16); ReadFits(s, 48, 3); ReadFits(s, 51, 13);
      ReadFits(s, 64, 8); ReadFits(s, 72, 8); ReadFits(s, 80, 16);
    } else {
      ReadFits(s, 0, 4); ReadFits(s, 4, 4); ReadFits(s, 8, 6); ReadFits(s, 14, 2);
      ReadFits(s, 16, 16); ReadFits(s, 32, 16); ReadFits(s, 48, 3); ReadFits(s, 51, 13);
      ReadFits(s, 64, 8); ReadFits(s, 72, 8); ReadFits(s, 80, 16); ReadFits(s, 96, 32);
    }
  }

  /** Re-encoding the fields read from a binary string gives back its first 160 bits. */
  lemma Ipv4AtLossless(s: string)
    requires IsBinary(s) && |s| >= IPV4_BITS
    ensures Ipv4Fits(Ipv4At(s)) && EncodeIpv4(Ipv4At(s)) == s[..IPV4_BITS]
  {
    var h := Ipv4At(s);
    FieldBits(s, 0, 4);
    FieldBits(s, 4, 4);
    Adjacent(s, 0, 4, 8);
    assert Encode(h.version, 4) + Encode(h.ihl, 4)
        == s[0..8];
    FieldBits(s, 8, 6);
    Adjacent(s, 0, 8, 14);
    assert Encode(h.version, 4) + Encode(h.ihl, 4) + Encode(h.dscp, 6)
        == s[0..14];
    FieldBits(s, 14, 2);
    Adjacent(s, 0, 14, 16);
    assert Encode(h.version, 4) + Encode(h.ihl, 4) + Encode(h.dscp, 6) + Encode(h.ecn, 2)
        == s[0..16];
    FieldBits(s, 16, 16);
    Adjacent(s, 0, 16, 32);
    assert Encode(h.version, 4) + Encode(h.ihl, 4) + Encode(h.dscp, 6) + Encode(h.ecn, 2) + Encode(h.length, 16)
        == s[0..32];
    FieldBits(s, 32, 16);
    Adjacent(s, 0, 32, 48);
    assert Encode(h.version, 4) + Encode(h.ihl, 4) + Encode(h.dscp, 6) + Encode(h.ecn, 2) + Encode(h.length, 16) + Encode(h.identification, 16)
        == s[0..48];
    FieldBits(s, 48, 3);
    Adjacent(s, 0, 48, 51);
    assert Encode(h.version, 4) + Encode(h.ihl, 4) + Encode(h.dscp, 6) + Encode(h.ecn, 2) + Encode(h.length, 16) + Encode(h.identification, 16) + Encode(h.flags, 3)
        == s[0..51];
    FieldBits(s, 51, 13);
    Adjacent(s, 0, 51, 64);
    assert Encode(h.version, 4) + Encode(h.ihl, 4) + Encode(h.dscp, 6) + Encode(h.ecn, 2) + Encode(h.length, 16) + Encode(h.identification, 16) + Encode(h.flags, 3) + Encode(h.fragOffset, 13)
        == s[0..64];
    FieldBits(s, 64, 8);
    Adjacent(s, 0, 64, 72);
    assert Encode(h.version, 4) + Encode(h.ihl, 4) + Encode(h.dscp, 6) + Encode(h.ecn, 2) + Encode(h.length, 16) + Encode(h.identification, 16) + Encode(h.flags, 3) + Encode(h.fragOffset, 13) + Encode(h.ttl, 8)
        == s[0..72];
    FieldBits(s, 72, 8);
    Adjacent(s, 0, 72, 80);
    assert Encode(h.version, 4) + Encode(h.ihl, 4) + Encode(h.dscp, 6) + Encode(h.ecn, 2) + Encode(h.length, 16) + Encode(h.identification, 16) + Encode(h.flags, 3) + Encode(h.fragOffset, 13) + Encode(h.ttl, 8) + Encode(h.protocol, 8)
        == s[0..80];
    FieldBits(s, 80, 16);
    Adjacent(s, 0, 80, 96);
    assert Encode(h.version, 4) + Encode(h.ihl, 4) + Encode(h.dscp, 6) + Encode(h.ecn, 2) + Encode(h.length, 16) + Encode(h.identification, 16) + Encode(h.flags, 3) + Encode(h.fragOffset, 13) + Encode(h.ttl, 8) + Encode(h.protocol, 8) + Encode(h.hdrChecksum, 16)
        == s[0..96];
    FieldBits(s, 96, 32);
    Adjacent(s, 0, 96, 128);
    assert Encode(h.version, 4) + Encode(h.ihl, 4) + Encode(h.dscp, 6) + Encode(h.ecn, 2) + Encode(h.length, 16) + Encode(h.identification, 16) + Encode(h.flags, 3) + Encode(h.fragOffset, 13) + Encode(h.ttl, 8) + Encode(h.protocol, 8) + Encode(h.hdrChecksum, 16) + Encode(h.srcAddr, 32)
        == s[0..128];
    FieldBits(s, 128, 32);
    Adjacent(s, 0, 128, 160);
  }

  /** Reading back the bit ranges of an encoded header gives its fields. */
  lemma Ipv4AtEncode(h: Ipv4Header)
    requires Ipv4Fits(h)
    ensures Ipv4At(EncodeIpv4(h)) == h
  {
    var p1 := Encode(h.version, 4);
    FieldAtEnd([], h.version, 4);
    assert [] + p1 == p1;
    var p2 := p1 + Encode(h.ihl, 4);
    FieldAtEnd(p1, h.ihl, 4);
    FieldsOfAppend(p1, Encode(h.ihl, 4));
    var p3 := p2 + Encode(h.dscp, 6);
    FieldAtEnd(p2, h.dscp, 6);
    FieldsOfAppend(p2, Encode(h.dscp, 6));
    var p4 := p3 + Encode(h.ecn, 2);
    FieldAtEnd(p3, h.ecn, 2);
    FieldsOfAppend(p3, Encode(h.ecn, 2));
    var p5 := p4 + Encode(h.length, 16);
    FieldAtEnd(p4, h.length, 16);
    FieldsOfAppend(p4, Encode(h.length, 16));
    var p6 := p5 + Encode(h.identification, 16);
    FieldAtEnd(p5, h.identification, 16);
    FieldsOfAppend(p5, Encode(h.identification, 16));
    var p7 := p6 + Encode(h.flags, 3);
    FieldAtEnd(p6, h.flags, 3);
    FieldsOfAppend(p6, Encode(h.flags, 3));
    var p8 := p7 + Encode(h.fragOffset, 13);
    FieldAtEnd(p7, h.fragOffset, 13);
    FieldsOfAppend(p7, Encode(h.fragOffset, 13));
    var p9 := p8 + Encode(h.ttl, 8);
    FieldAtEnd(p8, h.ttl, 8);
    FieldsOfAppend(p8, Encode(h.ttl, 8));
    var p10 := p9 + Encode(h.protocol, 8);
    FieldAtEnd(p9, h.protocol, 8);
    FieldsOfAppend(p9, Encode(h.protocol, 8));
    var p11 := p10 + Encode(h.hdrChecksum, 16);
    FieldAtEnd(p10, h.hdrChecksum, 16);
    FieldsOfAppend(p10, Encode(h.hdrChecksum, 16));
    var p12 := p11 + Encode(h.srcAddr, 32);
    FieldAtEnd(p11, h.srcAddr, 32);
    FieldsOfAppend(p11, Encode(h.srcAddr, 32));
    var p13 := p12 + Encode(h.dstAddr, 32);
    FieldAtEnd(p12, h.dstAddr, 32);
    FieldsOfAppend(p12, Encode(h.dstAddr, 32));
  }

  /** The decoder fails exactly when the string is shorter than the header's
      160 bits: the field widths add up to the span, so no read overruns a full
      span and the bit index ends exactly at its end. What it decodes is lossless. */
  lemma DecodeIpv4Spec(s: string)
    requires IsBinary(s)
    ensures DecodeIpv4(s).Some? <==> |s| >= IPV4_BITS
    ensures DecodeIpv4(s).Some? ==>
              var d := DecodeIpv4(s).value;
              d.hdrIdx == IPV4_BITS && Ipv4Fits(d.header) && EncodeIpv4(d.header) == s[..IPV4_BITS]
  {
    if |s| >= IPV4_BITS {
      DecodeIpv4At(s);
      Ipv4AtLossless(s);
    } else {
      DecodeIpv4Short(s);
    }
  }

  /** Decoding inverts encoding for every header whose fields fit their widths. */
  lemma Ipv4RoundTrip(h: Ipv4Header)
    requires Ipv4Fits(h)
    ensures DecodeIpv4(EncodeIpv4(h)) == Some(Decoded(h, IPV4_BITS))
  {
    Ipv4AtEncode(h);
    DecodeIpv4At(EncodeIpv4(h));
  }
}
