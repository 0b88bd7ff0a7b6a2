/** The Ethernet II header of the encapsulated packet (`ethernet_t`),
    as `parse_ethernet_hdr` reads it: 3 fields, 112 bits in all. */
module Ethernet {
  import opened Options
  import opened Bits
  import opened ByteString
  import opened BitCursor
  import opened HeaderFields

  /** The bits the header spans: eight per byte of `ETH_SIZE`. */
  const ETHERNET_BITS: nat := BYTE_SIZE * ETH_SIZE

  /** Field widths in bits: dstAddr 48, srcAddr 48, etherType 16. */
  datatype EthernetHeader = EthernetHeader(
    dstAddr: nat, srcAddr: nat, etherType: nat)

  /** Every field fits its width, as every decoded field does. */
  predicate EthernetFits(h: EthernetHeader) {
    h.dstAddr < Pow2(48) && h.srcAddr < Pow2(48) && h.etherType < Pow2(16)
  }

  /** Lays the fields out again, most significant bit first, in decoding order. */
  function EncodeEthernet(h: EthernetHeader): (r: string)
    ensures |r| == ETHERNET_BITS && IsBinary(r)
  {
    Encode(h.dstAddr, 48) + Encode(h.srcAddr, 48) + Encode(h.etherType, 16)
  }

  /** The field reads of `parse_ethernet_hdr`, in order, with the bit index starting at 0;
      the first read that fails ends decoding. */
  function DecodeEthernet(binStr: string): Option<Decoded<EthernetHeader>> {
    var dstAddr :- Bin2Int(binStr, 0, 48);
    var srcAddr :- Bin2Int(binStr, dstAddr.next, 48);
    var etherType :- Bin2Int(binStr, srcAddr.next, 16);
    Some(Decoded(
      EthernetHeader(dstAddr.value, srcAddr.value, etherType.value),
      etherType.next))
  }

  /** The header whose fields are the numbers spelled by bit ranges of `s`. */
  function EthernetAt(s: string): EthernetHeader
    requires |s| >= ETHERNET_BITS
  {
    EthernetHeader(Field(s, 0, 48), Field(s, 48, 48), Field(s, 96, 16))
  }

  /** Field layout: on a binary string that holds the whole header, every read
      succeeds, field k is the value of its own bit range, and the bit index
      ends at ETHERNET_BITS. */
  lemma DecodeEthernetAt(s: string)
    requires IsBinary(s) && |s| >= ETHERNET_BITS
    ensures DecodeEthernet(s) == Some(Decoded(EthernetAt(s), ETHERNET_BITS))
  {
    ReadAt(s, 0, 48); ReadAt(s, 48, 48); ReadAt(s, 96, 16);
  }

  /** A string shorter than the header makes some read overrun, so decoding fails. */
  lemma DecodeEthernetShort(s: string)
    requires IsBinary(s) && |s| < ETHERNET_BITS
    ensures DecodeEthernet(s) == None
  {
    if |s| < 48 {
    } else if |s| < 96 {
      ReadFits(s, 0, 48);
    } else {
      ReadFits(s, 0, 48); ReadFits(s, 48, 48);
    }
  }

  /** Re-encoding the fields read from a binary string gives back its first 112 bits. */
  lemma EthernetAtLossless(s: string)
    requires IsBinary(s) && |s| >= ETHERNET_BITS
    ensures EthernetFits(EthernetAt(s)) && EncodeEthernet(EthernetAt(s)) == s[..ETHERNET_BITS]
  {
    var h := EthernetAt(s);
    FieldBits(s, 0, 48);
    FieldBits(s, 48, 48);
    Adjacent(s, 0, 48, 96);
    assert Encode(h.dstAddr, 48) + Encode(h.srcAddr, 48)
        == s[0..96];
    FieldBits(s, 96, 16);
    Adjacent(s, 0, 96, 112);
  }

  /** Reading back the bit ranges of an encoded header gives its fields. */
  lemma EthernetAtEncode(h: EthernetHeader)
    requires EthernetFits(h)
    ensures EthernetAt(EncodeEthernet(h)) == h
  {
    var p1 := Encode(h.dstAddr, 48);
    FieldAtEnd([], h.dstAddr, 48);
    assert [] + p1 == p1;
    var p2 := p1 + Encode(h.srcAddr, 48);
    FieldAtEnd(p1, h.srcAddr, 48);
    FieldsOfAppend(p1, Encode(h.srcAddr, 48));
    var p3 := p2 + Encode(h.etherType, 16);
    FieldAtEnd(p2, h.etherType, 16);
    FieldsOfAppend(p2, Encode(h.etherType, 16));
  }

  /** The decoder fails exactly when the string is shorter than the header's
      112 bits: the field widths add up to the span, so no read overruns a full
      span and the bit index ends exactly at its end. What it decodes is lossless. */
  lemma DecodeEthernetSpec(s: string)
    requires IsBinary(s)
    ensures DecodeEthernet(s).Some? <==> |s| >= ETHERNET_BITS
    ensures DecodeEthernet(s).Some? ==>
              var d := DecodeEthernet(s).value;
              d.hdrIdx == ETHERNET_BITS && EthernetFits(d.header) && EncodeEthernet(d.header) == s[..ETHERNET_BITS]
  {
    if |s| >= ETHERNET_BITS {
      DecodeEthernetAt(s);
      EthernetAtLossless(s);
    } else {
      DecodeEthernetShort(s);
    }
  }

  /** Decoding inverts encoding for every header whose fields fit their widths. */
  lemma EthernetRoundTrip(h: EthernetHeader)
    requires EthernetFits(h)
    ensures DecodeEthernet(EncodeEthernet(h)) == Some(Decoded(h, ETHERNET_BITS))
  {
    EthernetAtEncode(h);
    DecodeEthernetAt(EncodeEthernet(h));
  }
}
