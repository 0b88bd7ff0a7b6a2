/** The INT shim header,
    as `parse_int_shim_hdr` reads it: 5 fields, 32 bits in all. */
module IntShim {
  import opened Options
  import opened Bits
  import opened ByteString
  import opened BitCursor
  import opened HeaderFields

  /** The bits the header spans: eight per byte of `INT_SHIM_SIZE`. */
  const SHIM_BITS: nat := BYTE_SIZE * INT_SHIM_SIZE

  /** Field widths in bits: intType 8, rsvd1 8, length 8, dscp 6, rsvd2 2. */
  datatype ShimHeader = ShimHeader(
    intType: nat, rsvd1: nat, length: nat, dscp: nat, rsvd2: nat)

  /** Every field fits its width, as every decoded field does. */
  predicate ShimFits(h: ShimHeader) {
    h.intType < Pow2(8) && h.rsvd1 < Pow2(8) && h.length < Pow2(8) && h.dscp < Pow2(6) &&
    h.rsvd2 < Pow2(2)
  }

  /** Lays the fields out again, most significant bit first, in decoding order. */
  function EncodeShim(h: ShimHeader): (r: string)
    ensures |r| == SHIM_BITS && IsBinary(r)
  {
    Encode(h.intType, 8) + Encode(h.rsvd1, 8) + Encode(h.length, 8) + Encode(h.dscp, 6) +
    Encode(h.rsvd2, 2)
  }

  /** The field reads of `parse_int_shim_hdr`, in order, with the bit index starting at 0;
      the first read that fails ends decoding. */
  function DecodeShim(binStr: string): Option<Decoded<ShimHeader>> {
    var intType :- Bin2Int(binStr, 0, 8);
    var rsvd1 :- Bin2Int(binStr, intType.next, 8);
    var length :- Bin2Int(binStr, rsvd1.next, 8);
    var dscp :- Bin2Int(binStr, length.next, 6);
    var rsvd2 :- Bin2Int(binStr, dscp.next, 2);
    Some(Decoded(
      ShimHeader(intType.value, rsvd1.value, length.value, dscp.value, rsvd2.value),
      rsvd2.next))
  }

  /** The header whose fields are the numbers spelled by bit ranges of `s`. */
  function ShimAt(s: string): ShimHeader
    requires |s| >= SHIM_BITS
  {
    ShimHeader(Field(s, 0, 8), Field(s, 8, 8), Field(s, 16, 8), Field(s, 24, 6), Field(s, 30, 2))
  }

  /** Field layout: on a binary string that holds the whole header, every read
      succeeds, field k is the value of its own bit range, and the bit index
      ends at SHIM_BITS. */
  lemma DecodeShimAt(s: string)
    requires IsBinary(s) && |s| >= SHIM_BITS
    ensures DecodeShim(s) == Some(Decoded(ShimAt(s), SHIM_BITS))
  {
    ReadAt(s, 0, 8); ReadAt(s, 8, 8); ReadAt(s, 16, 8); ReadAt(s, 24, 6); ReadAt(s, 30, 2);
  }

  /** A string shorter than the header makes some read overrun, so decoding fails. */
  lemma DecodeShimShort(s: string)
    requires IsBinary(s) && |s| < SHIM_BITS
    ensures DecodeShim(s) == None
  {
    if |s| < 8 {
    } else if |s| < 16 {
      ReadFits(s, 0, 8);
    } else if |s| < 24 {
      ReadFits(s, 0, 8); ReadFits(s, 8, 8);
    } else if |s| < 30 {
      ReadFits(s, 0, 8); ReadFits(s, 8, 8); ReadFits(s, 16, 8);
    } else {
      ReadFits(s, 0, 8); ReadFits(s, 8, 8); ReadFits(s, 16, 8); ReadFits(s, 24, 6);
    }
  }

  /** Re-encoding the fields read from a binary string gives back its first 32 bits. */
  lemma ShimAtLossless(s: string)
    requires IsBinary(s) && |s| >= SHIM_BITS
    ensures ShimFits(ShimAt(s)) && EncodeShim(ShimAt(s)) == s[..SHIM_BITS]
  {
    var h := ShimAt(s);
    FieldBits(s, 0, 8);
    FieldBits(s, 8, 8);
    Adjacent(s, 0, 8, 16);
    assert Encode(h.intType, 8) + Encode(h.rsvd1, 8)
        == s[0..16];
    FieldBits(s, 16, 8);
    Adjacent(s, 0, 16, 24);
    assert Encode(h.intType, 8) + Encode(h.rsvd1, 8) + Encode(h.length, 8)
        == s[0..24];
    FieldBits(s, 24, 6);
    Adjacent(s, 0, 24, 30);
    assert Encode(h.intType, 8) + Encode(h.rsvd1, 8) + Encode(h.length, 8) + Encode(h.dscp, 6)
        == s[0..30];
    FieldBits(s, 30, 2);
    Adjacent(s, 0, 30, 32);
  }

  /** Reading back the bit ranges of an encoded header gives its fields. */
  lemma ShimAtEncode(h: ShimHeader)
    requires ShimFits(h)
    ensures ShimAt(EncodeShim(h)) == h
  {
    var p1 := Encode(h.intType, 8);
    FieldAtEnd([], h.intType, 8);
    assert [] + p1 == p1;
    var p2 := p1 + Encode(h.rsvd1, 8);
    FieldAtEnd(p1, h.rsvd1, 8);
    FieldsOfAppend(p1, Encode(h.rsvd1, 8));
    var p3 := p2 + Encode(h.length, 8);
    FieldAtEnd(p2, h.length, 8);
    FieldsOfAppend(p2, Encode(h.length, 8));
    var p4 := p3 + Encode(h.dscp, 6);
    FieldAtEnd(p3, h.dscp, 6);
    FieldsOfAppend(p3, Encode(h.dscp, 6));
    var p5 := p4 + Encode(h.rsvd2, 2);
    FieldAtEnd(p4, h.rsvd2, 2);
    FieldsOfAppend(p4, Encode(h.rsvd2, 2));
  }

  /** The decoder fails exactly when the string is shorter than the header's
      32 bits: the field widths add up to the span, so no read overruns a full
      span and the bit index ends exactly at its end. What it decodes is lossless. */
  lemma DecodeShimSpec(s: string)
    requires IsBinary(s)
    ensures DecodeShim(s).Some? <==> |s| >= SHIM_BITS
    ensures DecodeShim(s).Some? ==>
              var d := DecodeShim(s).value;
              d.hdrIdx == SHIM_BITS && ShimFits(d.header) && EncodeShim(d.header) == s[..SHIM_BITS]
  {
    if |s| >= SHIM_BITS {
      DecodeShimAt(s);
      ShimAtLossless(s);
    } else {
      DecodeShimShort(s);
    }
  }

  /** Decoding inverts encoding for every header whose fields fit their widths. */
  lemma ShimRoundTrip(h: ShimHeader)
    requires ShimFits(h)
    ensures DecodeShim(EncodeShim(h)) == Some(Decoded(h, SHIM_BITS))
  {
    ShimAtEncode(h);
    DecodeShimAt(EncodeShim(h));
  }
}
