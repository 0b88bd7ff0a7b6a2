/** What the six header decoders share: the header sizes of the report layout,
    the pair a decoder returns, and facts about one field of a bit string. */
module HeaderFields {
  import opened Options
  import opened Bits
  import opened BitCursor

  // Header sizes in bytes.
  const INT_REPORT_SIZE: nat := 16
  const ETH_SIZE: nat := 14
  const IP_SIZE: nat := 20
  const UDP_SIZE: nat := 8
  const INT_SHIM_SIZE: nat := 4
  const INT_HEADER: nat := 8

  /** A header decoded from a bit string, with the bit index after its last field. */
  datatype Decoded<H> = Decoded(header: H, hdrIdx: nat)

  /** The number spelled by the `w` bits of `s` that start at `o`. */
  function Field(s: string, o: nat, w: nat): nat
    requires o + w <= |s|
  {
    Value(s[o..o + w])
  }

  /** A read inside a binary string succeeds with the value of its bit range. */
  lemma ReadAt(s: string, o: nat, w: nat)
    requires IsBinary(s) && 0 < w && o + w <= |s|
    ensures Bin2Int(s, o, w) == Some(Read(Field(s, o, w), o + w))
  {
    assert IsBinary(s[o..o + w]);
  }

  /** A read inside a binary string succeeds and moves the index past the field.
      A lighter hint than `ReadAt`, for proofs that do not need the field's value. */
  lemma ReadFits(s: string, o: nat, w: nat)
    requires IsBinary(s) && 0 < w && o + w <= |s|
    ensures Bin2Int(s, o, w).Some? && Bin2Int(s, o, w).value.next == o + w
  {
    assert IsBinary(s[o..o + w]);
  }

  /** Re-encoding a field read from a binary string gives its bits back. */
  lemma FieldBits(s: string, o: nat, w: nat)
    requires IsBinary(s) && o + w <= |s|
    ensures Field(s, o, w) < Pow2(w) && Encode(Field(s, o, w), w) == s[o..o + w]
  {
    assert IsBinary(s[o..o + w]);
    EncodeOfValue(s[o..o + w]);
  }

  /** The field just after `p` in `p` followed by the encoding of `v` is `v`. */
  lemma FieldAtEnd(p: string, v: nat, w: nat)
    requires v < Pow2(w)
    ensures Field(p + Encode(v, w), |p|, w) == v
  {
    assert (p + Encode(v, w))[|p|..|p| + w] == Encode(v, w);
    ValueOfEncode(v, w);
  }

  /** Appending bits leaves every field of the original string as it was. */
  lemma FieldsOfAppend(a: string, b: string)
    ensures forall o: nat, w: nat :: o + w <= |a| ==> Field(a + b, o, w) == Field(a, o, w)
  {
    forall o: nat, w: nat | o + w <= |a|
      ensures Field(a + b, o, w) == Field(a, o, w)
    {
      assert (a + b)[o..o + w] == a[o..o + w];
    }
  }

  /** Two adjacent slices join into one; used to assemble a header's bits in the
      `*AtLossless` proofs. */
  lemma Adjacent(s: string, a: nat, b: nat, c: nat)
    requires a <= b <= c <= |s|
    ensures s[a..b] + s[b..c] == s[a..c]
  {
  }
}
