/** The bit cursor `bin2int`: read `len` bits of a bit string starting at `bin_idx`
    as an unsigned big-endian number and return it with the index moved past them. */
module BitCursor {
  import opened Options
  import opened Bits

  /** Python's slice `s[lo:hi]` for non-negative bounds: both bounds are clamped to
      the length, so it never fails and comes back short near the end. */
  function PySlice<T>(s: seq<T>, lo: nat, hi: nat): (r: seq<T>)
    ensures |r| == if lo <= hi && lo <= |s| then (if hi <= |s| then hi else |s|) - lo else 0
    ensures forall k :: 0 <= k < |r| ==> r[k] == s[lo + k]
  {
    var h := if hi < |s| then hi else |s|;
    var l := if lo < h then lo else h;
    s[l..h]
  }

  /** Python's `int(b, 2)` on the strings `bytes2bin` produces: the empty string
      raises, which is `None` here; characters other than '0'/'1', which
      `bytes2bin` never produces, are not modelled. */
  function IntBase2(b: string): (r: Option<nat>)
    ensures r.Some? <==> b != [] && IsBinary(b)
    ensures r.Some? ==> r.value < Pow2(|b|) && Encode(r.value, |b|) == b
  {
    if b == [] || !IsBinary(b) then None
    else
      EncodeOfValue(b);
      Some(Value(b))
  }

  /** The pair `bin2int` returns: the field's value and the advanced index. */
  datatype Read = Read(value: nat, next: nat)

  /** `bin2int` as the source writes it. The slice is silently cut short at the
      end of the string; only an empty slice makes `int` raise. */
  function Bin2IntAsWritten(binStr: string, binIdx: nat, len: nat): (r: Option<Read>)
    ensures r.Some? <==> 0 < len && binIdx < |binStr|
                         && IsBinary(PySlice(binStr, binIdx, binIdx + len))
    ensures r.Some? ==> r.value.next == binIdx + len
  {
    var b := PySlice(binStr, binIdx, binIdx + len);
    var value :- IntBase2(b);
    Some(Read(value, binIdx + len))
  }

  /** The bit cursor read the rest of the model uses: `bin2int` with a buffer
      underrun check, so a read that does not fit fails instead of returning a
      value made of fewer bits. */
  function Bin2Int(binStr: string, binIdx: nat, len: nat): (r: Option<Read>)
    ensures r.Some? <==> 0 < len && binIdx + len <= |binStr|
                         && IsBinary(binStr[binIdx..binIdx + len])
    ensures r.Some? ==> r.value.next == binIdx + len <= |binStr|
  {
    if binIdx + len > |binStr| then None
    else
      assert PySlice(binStr, binIdx, binIdx + len) == binStr[binIdx..binIdx + len];
      Bin2IntAsWritten(binStr, binIdx, len)
  }

  /** A read that succeeds returns the number its bits spell, which fits in `len`
      bits, and on a read that fits it agrees with `bin2int` as written. */
  lemma Bin2IntValue(binStr: string, binIdx: nat, len: nat)
    ensures Bin2Int(binStr, binIdx, len).Some? ==>
              var v := Bin2Int(binStr, binIdx, len).value.value;
              v < Pow2(len) && Encode(v, len) == binStr[binIdx..binIdx + len]
    ensures binIdx + len <= |binStr| ==> Bin2Int(binStr, binIdx, len) == Bin2IntAsWritten(binStr, binIdx, len)
  {
    if binIdx + len <= |binStr| {
      assert PySlice(binStr, binIdx, binIdx + len) == binStr[binIdx..binIdx + len];
    }
  }

  /** As written, a read that starts inside a binary string succeeds, however few
      bits are left, and advances the index by `len`. */
  lemma AsWrittenReadStarts(binStr: string, binIdx: nat, len: nat)
    requires IsBinary(binStr) && 0 < len && binIdx < |binStr|
    ensures Bin2IntAsWritten(binStr, binIdx, len).Some?
    ensures Bin2IntAsWritten(binStr, binIdx, len).value.next == binIdx + len
  {
    var b := PySlice(binStr, binIdx, binIdx + len);
    assert forall k :: 0 <= k < |b| ==> IsBit(b[k]) by {
      forall k | 0 <= k < |b| ensures IsBit(b[k]) {
        assert b[k] == binStr[binIdx + k];
      }
    }
  }

  /** Reading a `w`-bit field written at the cursor gives the written number back,
      whatever surrounds it. */
  lemma ReadEncoded(pre: string, v: nat, w: nat, post: string)
    requires 0 < w && v < Pow2(w)
    ensures Bin2Int(pre + Encode(v, w) + post, |pre|, w) == Some(Read(v, |pre| + w))
  {
    var s := pre + Encode(v, w) + post;
    assert s[|pre|..|pre| + w] == Encode(v, w);
    ValueOfEncode(v, w);
  }

  /** As written, a read that runs past the end of a binary string still succeeds
      when at least one bit is left: its value is that of the bits that are there
      and the index it returns lies beyond the string. */
  lemma AsWrittenReadOverruns(binStr: string, binIdx: nat, len: nat)
    requires IsBinary(binStr) && binIdx < |binStr| < binIdx + len
    ensures Bin2IntAsWritten(binStr, binIdx, len) == Some(Read(Value(binStr[binIdx..]), binIdx + len))
    ensures Bin2Int(binStr, binIdx, len) == None
  {
    assert PySlice(binStr, binIdx, binIdx + len) == binStr[binIdx..];
  }

  /** The report header's last field (32 bits at bit 96) read from a 15-byte span:
      as written, a value and index 128 come back from a 120-bit string. */
  lemma AsWrittenShortReportField()
    ensures Bin2IntAsWritten(Zeros(120), 96, 32) == Some(Read(0, 128))
    ensures Bin2Int(Zeros(120), 96, 32) == None
  {
    var s := Zeros(120);
    AsWrittenReadOverruns(s, 96, 32);
    EncodeZero(24);
    assert s[96..] == Zeros(24);
    ValueOfEncode(0, 24);
  }
}
