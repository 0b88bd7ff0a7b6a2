/** Expansion of a byte string into its bit string (`bytes2bin`), eight characters
    per byte, most significant bit first, and the packing that undoes it. */
module ByteString {
  import opened Bits

  type Byte = b: int | 0 <= b < 256

  const BYTE_SIZE: nat := 8

  /** Python's `bin(n)[2:]`: the shortest binary numeral of `n`, "0" for zero. */
  function PyBin(n: nat): (r: string)
    ensures |r| >= 1 && IsBinary(r)
    ensures n < Pow2(|r|)
  {
    if n < 2 then [Digit(n)] else PyBin(n / 2) + [Digit(n)]
  }

  /** The numeral `bin` prints reads back as `n`. */
  lemma {:induction false} PyBinValue(n: nat)
    ensures Value(PyBin(n)) == n
  {
    if n >= 2 {
      PyBinValue(n / 2);
      var p := PyBin(n / 2);
      assert (p + [Digit(n)])[..|p|] == p;
    }
  }

  /** Python's `s.rjust(width, fill)`: left padding up to `width`, never truncation. */
  function RJust(s: string, width: nat, fill: char): string {
    if |s| >= width then s else seq(width - |s|, _ => fill) + s
  }

  /** Padding keeps `s` as the suffix, reaches `width` exactly when `s` is
      shorter, and fills everything before `s` with `fill`. */
  lemma RJustPads(s: string, width: nat, fill: char)
    ensures |RJust(s, width, fill)| == if |s| >= width then |s| else width
    ensures RJust(s, width, fill)[|RJust(s, width, fill)| - |s|..] == s
    ensures forall k :: 0 <= k < |RJust(s, width, fill)| - |s| ==> RJust(s, width, fill)[k] == fill
  {
  }

  /** The shortest numeral of `n`, left-padded with zeros to any width that can
      hold `n`, is the fixed-width encoding of `n`. */
  lemma {:induction false} PyBinPadded(n: nat, w: nat)
    requires 1 <= w && n < Pow2(w)
    ensures |PyBin(n)| <= w
    ensures Zeros(w - |PyBin(n)|) + PyBin(n) == Encode(n, w)
  {
    var half := n / 2;
    assert Pow2(w) == 2 * Pow2(w - 1);
    assert half < Pow2(w - 1);
    assert Encode(n, w) == Encode(half, w - 1) + [Digit(n)];
    if n < 2 {
      assert half == 0;
      EncodeZero(w - 1);
    } else {
      assert w >= 2;
      PyBinPadded(half, w - 1);
      var p := PyBin(half);
      assert PyBin(n) == p + [Digit(n)];
      assert Zeros(w - |PyBin(n)|) == Zeros(w - 1 - |p|);
      assert Zeros(w - 1 - |p|) + PyBin(n) == (Zeros(w - 1 - |p|) + p) + [Digit(n)];
    }
  }

  /** One byte as the loop body of `bytes2bin` spells it. */
  function ByteToBin(b: Byte): string {
    RJust(PyBin(b), BYTE_SIZE, '0')
  }

  /** Each byte becomes exactly its 8-bit MSB-first encoding. */
  lemma ByteToBinIsEncode(b: Byte)
    ensures ByteToBin(b) == Encode(b, BYTE_SIZE)
  {
    assert Pow2(8) == 256;
    PyBinPadded(b, BYTE_SIZE);
    var p := PyBin(b);
    if |p| < BYTE_SIZE {
      assert seq(BYTE_SIZE - |p|, _ => '0') == Zeros(BYTE_SIZE - |p|);
    }
  }

  /** `bytes2bin`: the concatenation of the bytes' 8-character spellings. */
  function Bin(byteStr: seq<Byte>): (r: string)
    ensures |r| == BYTE_SIZE * |byteStr| && IsBinary(r)
  {
    if byteStr == [] then []
    else
      var last := byteStr[|byteStr| - 1];
      ByteToBinIsEncode(last);
      Bin(byteStr[..|byteStr| - 1]) + ByteToBin(last)
  }

  /** The loop of `bytes2bin`, appending one padded byte per iteration. */
  method BytesToBin(byteStr: seq<Byte>) returns (binaryString: string)
    ensures binaryString == Bin(byteStr)
  {
    binaryString := "";
    for i := 0 to |byteStr|
      invariant binaryString == Bin(byteStr[..i])
    {
      var b := RJust(PyBin(byteStr[i]), BYTE_SIZE, '0');
      assert byteStr[..i + 1][..i] == byteStr[..i];
      binaryString := binaryString + b;
    }
    assert byteStr[..|byteStr|] == byteStr;
  }

  /** Expansion distributes over concatenation of byte strings. */
  lemma {:induction false} BinAppend(a: seq<Byte>, b: seq<Byte>)
    ensures Bin(a + b) == Bin(a) + Bin(b)
  {
    if b == [] {
      assert a + b == a;
    } else {
      var init := b[..|b| - 1];
      assert (a + b)[..|a + b| - 1] == a + init;
      BinAppend(a, init);
    }
  }

  /** A single byte expands to its 8-bit encoding. */
  lemma BinOne(b: Byte)
    ensures Bin([b]) == Encode(b, BYTE_SIZE)
  {
    assert [b][..0] == [];
    ByteToBinIsEncode(b);
  }

  /** Character `8 * i + j` of the expansion is bit `7 - j` of byte `i`. */
  lemma {:induction false} BinAt(byteStr: seq<Byte>, i: nat, j: nat)
    requires i < |byteStr| && j < BYTE_SIZE
    ensures Bin(byteStr)[BYTE_SIZE * i + j] == (if TestBit(byteStr[i], 7 - j) then '1' else '0')
  {
    var init, last := byteStr[..|byteStr| - 1], byteStr[|byteStr| - 1];
    var front := Bin(init);
    assert Bin(byteStr) == front + ByteToBin(last);
    if i < |init| {
      BinAt(init, i, j);
      assert init[i] == byteStr[i];
    } else {
      ByteToBinIsEncode(last);
      assert |front| == BYTE_SIZE * i;
      EncodeAt(last, BYTE_SIZE, j);
    }
  }

  /** Packs a bit string eight characters at a time into bytes; trailing bits
      that do not fill a byte are dropped. */
  function Pack(bits: string): (r: seq<Byte>)
    ensures |r| == |bits| / BYTE_SIZE
  {
    if |bits| < BYTE_SIZE then []
    else
      assert Pow2(8) == 256;
      [Value(bits[..BYTE_SIZE]) as Byte] + Pack(bits[BYTE_SIZE..])
  }

  /** Packing a whole number of bytes and expanding again gives the bits back. */
  lemma {:induction false} BinOfPack(bits: string)
    requires IsBinary(bits) && |bits| % BYTE_SIZE == 0
    ensures Bin(Pack(bits)) == bits
  {
    if |bits| >= BYTE_SIZE {
      var head, tail := bits[..BYTE_SIZE], bits[BYTE_SIZE..];
      assert Pow2(8) == 256;
      var b := Value(head) as Byte;
      BinOfPack(tail);
      BinAppend([b], Pack(tail));
      BinOne(b);
      EncodeOfValue(head);
      assert bits == head + tail;
    }
  }

  /** Expanding and packing again gives the bytes back. */
  lemma {:induction false} PackOfBin(byteStr: seq<Byte>)
    ensures Pack(Bin(byteStr)) == byteStr
  {
    if byteStr != [] {
      var head, tail := byteStr[0], byteStr[1..];
      assert byteStr == [head] + tail;
      BinAppend([head], tail);
      BinOne(head);
      assert Pow2(8) == 256;
      ValueOfEncode(head, BYTE_SIZE);
      var bits := Bin(byteStr);
      assert bits[..BYTE_SIZE] == Encode(head, BYTE_SIZE);
      assert bits[BYTE_SIZE..] == Bin(tail);
      PackOfBin(tail);
    }
  }
}
