/** Bit strings as the decoder sees them: sequences of the characters '0' and '1',
    most significant bit first, and the two conversions between a bit string and
    the unsigned integer it spells. */
module Bits {

  function Pow2(n: nat): (r: nat)
    ensures r >= 1
  {
    if n == 0 then 1 else 2 * Pow2(n - 1)
  }

  predicate IsBit(c: char) {
    c == '0' || c == '1'
  }

  predicate IsBinary(s: string) {
    forall i :: 0 <= i < |s| ==> IsBit(s[i])
  }

  /** The character for the least significant bit of `v`. */
  function Digit(v: nat): (c: char)
    ensures IsBit(c)
    ensures (c == '1') == (v % 2 == 1)
  {
    if v % 2 == 1 then '1' else '0'
  }

  function BitValue(c: char): nat {
    if c == '1' then 1 else 0
  }

  /** The unsigned big-endian value of a bit string, as `int(s, 2)` reads it. */
  function Value(s: string): (r: nat)
    ensures r < Pow2(|s|)
  {
    if s == [] then 0 else 2 * Value(s[..|s| - 1]) + BitValue(s[|s| - 1])
  }

  /** The `w` low bits of `v`, most significant first. */
  function Encode(v: nat, w: nat): (r: string)
    ensures |r| == w && IsBinary(r)
  {
    if w == 0 then [] else Encode(v / 2, w - 1) + [Digit(v)]
  }

  function Zeros(n: nat): (r: string)
    ensures |r| == n
  {
    seq(n, _ => '0')
  }

  /** Reading back a `w`-bit encoding gives the encoded number. */
  lemma {:induction false} ValueOfEncode(v: nat, w: nat)
    requires v < Pow2(w)
    ensures Value(Encode(v, w)) == v
  {
    if w > 0 {
      var e := Encode(v, w);
      assert e[..w - 1] == Encode(v / 2, w - 1);
      ValueOfEncode(v / 2, w - 1);
    }
  }

  /** Encoding the value of a bit string at its own width gives the string back. */
  lemma {:induction false} EncodeOfValue(s: string)
    requires IsBinary(s)
    ensures Encode(Value(s), |s|) == s
  {
    if s != [] {
      var init := s[..|s| - 1];
      var v := Value(s);
      assert v / 2 == Value(init) && Digit(v) == s[|s| - 1];
      EncodeOfValue(init);
      assert s == init + [s[|s| - 1]];
    }
  }

  /** A binary string is determined by its value and its width. */
  lemma EncodeInjective(s: string, t: string)
    requires IsBinary(s) && IsBinary(t) && |s| == |t|
    ensures Value(s) == Value(t) <==> s == t
  {
    EncodeOfValue(s);
    EncodeOfValue(t);
  }

  lemma {:induction false} EncodeZero(w: nat)
    ensures Encode(0, w) == Zeros(w)
  {
    if w > 0 {
      EncodeZero(w - 1);
      assert Zeros(w) == Zeros(w - 1) + ['0'];
    }
  }

  /** Bit `k` of `v`, counting from the least significant bit. */
  function TestBit(v: nat, k: nat): bool {
    if k == 0 then v % 2 == 1 else TestBit(v / 2, k - 1)
  }

  /** Position `j` of a `w`-bit encoding holds bit `w - 1 - j` of the number. */
  lemma {:induction false} EncodeAt(v: nat, w: nat, j: nat)
    requires j < w
    ensures Encode(v, w)[j] == (if TestBit(v, w - 1 - j) then '1' else '0')
  {
    if j < w - 1 {
      EncodeAt(v / 2, w - 1, j);
    }
  }
}
