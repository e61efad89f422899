/**
 The operand field of an A-instruction: a decimal operand written as fifteen
 binary digits, most significant bit first. The encoder repeatedly finds the
 highest set bit of what remains, marks it in the output and subtracts it.
 */
module Binary {
  import opened Decimal

  /** Width of the operand field. */
  const Width := 15

  /** Operands must stay below this bound, 2^15 = 32768, to fit the field. */
  const OperandLimit: nat := Pow2(Width)

  /** `pow(2, k)` on integers. */
  function Pow2(k: nat): (r: nat)
    ensures r >= 1
  {
    if k == 0 then 1 else 2 * Pow2(k - 1)
  }

  lemma {:induction false} Pow2Monotone(a: nat, b: nat)
    requires a < b
    ensures Pow2(a) < Pow2(b)
    decreases b
  {
    if a < b - 1 {
      Pow2Monotone(a, b - 1);
    }
  }

  /** The integer part of the base-2 logarithm: the position of the highest
      set bit of `n`. */
  function FloorLog2(n: nat): (p: nat)
    requires n >= 1
    ensures Pow2(p) <= n < Pow2(p + 1)
  {
    if n == 1 then 0 else 1 + FloorLog2(n / 2)
  }

  /** The integer `log2` undoes the integer `pow(2, ·)`. */
  lemma {:induction false} Log2OfPow2(k: nat)
    ensures FloorLog2(Pow2(k)) == k
  {
    var p := FloorLog2(Pow2(k));
    assert Pow2(p) <= Pow2(k) < Pow2(p + 1);
    if p + 1 < k {
      Pow2Monotone(p + 1, k);
    } else if p > k {
      Pow2Monotone(k, p);
    }
  }

  predicate IsBit(c: char) {
    c == '0' || c == '1'
  }

  predicate IsBinary(s: string) {
    forall i :: 0 <= i < |s| ==> IsBit(s[i])
  }

  /** The value of a bit string read most significant bit first; a character
      other than '1' counts as a zero bit. A string of `w` bits denotes less
      than 2^w. */
  function BitsValue(s: string): (v: nat)
    ensures v < Pow2(|s|)
  {
    if |s| == 0 then 0
    else (if s[0] == '1' then Pow2(|s| - 1) else 0) + BitsValue(s[1..])
  }

  /** Reference encoder: `n` as exactly `w` bits, most significant first,
      decided bit by bit from the top. */
  function Encode(n: nat, w: nat): (s: string)
    requires n < Pow2(w)
    ensures |s| == w && IsBinary(s)
    decreases w
  {
    if w == 0 then []
    else if n >= Pow2(w - 1) then ['1'] + Encode(n - Pow2(w - 1), w - 1)
    else ['0'] + Encode(n, w - 1)
  }

  /** Decoding an encoding gives back the number. */
  lemma {:induction false} DecodeEncode(n: nat, w: nat)
    requires n < Pow2(w)
    ensures BitsValue(Encode(n, w)) == n
    decreases w
  {
    if w > 0 {
      var s := Encode(n, w);
      assert s[1..] == Encode(if n >= Pow2(w - 1) then n - Pow2(w - 1) else n, w - 1);
      DecodeEncode(if n >= Pow2(w - 1) then n - Pow2(w - 1) else n, w - 1);
    }
  }

  /** Encoding the value of a bit string at its own width gives the string
      back, so a bit string is determined by its width and value. */
  lemma {:induction false} EncodeDecode(s: string)
    requires IsBinary(s)
    ensures Encode(BitsValue(s), |s|) == s
    decreases |s|
  {
    if |s| > 0 {
      var w := |s|;
      var rest := s[1..];
      assert IsBinary(rest);
      EncodeDecode(rest);
      assert s == [s[0]] + rest;
    }
  }

  /** A string of '0's denotes zero. */
  lemma {:induction false} ZerosValue(s: string)
    requires forall i :: 0 <= i < |s| ==> s[i] == '0'
    ensures BitsValue(s) == 0
    decreases |s|
  {
    if |s| > 0 {
      ZerosValue(s[1..]);
    }
  }

  /** Zero is encoded as `w` '0's. */
  lemma {:induction false} EncodeZero(w: nat)
    ensures Encode(0, w) == seq(w, _ => '0')
    decreases w
  {
    if w > 0 {
      EncodeZero(w - 1);
      assert seq(w, _ => '0') == ['0'] + seq(w - 1, _ => '0');
    }
  }

  /** Turning a '0' at index `i` into a '1' adds the weight of that index. */
  lemma {:induction false} SetBitValue(s: string, i: nat)
    requires i < |s| && s[i] == '0'
    ensures BitsValue(s[i := '1']) == BitsValue(s) + Pow2(|s| - 1 - i)
    decreases |s|
  {
    var t := s[i := '1'];
    if i > 0 {
      assert t[1..] == s[1..][i - 1 := '1'];
      SetBitValue(s[1..], i - 1);
    }
  }

  /** The state of the encoding loop: a field of `Width` bits whose lowest
      `top` bits are still '0', and a remainder `n` below 2^top that, added to
      the value of the field, gives the operand `target`. */
  ghost predicate EncoderState(bits: string, n: int, top: nat, target: nat) {
    && |bits| == Width && IsBinary(bits)
    && top <= Width && 0 <= n < Pow2(top)
    && (forall j :: Width - top <= j < Width ==> bits[j] == '0')
    && BitsValue(bits) + n == target
  }

  /** A power of two not above `n` sits below any power of two above `n`. */
  lemma {:induction false} HighestBitBelow(n: int, top: nat, position: nat)
    requires Pow2(position) <= n < Pow2(top)
    ensures position < top
  {
    if top < position {
      Pow2Monotone(top, position);
    }
  }

  /** One round of the loop: setting the bit of the highest power of two in
      the remainder, and subtracting that power, keeps the loop's state with
      `top` lowered to that bit's position. */
  lemma EncoderStep(bits: string, n: int, top: nat, target: nat, position: nat)
    requires EncoderState(bits, n, top, target) && n != 0
    requires Pow2(position) <= n < Pow2(position + 1)
    ensures position < top
    ensures EncoderState(bits[|bits| - 1 - position := '1'], n - Pow2(position), position, target)
  {
    HighestBitBelow(n, top, position);
    var i := |bits| - 1 - position;
    var bits' := bits[i := '1'];
    assert bits[i] == '0';
    SetBitValue(bits, i);
    assert Pow2(position + 1) == 2 * Pow2(position);
    assert 0 <= n - Pow2(position) < Pow2(position);
    assert IsBinary(bits');
    assert forall j :: Width - position <= j < Width ==> bits'[j] == '0';
  }

  /** `toBinary`: parses the decimal operand, starts from fifteen '0's and,
      while something remains, sets the bit of the highest remaining power of
      two and subtracts that power. */
  method ToBinary(value: string) returns (valueInBinary: string)
    requires IsDecimal(value) && Parse(value) < OperandLimit
    ensures |valueInBinary| == Width && IsBinary(valueInBinary)
    ensures BitsValue(valueInBinary) == Parse(value)
    ensures Parse(value) == 0 ==> forall i :: 0 <= i < Width ==> valueInBinary[i] == '0'
  {
    valueInBinary := "000000000000000";
    var numToTranslate: int := Parse(value);
    ghost var top: nat := Width;
    ZerosValue(valueInBinary);
    while numToTranslate != 0
      invariant EncoderState(valueInBinary, numToTranslate, top, Parse(value))
      decreases numToTranslate
    {
      var position := FloorLog2(numToTranslate);
      EncoderStep(valueInBinary, numToTranslate, top, Parse(value), position);
      valueInBinary := valueInBinary[|valueInBinary| - 1 - position := '1'];
      numToTranslate := numToTranslate - Pow2(position);
      top := position;
    }
    EncodeDecode(valueInBinary);
    EncodeZero(Width);
  }

  /** Any field of fifteen bits that reads back as the operand, the result of
      `ToBinary` among them, is the reference encoding of the operand. */
  lemma FieldIsEncoding(value: string, field: string)
    requires IsDecimal(value) && Parse(value) < OperandLimit
    requires |field| == Width && IsBinary(field) && BitsValue(field) == Parse(value)
    ensures field == Encode(Parse(value), Width)
  {
    EncodeDecode(field);
  }
}
