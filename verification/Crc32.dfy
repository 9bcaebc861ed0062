/** The bit-serial CRC-32 of the HSM and the polynomial division it carries out. */
module Crc32 {
  import opened Xor
  import opened Gf2

  const REFLECTED_POLY: bv32 := 0xEDB88320
  const ALL_ONES: bv32 := 0xFFFFFFFF
  const BYTE_BITS: nat := 8

  // x^32 + x^26 + x^23 + x^22 + x^16 + x^12 + x^11 + x^10 + x^8 + x^7 + x^5 + x^4 + x^2 + x + 1
  const GENERATOR: Poly := [true] + GENERATOR_TAIL
  const GENERATOR_TAIL: Poly :=
    [false, false, false, false] + ([false, true, false, false] + ([true, true, false, false]
    + ([false, false, false, true] + ([false, false, false, true] + ([true, true, false, true]
    + ([true, false, true, true] + [false, true, true, true]))))))

  // ---------- Words ----------

  // The word operations under names, so that a proof can use their laws without their bits.

  function XorWords(c: bv32, d: bv32): (r: bv32) { c ^ d }

  function Halve(c: bv32): (r: bv32) { c >> 1 }

  predicate Odd(c: bv32) { c & 1 == 1 }

  function Bit(b: bool): (r: bv32) { if b then 1 else 0 }

  function Widen(b: byte): (r: bv32) { b as bv32 }

  function Complement(c: bv32): (r: bv32) { !c }

  // ---------- The register ----------

  // One shift of the register: the mask -(crc & 1) selects the reflected generator.
  function Step(c: bv32): (r: bv32) {
    (c >> 1) ^ (REFLECTED_POLY & (0 - (c & 1)))
  }

  function Steps(c: bv32, n: nat): (r: bv32)
    decreases n
  {
    if n == 0 then c else Steps(Step(c), n - 1)
  }

  function Absorb(c: bv32, b: byte): (r: bv32) {
    Steps(XorWords(c, Widen(b)), BYTE_BITS)
  }

  // The register after the bytes of data, starting from c.
  function Register(data: seq<byte>, c: bv32): (r: bv32) {
    if data == [] then c else Absorb(Register(data[..|data| - 1], c), data[|data| - 1])
  }

  function Crc(data: seq<byte>): (r: bv32) {
    Complement(Register(data, ALL_ONES))
  }

  method Compute(data: array<byte>, len: nat) returns (crc: bv32)
    requires len <= data.Length
    ensures crc == Crc(data[..len])
  {
    hide Absorb, Complement;
    crc := ALL_ONES;
    var i := 0;
    while i < len
      invariant 0 <= i <= len
      invariant crc == Register(data[..i], ALL_ONES)
    {
      assert data[..i + 1][..i] == data[..i];
      crc := AbsorbByte(crc, data[i]);
      i := i + 1;
    }
    crc := Complement(crc);
  }

  // The body of that loop: xor one byte in, then shift eight times.
  method AbsorbByte(before: bv32, b: byte) returns (crc: bv32)
    ensures crc == Absorb(before, b)
  {
    hide Step, XorWords, Widen;
    crc := XorWords(before, Widen(b));
    ghost var start := crc;
    var j := 0;
    while j < BYTE_BITS
      invariant 0 <= j <= BYTE_BITS
      invariant Steps(crc, BYTE_BITS - j) == Steps(start, BYTE_BITS)
    {
      crc := ShiftOnce(crc);
      j := j + 1;
    }
  }

  method ShiftOnce(before: bv32) returns (crc: bv32)
    ensures crc == Step(before)
  {
    var mask: bv32 := 0 - (before & 1);
    crc := (before >> 1) ^ (REFLECTED_POLY & mask);
  }

  // ---------- The same register, one message bit at a time ----------

  function BitStep(c: bv32, b: bool): (r: bv32) {
    Step(XorWords(c, Bit(b)))
  }

  function BitRegister(bits: seq<bool>, c: bv32): (r: bv32) {
    if bits == [] then c else BitStep(BitRegister(bits[..|bits| - 1], c), bits[|bits| - 1])
  }

  // The n lowest bits of v, least significant first: the order in which they are sent.
  function LowBits(v: bv32, n: nat): (bits: seq<bool>)
    ensures |bits| == n
    decreases n
  {
    if n == 0 then [] else [Odd(v)] + LowBits(Halve(v), n - 1)
  }

  // v has no bit above the n lowest.
  predicate Fits(v: bv32, n: nat)
    decreases n
  {
    if n == 0 then v == 0 else Fits(Halve(v), n - 1)
  }

  function ByteBits(v: byte): (bits: seq<bool>)
    ensures |bits| == BYTE_BITS
  {
    LowBits(Widen(v), BYTE_BITS)
  }

  function Bits(data: seq<byte>): (bits: seq<bool>)
    ensures |bits| == BYTE_BITS * |data|
  {
    if data == [] then [] else Bits(data[..|data| - 1]) + ByteBits(data[|data| - 1])
  }

  lemma {:induction false} BitRegisterAppend(a: seq<bool>, b: seq<bool>, c: bv32)
    ensures BitRegister(a + b, c) == BitRegister(b, BitRegister(a, c))
  {
    hide BitStep;
    if b == [] {
      assert a + b == a;
    } else {
      var n := |b| - 1;
      assert (a + b)[..|a + b| - 1] == a + b[..n];
      BitRegisterAppend(a, b[..n], c);
    }
  }

  lemma BitRegisterFirst(b: bool, bits: seq<bool>, c: bv32)
    ensures BitRegister([b] + bits, c) == BitRegister(bits, BitStep(c, b))
  {
    hide BitStep;
    BitRegisterAppend([b], bits, c);
    assert [b][..0] == [];
    assert BitRegister([b], c) == BitStep(BitRegister([], c), b);
  }

  // Bits above the lowest are only shifted by a step.
  lemma AbsorbOne(c: bv32, v: bv32, b: bool)
    requires b == Odd(v)
    ensures Step(XorWords(c, v)) == XorWords(BitStep(c, b), Halve(v))
  {
    StepSplit(c, v);
    assert v & 1 == Bit(b);
  }

  lemma StepSplit(c: bv32, v: bv32)
    ensures Step(c ^ v) == Step(c ^ (v & 1)) ^ (v >> 1)
  {
    LowBitOfSum(c, v);
    HalfOfSum(c, v);
    SwapTerms((c ^ (v & 1)) >> 1, v >> 1, REFLECTED_POLY & (0 - ((c ^ v) & 1)));
  }

  lemma LowBitOfSum(c: bv32, v: bv32)
    ensures (c ^ v) & 1 == (c ^ (v & 1)) & 1
  {}

  lemma HalfOfSum(c: bv32, v: bv32)
    ensures (c ^ v) >> 1 == ((c ^ (v & 1)) >> 1) ^ (v >> 1)
  {}

  lemma SwapTerms(a: bv32, b: bv32, m: bv32)
    ensures (a ^ b) ^ m == (a ^ m) ^ b
  {}

  // Shifts after a whole word is mixed in equal as many shifts each mixing in one bit.
  lemma {:induction false} StepsAbsorbBits(c: bv32, v: bv32, n: nat)
    requires Fits(v, n)
    ensures Steps(XorWords(c, v), n) == BitRegister(LowBits(v, n), c)
    decreases n
  {
    if n == 0 {
      assert XorWords(c, 0) == c;
    } else {
      hide Step, BitStep, XorWords, Halve, Odd;
      AbsorbOne(c, v, Odd(v));
      StepsAbsorbBits(BitStep(c, Odd(v)), Halve(v), n - 1);
      BitRegisterFirst(Odd(v), LowBits(Halve(v), n - 1), c);
    }
  }

  function Halve8(v: bv32): (r: bv32) {
    Halve(Halve(Halve(Halve(Halve(Halve(Halve(Halve(v))))))))
  }

  lemma FitsShift8(v: bv32, n: nat)
    requires n >= 8
    ensures Fits(v, n) == Fits(Halve8(v), n - 8)
  {
    hide Halve;
    var v1 := Halve(v);
    var v2 := Halve(v1);
    var v3 := Halve(v2);
    var v4 := Halve(v3);
    var v5 := Halve(v4);
    var v6 := Halve(v5);
    assert Fits(v, n) == Fits(v1, n - 1) == Fits(v2, n - 2) == Fits(v3, n - 3) == Fits(v4, n - 4);
    assert Fits(v4, n - 4) == Fits(v5, n - 5) == Fits(v6, n - 6) == Fits(Halve(v6), n - 7);
  }

  lemma ByteFits(v: byte)
    ensures Fits(Widen(v), BYTE_BITS)
  {
    FitsShift8(Widen(v), BYTE_BITS);
  }

  lemma WordFits(c: bv32)
    ensures Fits(c, 32)
  {
    hide Halve8, Halve;
    FitsShift8(c, 32);
    FitsShift8(Halve8(c), 24);
    FitsShift8(Halve8(Halve8(c)), 16);
    FitsShift8(Halve8(Halve8(Halve8(c))), 8);
    ShiftedOut(c);
  }

  lemma ShiftedOut(c: bv32)
    ensures Halve8(Halve8(Halve8(Halve8(c)))) == 0
  {}

  lemma {:induction false} RegisterIsBitwise(data: seq<byte>, c: bv32)
    ensures Register(data, c) == BitRegister(Bits(data), c)
  {
    hide BitStep, Step, Widen, XorWords, Steps, LowBits;
    if data != [] {
      var init, last := data[..|data| - 1], data[|data| - 1];
      RegisterIsBitwise(init, c);
      BitRegisterAppend(Bits(init), ByteBits(last), c);
      ByteFits(last);
      StepsAbsorbBits(Register(init, c), Widen(last), BYTE_BITS);
    }
  }

  // ---------- Registers as polynomials ----------

  // Bit i of the register is the coefficient of x^(31 - i), index i of a Gf2 polynomial.
  function Coefficients(c: bv32): (p: Poly)
    ensures |p| == 32
  {
    LowBits(c, 32)
  }

  lemma {:induction false} LowBitsXor(c: bv32, d: bv32, n: nat)
    ensures LowBits(XorWords(c, d), n) == Add(LowBits(c, n), LowBits(d, n))
    decreases n
  {
    hide XorWords, Odd, Halve;
    if n > 0 {
      XorBits(c, d);
      LowBitsXor(Halve(c), Halve(d), n - 1);
    }
  }

  lemma XorBits(c: bv32, d: bv32)
    ensures Halve(XorWords(c, d)) == XorWords(Halve(c), Halve(d))
    ensures Odd(XorWords(c, d)) == (Odd(c) != Odd(d))
  {}

  lemma {:induction false} LowBitsZero(n: nat)
    ensures LowBits(0, n) == Zeros(n)
  {
    if n > 0 {
      assert Halve(0) == 0 && !Odd(0);
      LowBitsZero(n - 1);
    }
  }

  lemma {:induction false} LowBitsInjective(c: bv32, d: bv32, n: nat)
    requires Fits(c, n) && Fits(d, n) && LowBits(c, n) == LowBits(d, n)
    ensures c == d
    decreases n
  {
    hide Odd, Halve;
    if n > 0 {
      var p, q := LowBits(c, n), LowBits(d, n);
      assert p[0] == q[0] && p[1..] == q[1..];
      LowBitsInjective(Halve(c), Halve(d), n - 1);
      Rejoin(c, d);
    }
  }

  lemma Rejoin(c: bv32, d: bv32)
    requires Odd(c) == Odd(d) && Halve(c) == Halve(d)
    ensures c == d
  {}

  lemma {:induction false} LowBitsPad(c: bv32, n: nat)
    requires Fits(c, n)
    ensures LowBits(c, n + 1) == LowBits(c, n) + [false]
    decreases n
  {
    if n == 0 {
      LowBitsZero(1);
    } else {
      hide Odd, Halve;
      LowBitsPad(Halve(c), n - 1);
    }
  }

  lemma CoefficientsShift(c: bv32)
    ensures Coefficients(Halve(c)) == Coefficients(c)[1..] + [false]
    ensures Coefficients(c)[0] == Odd(c)
  {
    hide Odd, Halve, Fits;
    WordFits(c);
    LowBitsPad(c, 32);
    LowBitsUnfold(c, 32);
    LowBitsUnfold(c, 31);
  }

  lemma LowBitsUnfold(c: bv32, n: nat)
    ensures LowBits(c, n + 1) == [Odd(c)] + LowBits(Halve(c), n)
    ensures LowBits(c, n + 1)[1..] == LowBits(Halve(c), n)
  {}

  lemma LowBits2(c: bv32, n: nat)
    requires n >= 2
    ensures LowBits(c, n) == [Odd(c), Odd(Halve(c))] + LowBits(Halve(Halve(c)), n - 2)
  {
    hide Odd, Halve;
    assert LowBits(Halve(c), n - 1) == [Odd(Halve(c))] + LowBits(Halve(Halve(c)), n - 2);
  }

  predicate Nibble(c: bv32, b0: bool, b1: bool, b2: bool, b3: bool, d: bv32) {
    && b0 == Odd(c)
    && b1 == Odd(Halve(c))
    && b2 == Odd(Halve(Halve(c)))
    && b3 == Odd(Halve(Halve(Halve(c))))
    && d == Halve(Halve(Halve(Halve(c))))
  }

  lemma LowBits4(c: bv32, b0: bool, b1: bool, b2: bool, b3: bool, d: bv32, n: nat)
    requires n >= 4 && Nibble(c, b0, b1, b2, b3, d)
    ensures LowBits(c, n) == [b0, b1, b2, b3] + LowBits(d, n - 4)
  {
    hide Odd, Halve, LowBits;
    LowBits2(c, n);
    LowBits2(Halve(Halve(c)), n - 2);
  }

  lemma NoLowBits(c: bv32)
    ensures LowBits(c, 0) == []
  {}

  lemma GeneratorNibbles()
    ensures Nibble(REFLECTED_POLY, false, false, false, false, 0x0EDB8832)
    ensures Nibble(0x0EDB8832, false, true, false, false, 0x00EDB883)
    ensures Nibble(0x00EDB883, true, true, false, false, 0x000EDB88)
    ensures Nibble(0x000EDB88, false, false, false, true, 0x0000EDB8)
    ensures Nibble(0x0000EDB8, false, false, false, true, 0x00000EDB)
    ensures Nibble(0x00000EDB, true, true, false, true, 0x000000ED)
    ensures Nibble(0x000000ED, true, false, true, true, 0x0000000E)
    ensures Nibble(0x0000000E, false, true, true, true, 0)
  {}

  lemma GeneratorReflected()
    ensures Coefficients(REFLECTED_POLY) == GENERATOR_TAIL
  {
    hide LowBits, Nibble;
    GeneratorNibbles();
    NoLowBits(0);
    LowBits4(0x0000000E, false, true, true, true, 0, 4);
    LowBits4(0x000000ED, true, false, true, true, 0x0000000E, 8);
    LowBits4(0x00000EDB, true, true, false, true, 0x000000ED, 12);
    LowBits4(0x0000EDB8, false, false, false, true, 0x00000EDB, 16);
    LowBits4(0x000EDB88, false, false, false, true, 0x0000EDB8, 20);
    LowBits4(0x00EDB883, true, true, false, false, 0x000EDB88, 24);
    LowBits4(0x0EDB8832, false, true, false, false, 0x00EDB883, 28);
    LowBits4(REFLECTED_POLY, false, false, false, false, 0x0EDB8832, 32);
    assert LowBits(0x0000000E, 4) == [false, true, true, true];
  }

  lemma OnesCoefficients()
    ensures Coefficients(ALL_ONES) == Ones(32)
  {
    hide LowBits;
    NoLowBits(0);
    OnesNibble(0x0000000F, 4);
    OnesNibble(0x000000FF, 8);
    OnesNibble(0x00000FFF, 12);
    OnesNibble(0x0000FFFF, 16);
    OnesNibble(0x000FFFFF, 20);
    OnesNibble(0x00FFFFFF, 24);
    OnesNibble(0x0FFFFFFF, 28);
    OnesNibble(0xFFFFFFFF, 32);
  }

  lemma OnesNibble(c: bv32, n: nat)
    requires 4 <= n <= 32 && c & 0xF == 0xF
    requires LowBits(Halve(Halve(Halve(Halve(c)))), n - 4) == Ones(n - 4)
    ensures LowBits(c, n) == Ones(n)
  {
    hide LowBits;
    LowBits4(c, true, true, true, true, Halve(Halve(Halve(Halve(c)))), n);
  }

  // A step of the register is a step of the long division by the generator.
  lemma StepReduces(c: bv32, b: bool)
    ensures Coefficients(BitStep(c, b)) == Reduce(Coefficients(c), GENERATOR, b)
  {
    hide Odd, Halve, XorWords, BitStep, LowBits;
    var m := if Odd(c) != b then REFLECTED_POLY else 0;
    BitStepMask(c, b);
    CoefficientsShift(c);
    LowBitsXor(Halve(c), m, 32);
    LowBitsZero(32);
    GeneratorReflected();
    assert GENERATOR[1..] == GENERATOR_TAIL;
  }

  lemma BitStepMask(c: bv32, b: bool)
    ensures BitStep(c, b) == XorWords(Halve(c), if Odd(c) != b then REFLECTED_POLY else 0)
  {
    hide Step, Halve, Odd, XorWords;
    var x := XorWords(c, Bit(b));
    FlipLow(c, b);
    StepCases(x);
  }

  lemma FlipLow(c: bv32, b: bool)
    ensures Odd(XorWords(c, Bit(b))) == (Odd(c) != b)
    ensures Halve(XorWords(c, Bit(b))) == Halve(c)
  {}

  lemma StepCases(c: bv32)
    ensures Step(c) == XorWords(Halve(c), if Odd(c) then REFLECTED_POLY else 0)
  {
    if Odd(c) {
      assert c & 1 == 1;
    } else {
      assert c & 1 == 0;
    }
  }

  // The message followed by 32 zeros, its first 32 coefficients complemented.
  function Dividend(bits: Poly): (d: Poly)
    ensures |d| == |bits| + 32
  {
    Add(Ones(32) + Zeros(|bits|), bits + Zeros(32))
  }

  lemma {:induction false} RegisterIsRemainder(bits: Poly) returns (q: Poly)
    ensures IsDivision(Dividend(bits), GENERATOR, q, Coefficients(BitRegister(bits, ALL_ONES)))
  {
    hide BitStep, LowBits;
    if bits == [] {
      q := [];
      OnesCoefficients();
      assert Dividend(bits) == Add(Mul(q, GENERATOR), Zeros(0) + Ones(32));
    } else {
      var n := |bits| - 1;
      var q0 := RegisterIsRemainder(bits[..n]);
      var c := BitRegister(bits[..n], ALL_ONES);
      var r := Coefficients(c);
      var b := bits[n];
      q := q0 + [r[0] != b];
      DivisionStep(Dividend(bits[..n]), GENERATOR, q0, r, b);
      StepReduces(c, b);
      assert Dividend(bits) == Add(Dividend(bits[..n]) + [false], Zeros(n) + [b] + Zeros(32));
    }
  }

  // Main result: the CRC is the complemented remainder of the polynomial division that
  // section 8.1.1.6.2 of ITU-T V.42 prescribes, for byte strings of any length.
  lemma {:induction false} CrcIsRemainder(data: seq<byte>)
    ensures exists q, r :: IsDivision(Dividend(Bits(data)), GENERATOR, q, r)
    ensures forall q, r :: IsDivision(Dividend(Bits(data)), GENERATOR, q, r) ==>
                             Coefficients(Crc(data)) == Add(r, Ones(32))
  {
    hide BitRegister, Register, LowBits, Complement, XorWords, Bits;
    var d := Dividend(Bits(data));
    var c := Register(data, ALL_ONES);
    var q0 := RegisterIsRemainder(Bits(data));
    RegisterIsBitwise(data, ALL_ONES);
    LowBitsXor(c, ALL_ONES, 32);
    OnesCoefficients();
    ComplementIsXor(c);
    forall q, r | IsDivision(d, GENERATOR, q, r)
      ensures r == Coefficients(c)
    {
      RemainderUnique(d, GENERATOR, q, r, q0, Coefficients(c));
    }
  }

  lemma ComplementIsXor(c: bv32)
    ensures Complement(c) == XorWords(c, ALL_ONES)
  {}

  // ---------- Linearity and burst detection ----------

  lemma XorExchange(u: bv32, v: bv32, x: bv32, y: bv32)
    ensures XorWords(XorWords(u, v), XorWords(x, y)) == XorWords(XorWords(u, x), XorWords(v, y))
  {
    hide XorWords;
    XorAssociates(XorWords(u, v), x, y);
    XorSwap(u, v, x);
    XorAssociates(XorWords(u, x), v, y);
  }

  lemma XorAssociates(x: bv32, y: bv32, z: bv32)
    ensures XorWords(XorWords(x, y), z) == XorWords(x, XorWords(y, z))
  {}

  lemma XorSwap(x: bv32, y: bv32, z: bv32)
    ensures XorWords(XorWords(x, y), z) == XorWords(XorWords(x, z), y)
  {
    hide XorWords;
    XorAssociates(x, y, z);
    XorCommutes(y, z);
    XorAssociates(x, z, y);
  }

  lemma XorCommutes(x: bv32, y: bv32)
    ensures XorWords(x, y) == XorWords(y, x)
  {}

  lemma StepXor(c: bv32, d: bv32)
    ensures Step(XorWords(c, d)) == XorWords(Step(c), Step(d))
  {
    hide Step, XorWords, Halve, Odd;
    StepCases(c);
    StepCases(d);
    StepCases(XorWords(c, d));
    XorBits(c, d);
    XorZero();
    XorExchange(Halve(c), Halve(d), if Odd(c) then REFLECTED_POLY else 0, if Odd(d) then REFLECTED_POLY else 0);
  }

  lemma XorZero()
    ensures XorWords(0, 0) == 0
    ensures XorWords(REFLECTED_POLY, REFLECTED_POLY) == 0
    ensures XorWords(REFLECTED_POLY, 0) == XorWords(0, REFLECTED_POLY) == REFLECTED_POLY
  {}

  lemma BitXor(c: bv32, d: bv32, a: bool, b: bool)
    ensures XorWords(XorWords(c, d), Bit(a != b)) == XorWords(XorWords(c, Bit(a)), XorWords(d, Bit(b)))
  {
    hide XorWords;
    BitSum(a, b);
    XorExchange(c, d, Bit(a), Bit(b));
  }

  lemma BitSum(a: bool, b: bool)
    ensures XorWords(Bit(a), Bit(b)) == Bit(a != b)
  {}

  lemma {:induction false} BitRegisterXor(a: Poly, b: Poly, c: bv32, d: bv32)
    requires |a| == |b|
    ensures BitRegister(Add(a, b), XorWords(c, d)) == XorWords(BitRegister(a, c), BitRegister(b, d))
  {
    hide Step, XorWords, Bit;
    if a != [] {
      var n := |a| - 1;
      assert Add(a, b)[..n] == Add(a[..n], b[..n]);
      BitRegisterXor(a[..n], b[..n], c, d);
      var ra, rb := BitRegister(a[..n], c), BitRegister(b[..n], d);
      BitXor(ra, rb, a[n], b[n]);
      StepXor(XorWords(ra, Bit(a[n])), XorWords(rb, Bit(b[n])));
    }
  }

  function XorBytes(a: seq<byte>, b: seq<byte>): (c: seq<byte>)
    requires |a| == |b|
    ensures |c| == |a|
  {
    seq(|a|, i requires 0 <= i < |a| => Sum(a[i], b[i]))
  }

  lemma {:induction false} BitsXor(a: seq<byte>, b: seq<byte>)
    requires |a| == |b|
    ensures Bits(XorBytes(a, b)) == Add(Bits(a), Bits(b))
  {
    hide Widen, XorWords, LowBits, Sum;
    if a != [] {
      var n := |a| - 1;
      assert XorBytes(a, b)[..n] == XorBytes(a[..n], b[..n]);
      BitsXor(a[..n], b[..n]);
      WidenXor(a[n], b[n]);
      LowBitsXor(Widen(a[n]), Widen(b[n]), BYTE_BITS);
    }
  }

  lemma WidenXor(a: byte, b: byte)
    ensures Widen(Sum(a, b)) == XorWords(Widen(a), Widen(b))
  {}

  // The CRC is affine: the checksum of a sum of three messages is the sum of the checksums.
  lemma {:induction false} CrcAffine(a: seq<byte>, b: seq<byte>, c: seq<byte>)
    requires |a| == |b| == |c|
    ensures Crc(XorBytes(XorBytes(a, b), c)) == XorWords(XorWords(Crc(a), Crc(b)), Crc(c))
  {
    hide Register, BitRegister, Bits, XorWords, Complement;
    var ab := XorBytes(a, b);
    BitsXor(a, b);
    BitsXor(ab, c);
    RegisterIsBitwise(a, ALL_ONES);
    RegisterIsBitwise(b, ALL_ONES);
    RegisterIsBitwise(c, ALL_ONES);
    RegisterIsBitwise(XorBytes(ab, c), ALL_ONES);
    XorOnes();
    BitRegisterXor(Bits(a), Bits(b), ALL_ONES, ALL_ONES);
    BitRegisterXor(Bits(ab), Bits(c), 0, ALL_ONES);
    ComplementXor(Register(a, ALL_ONES), Register(b, ALL_ONES), Register(c, ALL_ONES));
  }

  lemma XorOnes()
    ensures XorWords(ALL_ONES, ALL_ONES) == 0
    ensures XorWords(0, ALL_ONES) == ALL_ONES
  {}

  lemma ComplementXor(x: bv32, y: bv32, z: bv32)
    ensures Complement(XorWords(XorWords(x, y), z)) == XorWords(XorWords(Complement(x), Complement(y)), Complement(z))
  {}

  lemma StepInjective(c: bv32, d: bv32, b: bool)
    requires BitStep(c, b) == BitStep(d, b)
    ensures c == d
  {}

  lemma {:induction false} BitRegisterInjective(bits: Poly, c: bv32, d: bv32)
    requires BitRegister(bits, c) == BitRegister(bits, d)
    ensures c == d
  {
    hide BitStep;
    if bits != [] {
      var n := |bits| - 1;
      StepInjective(BitRegister(bits[..n], c), BitRegister(bits[..n], d), bits[n]);
      BitRegisterInjective(bits[..n], c, d);
    }
  }

  lemma {:induction false} BitRegisterZeros(n: nat)
    ensures BitRegister(Zeros(n), 0) == 0
  {
    if n > 0 {
      assert Zeros(n)[..n - 1] == Zeros(n - 1);
      BitRegisterZeros(n - 1);
      StepZero();
    }
  }

  lemma StepZero()
    ensures BitStep(0, false) == 0
  {}

  // At most 32 message bits clear the register only if they repeat what it held.
  lemma {:induction false} ClearedByWindow(w: Poly, c: bv32)
    requires |w| <= 32 && BitRegister(w, c) == 0
    ensures Coefficients(c) == w + Zeros(32 - |w|)
  {
    hide BitStep, Coefficients;
    if w == [] {
      ZeroCoefficients();
    } else {
      var b, rest := w[0], w[1..];
      assert w == [b] + rest;
      BitRegisterFirst(b, rest, c);
      ClearedByWindow(rest, BitStep(c, b));
      StepReduces(c, b);
      var r, r' := Coefficients(c), Coefficients(BitStep(c, b));
      assert GENERATOR[1..] == GENERATOR_TAIL && GENERATOR_TAIL[31];
      assert r' == rest + Zeros(32 - |rest|);
      assert r'[31] == (r[0] != b);
      assert r' == r[1..] + [false];
      forall i | 0 <= i < 32
        ensures r[i] == (w + Zeros(32 - |w|))[i]
      {
        if i > 0 {
          assert r[i] == r[1..][i - 1] == r'[i - 1];
        }
      }
    }
  }

  lemma ZeroCoefficients()
    ensures Coefficients(0) == Zeros(32)
  {
    LowBitsZero(32);
  }

  lemma {:induction false} BitsInjective(a: seq<byte>, b: seq<byte>)
    requires |a| == |b| && Bits(a) == Bits(b)
    ensures a == b
  {
    hide ByteBits;
    if a != [] {
      var n := |a| - 1;
      assert Bits(a)[..BYTE_BITS * n] == Bits(a[..n]) && Bits(b)[..BYTE_BITS * n] == Bits(b[..n]);
      assert Bits(a)[BYTE_BITS * n..] == ByteBits(a[n]) && Bits(b)[BYTE_BITS * n..] == ByteBits(b[n]);
      BitsInjective(a[..n], b[..n]);
      ByteBitsInjective(a[n], b[n]);
      assert a == a[..n] + [a[n]] && b == b[..n] + [b[n]];
    }
  }

  lemma ByteBitsInjective(x: byte, y: byte)
    requires ByteBits(x) == ByteBits(y)
    ensures x == y
  {
    hide LowBits, Fits;
    ByteFits(x);
    ByteFits(y);
    LowBitsInjective(Widen(x), Widen(y), BYTE_BITS);
  }

  // Bits a and b may differ only in the window of the given width that starts at k.
  ghost predicate DifferOnlyWithin(a: Poly, b: Poly, k: nat, width: nat) {
    && |a| == |b|
    && forall i | 0 <= i < |a| :: a[i] != b[i] ==> k <= i < k + width
  }

  // Main result: every burst of at most 32 bits, wherever it falls, changes the CRC.
  lemma {:induction false} BurstDetected(a: seq<byte>, b: seq<byte>, k: nat)
    requires |a| == |b| && a != b
    requires DifferOnlyWithin(Bits(a), Bits(b), k, 32)
    ensures Crc(a) != Crc(b)
  {
    hide BitRegister, Register, XorWords, Complement, Bits;
    if Crc(a) == Crc(b) {
      var x, y := Bits(a), Bits(b);
      ComplementInjective(Register(a, ALL_ONES), Register(b, ALL_ONES));
      RegisterIsBitwise(a, ALL_ONES);
      RegisterIsBitwise(b, ALL_ONES);
      XorOnes();
      XorSelf(Register(a, ALL_ONES));
      BitRegisterXor(x, y, ALL_ONES, ALL_ONES);
      SilentBurstIsEmpty(Add(x, y), k);
      assert forall i | 0 <= i < |x| :: Add(x, y)[i] == (x[i] != y[i]);
      assert x == y;
      BitsInjective(a, b);
    }
  }

  // Bit j of byte i is bit 8 * i + j of the message.
  lemma {:induction false} BitsOfByte(data: seq<byte>, i: nat)
    requires i < |data|
    ensures Bits(data)[BYTE_BITS * i..BYTE_BITS * i + BYTE_BITS] == ByteBits(data[i])
  {
    hide ByteBits;
    var n := |data| - 1;
    var front := Bits(data[..n]);
    assert Bits(data) == front + ByteBits(data[n]);
    if i < n {
      BitsOfByte(data[..n], i);
      assert BYTE_BITS * i + BYTE_BITS <= |front|;
      assert Bits(data)[BYTE_BITS * i..BYTE_BITS * i + BYTE_BITS] == front[BYTE_BITS * i..BYTE_BITS * i + BYTE_BITS];
    } else {
      assert Bits(data)[|front|..|front| + BYTE_BITS] == ByteBits(data[n]);
    }
  }

  lemma SameByteSameBits(a: seq<byte>, b: seq<byte>, j: nat)
    requires |a| == |b| && j < BYTE_BITS * |a| && Bits(a)[j] != Bits(b)[j]
    ensures a[j / BYTE_BITS] != b[j / BYTE_BITS]
  {
    hide Bits, ByteBits;
    var i, o := j / BYTE_BITS, j % BYTE_BITS;
    BitsOfByte(a, i);
    BitsOfByte(b, i);
    assert Bits(a)[j] == Bits(a)[BYTE_BITS * i..BYTE_BITS * i + BYTE_BITS][o];
    assert Bits(b)[j] == Bits(b)[BYTE_BITS * i..BYTE_BITS * i + BYTE_BITS][o];
  }

  // In bytes: a change confined to any four consecutive bytes changes the CRC.
  lemma {:induction false} ByteBurstDetected(a: seq<byte>, b: seq<byte>, k: nat)
    requires |a| == |b| && a != b
    requires forall i :: 0 <= i < |a| && a[i] != b[i] ==> k <= i < k + 4
    ensures Crc(a) != Crc(b)
  {
    hide Bits, Crc;
    forall j | 0 <= j < |Bits(a)| && Bits(a)[j] != Bits(b)[j]
      ensures BYTE_BITS * k <= j < BYTE_BITS * k + 32
    {
      SameByteSameBits(a, b, j);
    }
    BurstDetected(a, b, BYTE_BITS * k);
  }

  lemma SilentBurstIsEmpty(d: Poly, k: nat)
    requires BitRegister(d, 0) == 0
    requires forall i | 0 <= i < |d| :: d[i] ==> k <= i < k + 32
    ensures d == Zeros(|d|)
  {
    hide BitRegister, Coefficients;
    var lo := if k <= |d| then k else |d|;
    var hi := if k + 32 <= |d| then k + 32 else |d|;
    var w, tail := d[lo..hi], Zeros(|d| - hi);
    assert d == Zeros(lo) + (w + tail);
    BitRegisterAppend(Zeros(lo), w + tail, 0);
    BitRegisterZeros(lo);
    BitRegisterAppend(w, tail, 0);
    BitRegisterZeros(|tail|);
    BitRegisterInjective(tail, BitRegister(w, 0), 0);
    ClearedByWindow(w, 0);
    ZeroCoefficients();
    assert w == Zeros(32)[..|w|];
  }

  lemma ComplementInjective(c: bv32, d: bv32)
    requires Complement(c) == Complement(d)
    ensures c == d
  {}

  lemma XorSelf(c: bv32)
    ensures XorWords(c, c) == 0
  {}

  // ---------- The standard check value ----------

  lemma AbsorbDigits()
    ensures Absorb(0xFFFFFFFF, 0x31) == 0x7C231048
    ensures Absorb(0x7C231048, 0x32) == 0xB0ACBB32
    ensures Absorb(0xB0ACBB32, 0x33) == 0x77B79C2D
    ensures Absorb(0x77B79C2D, 0x34) == 0x641C1F5C
    ensures Absorb(0x641C1F5C, 0x35) == 0x340AC5E3
    ensures Absorb(0x340AC5E3, 0x36) == 0xF68D2C9E
    ensures Absorb(0xF68D2C9E, 0x37) == 0xAFFC9660
    ensures Absorb(0xAFFC9660, 0x38) == 0x651F2550
    ensures Absorb(0x651F2550, 0x39) == 0x340BC6D9
  {}

  // The CRC-32 of the digits 1 to 9 is the value published with the polynomial.
  lemma CheckValue()
    ensures Crc([0x31, 0x32, 0x33, 0x34, 0x35, 0x36, 0x37, 0x38, 0x39]) == 0xCBF43926
  {
    hide Absorb, Register;
    var m: seq<byte> := [0x31, 0x32, 0x33, 0x34, 0x35, 0x36, 0x37, 0x38, 0x39];
    AbsorbDigits();
    RegisterEmpty(ALL_ONES);
    RegisterGrows(m, 0);
    RegisterGrows(m, 1);
    RegisterGrows(m, 2);
    RegisterGrows(m, 3);
    RegisterGrows(m, 4);
    RegisterGrows(m, 5);
    RegisterGrows(m, 6);
    RegisterGrows(m, 7);
    RegisterGrows(m, 8);
    assert m[..0] == [] && m[..9] == m;
  }

  lemma RegisterEmpty(c: bv32)
    ensures Register([], c) == c
  {}

  lemma RegisterGrows(m: seq<byte>, i: nat)
    requires i < |m|
    ensures Register(m[..i + 1], ALL_ONES) == Absorb(Register(m[..i], ALL_ONES), m[i])
  {
    hide Absorb;
    assert m[..i + 1][..i] == m[..i];
  }
}
