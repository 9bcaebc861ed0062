/** Unity's tolerance assertions: wrapping 64-bit comparisons against a true distance. */
module UnityWithin {
  import opened Arithmetic
  import opened UnityPrint

  // The cast from UNITY_UINT back to UNITY_INT.
  function ToSigned(u: uint64): (n: int64)
    ensures (u - n) % WRAP64 == 0
  {
    if u < 0x8000_0000_0000_0000 then u else u - WRAP64
  }

  function WrappingSub(a: uint64, b: uint64): (d: uint64) {
    (a - b) % WRAP64
  }

  function Distance(a: int, b: int): (d: nat)
    ensures d == a - b || d == b - a
  {
    if a > b then a - b else b - a
  }

  // The subtraction of the casts is the true distance, even where the signed one would overflow.
  lemma SignedSubtraction(a: int64, b: int64)
    requires a >= b
    ensures WrappingSub(ToUnsigned(a), ToUnsigned(b)) == Distance(a, b)
  {
    var d := ToUnsigned(a) - ToUnsigned(b);
    assert d == a - b || d == a - b - WRAP64;
    assert (a - b - WRAP64) % WRAP64 == a - b;
  }

  // ---------- Elements in memory ----------

  type uint8 = x: int | 0 <= x < 0x100

  // The number that consecutive bytes hold, least significant first.
  function LittleEndian(bytes: seq<uint8>): (n: nat) {
    if bytes == [] then 0 else bytes[0] + 0x100 * LittleEndian(bytes[1..])
  }

  function Power256(k: nat): (p: nat)
    ensures p > 0
  {
    if k == 0 then 1 else 0x100 * Power256(k - 1)
  }

  lemma {:induction false} LittleEndianBounded(bytes: seq<uint8>)
    ensures LittleEndian(bytes) < Power256(|bytes|)
  {
    if bytes != [] {
      LittleEndianBounded(bytes[1..]);
    }
  }

  datatype Range = RangeInt | RangeUint | RangeHex

  // What the display style says of the elements; a length other than 1, 2 or 8 means 4 bytes.
  datatype Style = Style(range: Range, length: nat) {
    function Width(): (w: nat)
      ensures w == 1 || w == 2 || w == 4 || w == 8
      ensures w == length || (w == 4 && length !in {1, 2, 8})
    {
      if length == 1 || length == 2 || length == 8 then length else 4
    }

    // The number of values an element can take.
    function Bound(): (b: nat) {
      match Width()
      case 1 => 0x100
      case 2 => 0x1_0000
      case 8 => 0x1_0000_0000_0000_0000
      case _ => 0x1_0000_0000
    }

    // The value of an element whose bytes, read unsigned, hold u.
    function Signify(u: nat): (v: int) {
      if range == RangeInt && u >= Bound() / 2 then u - Bound() else u
    }

    // Element i of an array in memory.
    function ElementAt(mem: seq<uint8>, i: nat): (v: int) {
      if i * Width() + Width() <= |mem| then
        Signify(LittleEndian(mem[i * Width()..i * Width() + Width()]))
      else
        0
    }

    predicate InRange(v: int) {
      if range == RangeInt then -(Bound() as int) / 2 <= v < Bound() / 2 else 0 <= v < Bound()
    }

    // The element as loaded into a UNITY_INT.
    function Load(v: int): (n: int64)
      requires InRange(v)
      ensures range == RangeInt ==> n == v
      ensures range != RangeInt ==> ToUnsigned(n) == v
    {
      if range == RangeInt then v else ToSigned(v)
    }

    // A loaded value as the failure message shows it: short unsigned ones are masked.
    function Shown(n: int64): (s: int64) {
      if range == RangeUint && Width() < 4 then n % Bound() else n
    }
  }

  lemma {:induction false} BoundIsPower(style: Style)
    ensures style.Bound() == Power256(style.Width())
  {
    assert Power256(2) == 0x1_0000;
    assert Power256(4) == 0x1_0000_0000;
    assert Power256(6) == 0x1_0000_0000_0000;
  }

  lemma ElementInRange(style: Style, mem: seq<uint8>, i: nat)
    ensures style.InRange(style.ElementAt(mem, i))
  {
    var w := style.Width();
    BoundIsPower(style);
    if i * w + w <= |mem| {
      LittleEndianBounded(mem[i * w..i * w + w]);
    }
  }

  // Byte j of a number's bytes is its digit of weight 256^j.
  lemma {:induction false} LittleEndianDigit(bytes: seq<uint8>, j: nat)
    requires j < |bytes|
    ensures LittleEndian(bytes) / Power256(j) % 0x100 == bytes[j]
  {
    var rest := LittleEndian(bytes[1..]);
    if j > 0 {
      LittleEndianDigit(bytes[1..], j - 1);
      DivideTwice(bytes[0], rest, Power256(j - 1));
    }
  }

  lemma DivideTwice(low: uint8, rest: nat, p: nat)
    requires p > 0
    ensures (low + 0x100 * rest) / (0x100 * p) == rest / p
  {
    var q, r := rest / p, rest % p;
    assert rest == q * p + r;
    assert low + 0x100 * rest == q * (0x100 * p) + (0x100 * r + low);
    DivModUnique(low + 0x100 * rest, 0x100 * p, q, 0x100 * r + low);
  }

  // Main result on loads: an element is the number in its range that is congruent to what its
  // bytes hold modulo the number of values of its type: two's complement when signed.
  lemma ElementIsTwosComplement(style: Style, mem: seq<uint8>, i: nat)
    requires i * style.Width() + style.Width() <= |mem|
    ensures var u := LittleEndian(mem[i * style.Width()..i * style.Width() + style.Width()]);
            var v, bound := style.ElementAt(mem, i), Power256(style.Width());
            && (v - u) % bound == 0
            && (if style.range == RangeInt then -(bound as int) <= 2 * v < bound else 0 <= v < bound)
  {
    hide LittleEndian, Power256;
    var w := style.Width();
    var u := LittleEndian(mem[i * w..i * w + w]);
    BoundIsPower(style);
    LittleEndianBounded(mem[i * w..i * w + w]);
    ElementInRange(style, mem, i);
    MultipleOfBound(style, u);
  }

  lemma MultipleOfBound(style: Style, u: nat)
    ensures (style.Signify(u) - u) % style.Bound() == 0
  {}

  datatype Walk = ArrayToArray | ArrayToVal

  // How an assertion ends. Skipped: the test had already failed or been ignored. Beyond carries
  // the index and the two values of the failure message.
  datatype Verdict = Skipped | Passed | Pointless | NullPointer | Beyond(index: nat, expected: int64, actual: int64)

  function ExpectedIndex(walk: Walk, i: nat): (j: nat)
    ensures j == if walk.ArrayToVal? then 0 else i
  {
    if walk.ArrayToArray? then i else 0
  }

  // ---------- The reference ----------

  // The first n elements are within delta of their partners, by true distance.
  ghost predicate AllWithin(
    delta: nat, style: Style, expected: seq<uint8>, actual: seq<uint8>, walk: Walk, n: nat)
  {
    forall i :: 0 <= i < n ==>
      Distance(style.ElementAt(expected, ExpectedIndex(walk, i)), style.ElementAt(actual, i)) <= delta
  }

  // k is the first element that is not.
  ghost predicate IsFirstBeyond(
    delta: nat, style: Style, expected: seq<uint8>, actual: seq<uint8>, walk: Walk, n: nat, k: nat)
  {
    && k < n
    && Distance(style.ElementAt(expected, ExpectedIndex(walk, k)), style.ElementAt(actual, k)) > delta
    && AllWithin(delta, style, expected, actual, walk, k)
  }

  // The message shows the elements' own values.
  ghost predicate ShowsElement(style: Style, shown: int64, v: int) {
    if style.range == RangeInt then shown == v else ToUnsigned(shown) == v
  }

  class Unity {
    var currentTestFailed: bool
    var currentTestIgnored: bool

    constructor ()
      ensures !currentTestFailed && !currentTestIgnored
    {
      currentTestFailed, currentTestIgnored := false, false;
    }

    ghost predicate Active()
      reads this
    {
      !currentTestFailed && !currentTestIgnored
    }

    method AssertIntNumbersWithin(delta: uint64, expected: int64, actual: int64)
      modifies this`currentTestFailed
      ensures !old(Active()) ==> currentTestFailed == old(currentTestFailed)
      ensures old(Active()) ==> (currentTestFailed <==> Distance(actual, expected) > delta)
    {
      if currentTestFailed || currentTestIgnored {
        return;
      }
      currentTestFailed := BeyondSigned(delta, expected, actual);
    }

    method AssertUintNumbersWithin(delta: uint64, expected: uint64, actual: uint64)
      modifies this`currentTestFailed
      ensures !old(Active()) ==> currentTestFailed == old(currentTestFailed)
      ensures old(Active()) ==> (currentTestFailed <==> Distance(actual, expected) > delta)
    {
      if currentTestFailed || currentTestIgnored {
        return;
      }
      currentTestFailed := BeyondUnsigned(delta, expected, actual);
    }

    // The arrays are bytes in memory; they must hold the elements that are going to be read.
    method AssertNumbersArrayWithin(
      delta: uint64, expected: array?<uint8>, actual: array?<uint8>, numElements: nat, style: Style, walk: Walk)
      returns (v: Verdict)
      requires Active() && expected != null && actual != null && expected != actual && numElements > 0 ==>
                 && numElements * style.Width() <= actual.Length
                 && (if walk == ArrayToArray then numElements else 1) * style.Width() <= expected.Length
      modifies this`currentTestFailed
      ensures v == Skipped <==> !old(Active())
      ensures v == Skipped ==> currentTestFailed == old(currentTestFailed)
      ensures v != Skipped ==> (currentTestFailed <==> v != Passed)
      ensures v != Skipped ==> (v == Pointless <==> numElements == 0)
      ensures v != Skipped && numElements > 0 && expected == actual ==> v == Passed
      ensures v != Skipped && numElements > 0 && expected != actual ==>
                (v == NullPointer <==> expected == null || actual == null)
      ensures v != Skipped && numElements > 0 && expected != actual && expected != null && actual != null ==>
                && (v == Passed <==> AllWithin(delta, style, expected[..], actual[..], walk, numElements))
                && (v != Passed ==>
                      && v.Beyond?
                      && IsFirstBeyond(delta, style, expected[..], actual[..], walk, numElements, v.index)
                      && ShowsElement(style, v.expected, style.ElementAt(expected[..], ExpectedIndex(walk, v.index)))
                      && ShowsElement(style, v.actual, style.ElementAt(actual[..], v.index)))
    {
      hide Distance;
      if currentTestFailed || currentTestIgnored {
        return Skipped;
      }
      if numElements == 0 {
        currentTestFailed := true;
        return Pointless;
      }
      if expected == actual {
        return Passed;
      }
      if expected == null || actual == null {
        currentTestFailed := true;
        return NullPointer;
      }
      v := CompareElements(delta, expected, actual, numElements, style, walk);
      currentTestFailed := v != Passed;
    }
  }

  lemma OffsetWithin(i: nat, n: nat, w: nat)
    requires i < n
    ensures i * w + w <= n * w
    ensures (i + 1) * w == i * w + w
  {
    assert (i + 1) * w <= n * w;
  }

  // The loop over elements, walking two offsets through memory.
  method CompareElements(
    delta: uint64, expected: array<uint8>, actual: array<uint8>, numElements: nat, style: Style, walk: Walk)
    returns (v: Verdict)
    requires numElements > 0 && numElements * style.Width() <= actual.Length
    requires (if walk == ArrayToArray then numElements else 1) * style.Width() <= expected.Length
    ensures v == Passed || v.Beyond?
    ensures v == Passed <==> AllWithin(delta, style, expected[..], actual[..], walk, numElements)
    ensures v.Beyond? ==>
              && IsFirstBeyond(delta, style, expected[..], actual[..], walk, numElements, v.index)
              && ShowsElement(style, v.expected, style.ElementAt(expected[..], ExpectedIndex(walk, v.index)))
              && ShowsElement(style, v.actual, style.ElementAt(actual[..], v.index))
  {
    hide Distance, LittleEndian, Style.ElementAt, Style.Width, Style.Shown, ShowsElement;
    var increment := style.Width();
    var elements := numElements;
    var expectedAt, actualAt := 0, 0;
    while elements > 0
      invariant 0 <= elements <= numElements
      invariant expectedAt == ExpectedIndex(walk, numElements - elements) * increment
      invariant actualAt == (numElements - elements) * increment
      invariant AllWithin(delta, style, expected[..], actual[..], walk, numElements - elements)
    {
      elements := elements - 1;
      ghost var i := numElements - elements - 1;
      OffsetWithin(i, numElements, increment);
      ghost var e := style.ElementAt(expected[..], ExpectedIndex(walk, i));
      ghost var a := style.ElementAt(actual[..], i);
      var expectVal := LoadAt(expected, expectedAt, style, ExpectedIndex(walk, i));
      var actualVal := LoadAt(actual, actualAt, style, i);
      var failed := LoadedBeyond(delta, style, expectVal, actualVal, e, a);
      if failed {
        ShownIsElement(style, e, expectVal);
        ShownIsElement(style, a, actualVal);
        return Beyond(numElements - elements - 1, style.Shown(expectVal), style.Shown(actualVal));
      }
      if walk == ArrayToArray {
        expectedAt := expectedAt + increment;
      }
      actualAt := actualAt + increment;
    }
    return Passed;
  }

  // Reads the element at a byte offset into a UNITY_INT.
  method LoadAt(mem: array<uint8>, at: nat, style: Style, ghost i: nat) returns (n: int64)
    requires at == i * style.Width() && at + style.Width() <= mem.Length
    ensures ShowsElement(style, n, style.ElementAt(mem[..], i)) && style.InRange(style.ElementAt(mem[..], i))
  {
    var bytes := mem[at..at + style.Width()];
    assert bytes == mem[..][at..at + style.Width()];
    ElementInRange(style, mem[..], i);
    n := style.Load(style.Signify(LittleEndian(bytes)));
  }

  lemma ShownIsElement(style: Style, v: int, n: int64)
    requires style.InRange(v) && ShowsElement(style, n, v)
    ensures ShowsElement(style, style.Shown(n), v)
  {
  }

  method BeyondSigned(delta: uint64, expected: int64, actual: int64) returns (failed: bool)
    ensures failed <==> Distance(expected, actual) > delta
  {
    if actual > expected {
      SignedSubtraction(actual, expected);
      failed := WrappingSub(ToUnsigned(actual), ToUnsigned(expected)) > delta;
    } else {
      SignedSubtraction(expected, actual);
      failed := WrappingSub(ToUnsigned(expected), ToUnsigned(actual)) > delta;
    }
  }

  method BeyondUnsigned(delta: uint64, expected: uint64, actual: uint64) returns (failed: bool)
    ensures failed <==> Distance(expected, actual) > delta
  {
    if actual > expected {
      failed := WrappingSub(actual, expected) > delta;
    } else {
      failed := WrappingSub(expected, actual) > delta;
    }
  }

  // Both operands are held in signed variables and compared as the style says.
  method LoadedBeyond(delta: uint64, style: Style, expectVal: int64, actualVal: int64, ghost e: int, ghost a: int)
    returns (failed: bool)
    requires ShowsElement(style, expectVal, e) && ShowsElement(style, actualVal, a)
    ensures failed <==> Distance(e, a) > delta
  {
    if style.range == RangeInt {
      failed := BeyondSigned(delta, expectVal, actualVal);
    } else {
      failed := BeyondUnsigned(delta, ToUnsigned(expectVal), ToUnsigned(actualVal));
    }
  }

  // ---------- The early pass for one and the same array ----------

  function Encode(u: nat, k: nat): (bytes: seq<uint8>)
    ensures |bytes| == k
    decreases k
  {
    if k == 0 then [] else [u % 0x100] + Encode(u / 0x100, k - 1)
  }

  lemma {:induction false} EncodeDecodes(u: nat, k: nat)
    requires u < Power256(k)
    ensures LittleEndian(Encode(u, k)) == u
    decreases k
  {
    if k > 0 {
      EncodeDecodes(u / 0x100, k - 1);
      assert Encode(u, k)[1..] == Encode(u / 0x100, k - 1);
    }
  }

  // The two unsigned readings whose elements lie farthest apart.
  function Lowest(style: Style): (u: nat) {
    if style.range == RangeInt then style.Bound() / 2 else 0
  }

  function Highest(style: Style): (u: nat) {
    if style.range == RangeInt then style.Bound() / 2 - 1 else style.Bound() - 1
  }

  lemma EncodedElement(style: Style, mem: seq<uint8>, i: nat, u: nat)
    requires u < style.Bound() && i * style.Width() + style.Width() <= |mem|
    requires mem[i * style.Width()..i * style.Width() + style.Width()] == Encode(u, style.Width())
    ensures style.ElementAt(mem, i) == style.Signify(u)
  {
    hide LittleEndian, Encode, Style.Signify, Style.Width, Style.Bound;
    BoundIsPower(style);
    EncodeDecodes(u, style.Width());
  }

  lemma TwoElements(style: Style, u0: nat, u1: nat, rest: seq<uint8>)
    requires u0 < style.Bound() && u1 < style.Bound()
    ensures var mem := Encode(u0, style.Width()) + Encode(u1, style.Width()) + rest;
            style.ElementAt(mem, 0) == style.Signify(u0) && style.ElementAt(mem, 1) == style.Signify(u1)
  {
    hide LittleEndian, Encode, Style.Signify, Style.Width, Style.Bound, Style.ElementAt;
    var w := style.Width();
    var mem := Encode(u0, w) + Encode(u1, w) + rest;
    assert 0 * w == 0 && 1 * w == w;
    assert mem[0..w] == Encode(u0, w) && mem[w..w + w] == Encode(u1, w);
    EncodedElement(style, mem, 0, u0);
    EncodedElement(style, mem, 1, u1);
  }

  // Passing the same array twice passes at once, whatever it holds. That verdict is right for
  // every content exactly when elements are compared in pairs, or there is only one, or no two
  // values of the type are more than delta apart.
  lemma {:induction false} SameArrayVerdict(delta: nat, style: Style, walk: Walk, n: nat)
    requires n > 0
    ensures (forall mem: seq<uint8> | |mem| == n * style.Width() :: AllWithin(delta, style, mem, mem, walk, n)) <==>
              walk == ArrayToArray || n == 1 || delta >= style.Bound() - 1
  {
    if walk == ArrayToArray || n == 1 || delta >= style.Bound() - 1 {
      forall mem: seq<uint8>, i | |mem| == n * style.Width() && 0 <= i < n
        ensures Distance(style.ElementAt(mem, ExpectedIndex(walk, i)), style.ElementAt(mem, i)) <= delta
      {
        ElementInRange(style, mem, ExpectedIndex(walk, i));
        ElementInRange(style, mem, i);
      }
    } else {
      var w := style.Width();
      OffsetWithin(1, n, w);
      var rest: seq<uint8> := seq(n * w - 2 * w, _ => 0);
      var mem := Encode(Lowest(style), w) + Encode(Highest(style), w) + rest;
      TwoElements(style, Lowest(style), Highest(style), rest);
      assert |mem| == n * w;
      assert Distance(style.ElementAt(mem, ExpectedIndex(walk, 1)), style.ElementAt(mem, 1)) == style.Bound() - 1;
      assert !AllWithin(delta, style, mem, mem, walk, n);
    }
  }

  // An input: the array 1, 2 compared as a whole with its own first element.
  method SameArrayPasses() returns (v: Verdict)
    ensures v == Passed
    ensures !AllWithin(0, Style(RangeInt, 1), [1, 2], [1, 2], ArrayToVal, 2)
  {
    hide AllWithin, Style.ElementAt;
    var unity := new Unity();
    var a := new uint8[2](i => i + 1);
    v := unity.AssertNumbersArrayWithin(0, a, a, 2, Style(RangeInt, 1), ArrayToVal);
    OneThenTwo();
  }

  lemma OneThenTwo()
    ensures !AllWithin(0, Style(RangeInt, 1), [1, 2], [1, 2], ArrayToVal, 2)
  {
    var mem: seq<uint8> := [1, 2];
    assert mem[0..1] == [1] && mem[1..2] == [2];
    assert LittleEndian([1]) == 1 && LittleEndian([2]) == 2;
    var style := Style(RangeInt, 1);
    assert Distance(style.ElementAt(mem, ExpectedIndex(ArrayToVal, 1)), style.ElementAt(mem, 1)) == 1;
  }
}
