/** Unity's number printers on 64-bit values, and that their output reads back as the number. */
module UnityPrint {
  import opened Arithmetic

  const WRAP64: int := 0x1_0000_0000_0000_0000

  type uint64 = x: int | 0 <= x < 0x1_0000_0000_0000_0000
  type int64 = x: int | -0x8000_0000_0000_0000 <= x < 0x8000_0000_0000_0000

  // The cast from UNITY_INT to UNITY_UINT.
  function ToUnsigned(n: int64): (u: uint64)
    ensures (u - n) % WRAP64 == 0
  {
    if n < 0 then n + WRAP64 else n
  }

  // ---------- Decimal notation ----------

  function DigitChar(d: int): (c: char)
    requires 0 <= d <= 9
    ensures c == "0123456789"[d]
  {
    '0' + d as char
  }

  predicate IsDigit(c: char) {
    '0' <= c <= '9'
  }

  function Digits(n: nat): (s: string) {
    if n == 0 then "" else Digits(n / 10) + [DigitChar(n % 10)]
  }

  function Decimal(n: nat): (s: string) {
    if n == 0 then "0" else Digits(n)
  }

  function DigitValue(c: char): (d: nat)
    requires IsDigit(c)
    ensures d <= 9
  {
    c as int - '0' as int
  }

  // The number a string of digits denotes.
  function Parse(s: string): (n: nat)
    requires forall c <- s :: IsDigit(c)
  {
    if s == "" then 0 else 10 * Parse(s[..|s| - 1]) + DigitValue(s[|s| - 1])
  }

  // Digits only, at least one, and no zero in front of others.
  predicate Canonical(s: string) {
    s != "" && (forall c <- s :: IsDigit(c)) && (s[0] == '0' ==> |s| == 1)
  }

  lemma {:induction false} DigitsParse(n: nat)
    ensures forall c <- Digits(n) :: IsDigit(c)
    ensures Parse(Digits(n)) == n
    ensures n > 0 ==> Digits(n) != "" && Digits(n)[0] != '0'
  {
    if n > 0 {
      DigitsParse(n / 10);
      assert Digits(n)[..|Digits(n)| - 1] == Digits(n / 10);
    }
  }

  lemma {:induction false} ParseDigits(s: string)
    requires forall c <- s :: IsDigit(c)
    requires s != "" ==> s[0] != '0'
    ensures s == Digits(Parse(s))
    ensures s != "" ==> Parse(s) > 0
  {
    if s != "" {
      var front, d := s[..|s| - 1], DigitValue(s[|s| - 1]);
      ParseDigits(front);
      assert Parse(s) == 10 * Parse(front) + d;
      assert Parse(s) / 10 == Parse(front) && Parse(s) % 10 == d;
      assert s == front + [DigitChar(d)];
    }
  }

  // Main result: the decimal notation is canonical, reads back as the number, and is the only
  // canonical notation of it.
  lemma DecimalRoundTrip(n: nat, s: string)
    ensures Canonical(Decimal(n)) && Parse(Decimal(n)) == n
    ensures Canonical(s) && Parse(s) == n ==> s == Decimal(n)
  {
    DigitsParse(n);
    if Canonical(s) && Parse(s) == n {
      if s[0] == '0' {
        assert s[..0] == "" && s == "0";
      } else {
        ParseDigits(s);
      }
    }
  }

  lemma NestedDivision(n: nat, d: nat)
    requires d > 0
    ensures (n / d) / 10 == n / (10 * d)
  {
    var q := n / d;
    TenTimesOver(n, d, q, n % d, q / 10, q % 10);
    DivModUnique(n, 10 * d, q / 10, q % 10 * d + n % d);
  }

  lemma TenTimesOver(n: nat, d: nat, q: nat, r: nat, t: nat, u: nat)
    requires n == q * d + r && q == 10 * t + u && u <= 9 && r < d
    ensures n == t * (10 * d) + (u * d + r) && u * d + r < 10 * d
  {
    assert q * d == 10 * t * d + u * d;
    assert u * d <= 9 * d;
  }

  function Pow10(k: nat): (p: nat)
    ensures p > 0
  {
    if k == 0 then 1 else 10 * Pow10(k - 1)
  }

  method PrintNumberUnsigned(number: uint64) returns (out: string)
    ensures out == Decimal(number)
  {
    var divisor, k := LeadingDivisor(number);
    out := EmitDigits(number, divisor, k);
  }

  // The power of ten of the leading digit. The product stays within 64 bits.
  method LeadingDivisor(number: uint64) returns (divisor: uint64, ghost k: nat)
    ensures divisor == Pow10(k) && number / divisor <= 9
    ensures k > 0 ==> number / divisor >= 1
    ensures divisor <= TOP_DIVISOR
  {
    divisor := 1;
    k := 0;
    while number / divisor > 9
      invariant divisor == Pow10(k) && (k > 0 ==> number / divisor >= 1)
      decreases number - divisor
    {
      TenTimes(number, divisor);
      NestedDivision(number, divisor);
      divisor := divisor * 10;
      k := k + 1;
    }
    Pow10Gap(k);
  }

  const TOP_DIVISOR: nat := 10_000_000_000_000_000_000

  // No power of ten lies between 10^19 and the end of the 64-bit range.
  lemma {:induction false} Pow10Gap(k: nat)
    ensures k <= 19 ==> Pow10(k) <= TOP_DIVISOR
    ensures k >= 20 ==> Pow10(k) >= 10 * TOP_DIVISOR > WRAP64
  {
    if k > 19 {
      NineteenZeros();
      if k > 20 {
        Pow10Gap(k - 1);
      }
    } else {
      Pow10Monotone(k, 19);
      NineteenZeros();
    }
  }

  lemma NineteenZeros()
    ensures Pow10(19) == TOP_DIVISOR
  {
    assert Pow10(5) == 10_0000;
    assert Pow10(10) == 100_0000_0000;
    assert Pow10(15) == 1000_0000_0000_0000;
  }

  lemma {:induction false} Pow10Monotone(j: nat, k: nat)
    requires j <= k
    ensures Pow10(j) <= Pow10(k)
  {
    if j < k {
      Pow10Monotone(j, k - 1);
    }
  }

  lemma TenTimes(n: nat, d: nat)
    requires d > 0 && n / d >= 10
    ensures n >= 10 * d
  {
    assert n == (n / d) * d + n % d;
    assert (n / d) * d >= 10 * d;
  }

  function Quotient(n: nat, d: nat): (q: nat)
    requires d > 0
  {
    n / d
  }

  method EmitDigits(number: uint64, leading: uint64, ghost top: nat) returns (out: string)
    requires leading == Pow10(top) && number / leading <= 9
    requires top > 0 ==> number / leading >= 1
    ensures out == Decimal(number)
  {
    hide Quotient, Digits, Decimal, Pow10;
    var divisor := leading;
    ghost var k := top;
    out := "";
    EmitStart(number, leading);
    while divisor > 0
      invariant divisor == 0 || divisor == Pow10(k)
      invariant divisor > 0 ==> out == Digits(Quotient(number, divisor) / 10)
      invariant divisor > 0 && k > 0 ==> Quotient(number, divisor) >= 1
      invariant divisor == 0 ==> out == Decimal(number)
      decreases divisor
    {
      var q := Quotient(number, divisor);
      DigitsGrow(q);
      out := out + [DigitChar(q % 10)];
      DivisorShrinks(number, divisor, k);
      if k > 0 {
        k := k - 1;
      }
      divisor := divisor / 10;
    }
  }

  lemma EmitStart(n: nat, d: nat)
    requires d > 0 && n / d <= 9
    ensures Digits(Quotient(n, d) / 10) == "" && Quotient(n, d) == n / d
  {}

  lemma DigitsGrow(q: nat)
    ensures Digits(q / 10) + [DigitChar(q % 10)] == if q == 0 then "0" else Digits(q)
  {}

  lemma DivisorShrinks(n: nat, d: nat, k: nat)
    requires d == Pow10(k) && (k > 0 ==> Quotient(n, d) >= 1)
    ensures k == 0 ==> d / 10 == 0 && (if Quotient(n, d) == 0 then "0" else Digits(Quotient(n, d))) == Decimal(n)
    ensures k > 0 ==> d / 10 == Pow10(k - 1) && d / 10 > 0
    ensures k > 0 ==> Quotient(n, d / 10) / 10 == Quotient(n, d) && Quotient(n, d / 10) >= 1
  {
    if k > 0 {
      NestedDivision(n, Pow10(k - 1));
      assert n / Pow10(k - 1) / 10 >= 1;
    }
  }

  // ---------- Signed numbers ----------

  function SignedDecimal(n: int): (s: string) {
    if n < 0 then "-" + Decimal(-n) else Decimal(n)
  }

  function ParseSigned(s: string): (n: int)
    requires forall c <- (if s != "" && s[0] == '-' then s[1..] else s) :: IsDigit(c)
  {
    if s != "" && s[0] == '-' then -(Parse(s[1..]) as int) else Parse(s)
  }

  // The most negative number needs no exception: its magnitude 2^63 fits the unsigned type.
  method PrintNumber(numberToPrint: int64) returns (out: string)
    ensures out == SignedDecimal(numberToPrint)
  {
    hide Decimal;
    var number: uint64 := ToUnsigned(numberToPrint);
    out := "";
    if numberToPrint < 0 {
      out := "-";
      number := Increment64(Complement64(number));
      NegatedCast(numberToPrint);
    }
    var digits := PrintNumberUnsigned(number);
    out := out + digits;
  }

  function Complement64(n: uint64): (r: uint64) { WRAP64 - 1 - n }

  function Increment64(n: uint64): (r: uint64) { (n + 1) % WRAP64 }

  // Two's complement negation of a negative number's cast is its magnitude.
  lemma NegatedCast(n: int64)
    requires n < 0
    ensures n + Increment64(Complement64(ToUnsigned(n))) == 0
  {}

  // A minus sign only in front of a number other than zero, and canonical digits.
  predicate CanonicalSigned(s: string) {
    if s != "" && s[0] == '-' then Canonical(s[1..]) && s[1] != '0' else Canonical(s)
  }

  // Main result: the signed notation is canonical, carries a minus sign exactly for negative
  // numbers, and is the only canonical notation of the number.
  lemma SignedNotation(n: int, s: string)
    ensures CanonicalSigned(SignedDecimal(n)) && (SignedDecimal(n)[0] == '-' <==> n < 0)
    ensures CanonicalSigned(s) && ParseSigned(s) == n ==> s == SignedDecimal(n)
  {
    hide SignedDecimal, ParseSigned;
    SignedIsCanonical(n);
    if CanonicalSigned(s) && ParseSigned(s) == n {
      SignedIsUnique(n, s);
    }
  }

  lemma SignedIsCanonical(n: int)
    ensures CanonicalSigned(SignedDecimal(n)) && (SignedDecimal(n)[0] == '-' <==> n < 0)
  {
    hide Digits, Decimal, Parse;
    var m: nat := if n < 0 then -n else n;
    DecimalRoundTrip(m, "");
    DecimalFirst(m);
    if n < 0 {
      assert SignedDecimal(n)[1..] == Decimal(-n);
    }
  }

  lemma SignedIsUnique(n: int, s: string)
    requires CanonicalSigned(s) && ParseSigned(s) == n
    ensures s == SignedDecimal(n)
  {
    hide Digits, Decimal, Parse;
    if s[0] == '-' {
      LeadingDigitPositive(s[1..]);
      DecimalRoundTrip(-n, s[1..]);
      assert s == "-" + s[1..];
    } else {
      DecimalRoundTrip(n, s);
    }
  }

  lemma DecimalFirst(n: nat)
    ensures Decimal(n) != "" && IsDigit(Decimal(n)[0]) && (Decimal(n)[0] == '0' <==> n == 0)
  {
    DecimalRoundTrip(n, "");
    DigitsParse(n);
  }

  lemma LeadingDigitPositive(s: string)
    requires Canonical(s) && s[0] != '0'
    ensures Parse(s) > 0
  {
    ParseDigits(s);
  }

  lemma SignedRoundTrip(n: int)
    ensures var s := SignedDecimal(n);
            && (forall c <- (if s != "" && s[0] == '-' then s[1..] else s) :: IsDigit(c))
            && ParseSigned(s) == n
  {
    var s := SignedDecimal(n);
    if n < 0 {
      DecimalRoundTrip(-n, "");
      assert s[1..] == Decimal(-n);
    } else {
      DecimalRoundTrip(n, "");
      assert IsDigit(s[0]);
    }
  }

  // ---------- Hexadecimal ----------

  const MAX_NIBBLES: nat := 16

  function HexChar(d: int): (c: char)
    requires 0 <= d <= 15
    ensures c == "0123456789ABCDEF"[d]
  {
    if d <= 9 then '0' + d as char else 'A' + (d - 10) as char
  }

  predicate IsHex(c: char) {
    '0' <= c <= '9' || 'A' <= c <= 'F'
  }

  function HexValue(c: char): (d: nat)
    requires IsHex(c)
    ensures d <= 15
  {
    if c <= '9' then c as int - '0' as int else c as int - 'A' as int + 10
  }

  function ParseHex(s: string): (n: nat)
    requires forall c <- s :: IsHex(c)
  {
    if s == "" then 0 else 16 * ParseHex(s[..|s| - 1]) + HexValue(s[|s| - 1])
  }

  function Pow16(k: nat): (p: nat)
    ensures p > 0
  {
    if k == 0 then 1 else 16 * Pow16(k - 1)
  }

  lemma HexDigit(n: nat, p: nat)
    requires p > 0
    ensures n % (16 * p) == (n / p % 16) * p + n % p
  {
    var q := Quotient(n, p);
    SixteenTimes(n, p, q, n % p, q / 16, q % 16);
    DivModUnique(n, 16 * p, q / 16, q % 16 * p + n % p);
  }

  lemma SixteenTimes(n: nat, p: nat, q: nat, r: nat, t: nat, u: nat)
    requires n == q * p + r && q == 16 * t + u && u <= 15 && r < p
    ensures n == t * (16 * p) + (u * p + r) && u * p + r < 16 * p
  {
    assert q * p == 16 * t * p + u * p;
    assert u * p <= 15 * p;
  }

  // Printing the next nibble changes nothing about what the output will denote.
  lemma NibbleStep(number: nat, parsed: nat, k: nat)
    ensures ToCome(number, 16 * parsed + number / Pow16(k) % 16, k) == ToCome(number, parsed, k + 1)
  {
    var p := Pow16(k);
    HexDigit(number, p);
    MoveNibble(parsed, number / p % 16, p);
  }

  lemma MoveNibble(parsed: nat, nibble: nat, p: nat)
    ensures (16 * parsed + nibble) * p == parsed * (16 * p) + nibble * p
  {}

  // A negative or too large count means all sixteen nibbles.
  function NibbleCount(requested: int): (k: nat)
    ensures k <= 16 && (k == requested || (k == 16 && (requested < 0 || requested > 16)))
  {
    if 0 <= requested <= MAX_NIBBLES then requested else MAX_NIBBLES
  }

  method PrintNumberHex(number: uint64, nibblesToPrint: int) returns (out: string)
    ensures |out| == NibbleCount(nibblesToPrint)
    ensures forall c <- out :: IsHex(c)
    ensures ParseHex(out) == number % Pow16(NibbleCount(nibblesToPrint))
  {
    hide ParseHex, Pow16, HexChar, IsHex;
    var nibbles := nibblesToPrint;
    if nibbles < 0 || nibbles > MAX_NIBBLES {
      nibbles := MAX_NIBBLES;
    }
    ghost var total := nibbles;
    out := "";
    NothingPrinted(number, total);
    while nibbles > 0
      invariant 0 <= nibbles <= total && |out| == total - nibbles
      invariant forall c <- out :: IsHex(c)
      invariant ToCome(number, ParseHex(out), nibbles) == number % Pow16(total)
    {
      nibbles := nibbles - 1;
      var nibble := number / Pow16(nibbles) % 16;
      NibbleStep(number, ParseHex(out), nibbles);
      ParseHexSnoc(out, nibble);
      out := out + [HexChar(nibble)];
    }
    AllPrinted(number, ParseHex(out));
  }

  // What the output will denote once the remaining nibbles of number follow what was parsed.
  ghost function ToCome(number: nat, parsed: nat, nibbles: nat): (n: nat) {
    parsed * Pow16(nibbles) + number % Pow16(nibbles)
  }

  lemma NothingPrinted(number: nat, total: nat)
    ensures ParseHex("") == 0 && ToCome(number, 0, total) == number % Pow16(total)
  {}

  lemma AllPrinted(number: nat, parsed: nat)
    ensures ToCome(number, parsed, 0) == parsed
  {}

  lemma ParseHexSnoc(s: string, d: int)
    requires (forall c <- s :: IsHex(c)) && 0 <= d <= 15
    ensures forall c <- s + [HexChar(d)] :: IsHex(c)
    ensures ParseHex(s + [HexChar(d)]) == 16 * ParseHex(s) + d
  {
    assert (s + [HexChar(d)])[..|s|] == s;
  }
}
