/** What an ECU's name contributes to its messages: the XOR fold of the derived key. */
module KeyFold {
  import opened Xor
  import opened Arithmetic
  import opened Hsm
  import Can

  function Fold(name: seq<byte>): (acc: byte)
    requires name != []
  {
    XorAll(CommKey(name))
  }

  // The first n characters of name repeated end to end.
  function Cycle(name: seq<byte>, n: nat): (s: seq<byte>)
    requires name != []
    ensures |s| == n
  {
    seq(n, i requires 0 <= i < n => name[i % |name|])
  }

  // How often character j of a name of length len is visited by i % len for i < n.
  function Visits(j: nat, len: nat, n: nat): (v: nat)
    requires len > 0
  {
    if n == 0 then 0 else Visits(j, len, n - 1) + (if (n - 1) % len == j then 1 else 0)
  }

  // The characters visited an odd number of times, all others blanked.
  function OddlyVisited(name: seq<byte>, n: nat): (s: seq<byte>)
    requires name != []
    ensures |s| == |name|
  {
    seq(|name|, j requires 0 <= j < |name| => if Visits(j, |name|, n) % 2 == 1 then name[j] else 0)
  }

  // ---------- The index bytes cancel ----------

  function Indices(n: nat): (s: seq<byte>)
    requires n <= 256
    ensures |s| == n
  {
    seq(n, i requires 0 <= i < n => Index(i))
  }

  lemma FourIndices(n: nat)
    requires n + 4 <= 256
    ensures XorAll(Indices(n + 4)) ==
              Sum(Sum(Sum(Sum(XorAll(Indices(n)), Index(n)), Index(n + 1)), Index(n + 2)), Index(n + 3))
  {
    hide Index, XorAll, Indices, Sum;
    NextIndex(n);
    NextIndex(n + 1);
    NextIndex(n + 2);
    NextIndex(n + 3);
  }

  lemma NextIndex(n: nat)
    requires n < 256
    ensures XorAll(Indices(n + 1)) == Sum(XorAll(Indices(n)), Index(n))
  {
    hide Index, Sum;
    assert Indices(n + 1)[..n] == Indices(n);
  }

  lemma IndicesCancel()
    ensures XorAll(Indices(KEY_SIZE)) == 0
  {
    hide XorAll, Indices;
    NoIndices();
    FourIndices(0);
    FourIndices(4);
    FourIndices(8);
    FourIndices(12);
    FourIndices(16);
    FourIndices(20);
    FourIndices(24);
    FourIndices(28);
  }

  lemma NoIndices()
    ensures XorAll(Indices(0)) == 0
  {}

  lemma {:induction false} MaskedFold(name: seq<byte>, n: nat)
    requires name != [] && n <= KEY_SIZE
    ensures XorAll(CommKey(name)[..n]) == Sum(XorAll(Cycle(name, n)), XorAll(Indices(n)))
  {
    hide Index, Sum;
    if n == 0 {
      SumZero(0);
    } else {
      var m := n - 1;
      MaskedFold(name, m);
      assert CommKey(name)[..n][..m] == CommKey(name)[..m];
      assert Cycle(name, n)[..m] == Cycle(name, m);
      assert Indices(n)[..m] == Indices(m);
      SumExchange(XorAll(Cycle(name, m)), XorAll(Indices(m)), name[m % |name|], Index(m));
    }
  }

  // ---------- Repeated characters cancel in pairs ----------

  lemma {:induction false} CycleFold(name: seq<byte>, n: nat)
    requires name != []
    ensures XorAll(Cycle(name, n)) == XorAll(OddlyVisited(name, n))
  {
    if n == 0 {
      XorAllZeros(OddlyVisited(name, 0));
      XorAllZeros(Cycle(name, 0));
    } else {
      hide XorAll, Cycle, OddlyVisited, Sum;
      var m := n - 1;
      CycleFold(name, m);
      NextInCycle(name, m);
      NextVisit(name, m);
    }
  }

  // One more visit to a character switches it between blank and present.
  lemma NextVisit(name: seq<byte>, m: nat)
    requires name != []
    ensures XorAll(OddlyVisited(name, m + 1)) == Sum(XorAll(OddlyVisited(name, m)), name[m % |name|])
  {
    hide XorAll, Sum;
    var j := m % |name|;
    var before, after := OddlyVisited(name, m), OddlyVisited(name, m + 1);
    assert after == before[j := after[j]];
    XorAllUpdate(before, j, after[j]);
    ToggleByte(before[j], after[j], name[j]);
  }

  lemma NextInCycle(name: seq<byte>, m: nat)
    requires name != []
    ensures XorAll(Cycle(name, m + 1)) == Sum(XorAll(Cycle(name, m)), name[m % |name|])
  {
    hide Sum;
    assert Cycle(name, m + 1)[..m] == Cycle(name, m);
  }

  lemma ToggleByte(x: byte, y: byte, c: byte)
    requires (x == 0 && y == c) || (x == c && y == 0)
    ensures Sum(x, y) == c
  {}

  // Main result: the fold of an ECU's key is that of the characters its name repeats an odd
  // number of times over the 32 key positions.
  lemma FoldOfName(name: seq<byte>)
    requires name != []
    ensures Fold(name) == XorAll(OddlyVisited(name, KEY_SIZE))
  {
    hide Index, XorAll, Sum;
    MaskedFold(name, KEY_SIZE);
    assert CommKey(name)[..KEY_SIZE] == CommKey(name);
    IndicesCancel();
    CycleFold(name, KEY_SIZE);
    SumZero(XorAll(Cycle(name, KEY_SIZE)));
  }

  // ---------- Names of common lengths ----------

  // A character is visited once in every full round of the name, and once more if the last,
  // incomplete round reaches it.
  lemma {:induction false} VisitsOf(j: nat, len: nat, n: nat)
    requires j < len
    ensures Visits(j, len, n) == (if j < n % len then n / len + 1 else n / len)
  {
    if n == 0 {
    } else {
      VisitsOf(j, len, n - 1);
      NextQuotient(n - 1, len);
    }
  }

  lemma NextQuotient(m: nat, len: nat)
    requires len > 0
    ensures if m % len + 1 == len then (m + 1) / len == m / len + 1 && (m + 1) % len == 0
            else (m + 1) / len == m / len && (m + 1) % len == m % len + 1
  {
    var q, r := m / len, m % len;
    assert m == q * len + r;
    if r + 1 == len {
      assert m + 1 == (q + 1) * len;
      DivModUnique(m + 1, len, q + 1, 0);
    } else {
      DivModUnique(m + 1, len, q, r + 1);
    }
  }

  // A name whose length divides 16 contributes nothing: all such ECUs share one fold.
  lemma EvenNamesFoldToZero(name: seq<byte>)
    requires name != [] && 16 % |name| == 0
    ensures Fold(name) == 0
  {
    hide Fold, XorAll;
    var len := |name|;
    var q := 16 / len;
    assert 16 == q * len;
    DivModUnique(KEY_SIZE, len, 2 * q, 0);
    forall j | 0 <= j < len
      ensures OddlyVisited(name, KEY_SIZE)[j] == 0
    {
      VisitsOf(j, len, KEY_SIZE);
    }
    FoldOfName(name);
    XorAllZeros(OddlyVisited(name, KEY_SIZE));
  }

  // A name of 16 to 32 characters contributes exactly the tail that is visited once.
  lemma LongNamesFoldTheirTail(name: seq<byte>)
    requires 16 <= |name| <= KEY_SIZE
    ensures Fold(name) == XorAll(name[KEY_SIZE - |name|..])
  {
    hide Fold, XorAll;
    var len := |name|;
    var cut := KEY_SIZE - len;
    var s := OddlyVisited(name, KEY_SIZE);
    if cut < len {
      DivModUnique(KEY_SIZE, len, 1, cut);
    } else {
      DivModUnique(KEY_SIZE, len, 2, 0);
    }
    forall j | 0 <= j < len
      ensures s[j] == if j < cut then 0 else name[j]
    {
      VisitsOf(j, len, KEY_SIZE);
    }
    FoldOfName(name);
    assert s == s[..cut] + name[cut..];
    XorAllAppend(s[..cut], name[cut..]);
    XorAllZeros(s[..cut]);
    SumZero(XorAll(name[cut..]));
  }

  // ---------- The repository's ECUs ----------

  const BRAKE_CONTROLLER: seq<byte> := [
    0x62, 0x72, 0x61, 0x6B, 0x65, 0x5F, 0x63, 0x6F, 0x6E, 0x74, 0x72, 0x6F, 0x6C, 0x6C, 0x65, 0x72]
  const STEERING_CONTROLLER: seq<byte> := [
    0x73, 0x74, 0x65, 0x65, 0x72, 0x69, 0x6E, 0x67, 0x5F, 0x63, 0x6F, 0x6E, 0x74] + ROLLER
  const ROLLER: seq<byte> := [0x72, 0x6F, 0x6C, 0x6C, 0x65, 0x72]

  lemma RollerFold()
    ensures XorAll(ROLLER) == 0x0A
  {
    var s := ROLLER;
    assert s[..5][..4] == s[..4] && s[..4][..3] == s[..3] && s[..3][..2] == s[..2] && s[..2][..1] == s[..1];
    assert s[..1][..0] == [];
    assert XorAll(s[..1]) == 0x72;
    assert XorAll(s[..2]) == 0x1D;
    assert XorAll(s[..3]) == 0x71;
    assert XorAll(s[..4]) == 0x1D;
    assert XorAll(s[..5]) == 0x78;
  }

  // The four wheel names have eight characters. Frames of any such sender verify at the brake
  // controller and never at the steering controller.
  lemma WheelFramesAtControllers(wheel: seq<byte>, f: Can.Frame)
    requires wheel != [] && 16 % |wheel| == 0
    ensures FrameOk(CommKey(BRAKE_CONTROLLER), Protect(CommKey(wheel), f))
    ensures !FrameOk(CommKey(STEERING_CONTROLLER), Protect(CommKey(wheel), f))
    ensures !MacOk(CommKey(STEERING_CONTROLLER), Protect(CommKey(wheel), f))
  {
    hide XorAll, CommKey, FrameOk, MacOk, Protect;
    EvenNamesFoldToZero(wheel);
    EvenNamesFoldToZero(BRAKE_CONTROLLER);
    LongNamesFoldTheirTail(STEERING_CONTROLLER);
    assert STEERING_CONTROLLER[13..] == ROLLER;
    RollerFold();
    Interoperates(CommKey(wheel), CommKey(BRAKE_CONTROLLER), f);
    Interoperates(CommKey(wheel), CommKey(STEERING_CONTROLLER), f);
  }
}
