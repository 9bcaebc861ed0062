/** XOR folds of byte strings: the accumulator loops of the message and memory digests. */
module Xor {
  type byte = bv8

  function Sum(x: byte, y: byte): (s: byte) { x ^ y }

  function XorAll(s: seq<byte>): (acc: byte) {
    if s == [] then 0 else Sum(XorAll(s[..|s| - 1]), s[|s| - 1])
  }

  function ZeroBytes(n: nat): (z: seq<byte>) {
    seq(n, _ => 0)
  }

  // ---------- Laws of Sum ----------

  lemma SumAssociates(x: byte, y: byte, z: byte)
    ensures Sum(Sum(x, y), z) == Sum(x, Sum(y, z))
  {}

  lemma SumCommutes(x: byte, y: byte)
    ensures Sum(x, y) == Sum(y, x)
  {}

  lemma SumZero(x: byte)
    ensures Sum(x, 0) == x == Sum(0, x)
    ensures Sum(x, x) == 0
  {}

  lemma SumInjective(k: byte, l: byte, b: byte)
    ensures Sum(k, b) == Sum(l, b) <==> k == l
  {}

  lemma SumExchange(a: byte, b: byte, x: byte, y: byte)
    ensures Sum(Sum(a, b), Sum(x, y)) == Sum(Sum(a, x), Sum(b, y))
  {
    hide Sum;
    SumAssociates(Sum(a, b), x, y);
    SumAssociates(a, b, x);
    SumCommutes(b, x);
    SumAssociates(a, x, b);
    SumAssociates(Sum(a, x), b, y);
  }

  // ---------- Laws of the fold ----------

  lemma {:induction false} XorAllAppend(a: seq<byte>, b: seq<byte>)
    ensures XorAll(a + b) == Sum(XorAll(a), XorAll(b))
  {
    hide Sum;
    if b == [] {
      assert a + b == a;
      SumZero(XorAll(a));
    } else {
      var n := |b| - 1;
      assert (a + b)[..|a + b| - 1] == a + b[..n];
      XorAllAppend(a, b[..n]);
      SumAssociates(XorAll(a), XorAll(b[..n]), b[n]);
    }
  }

  lemma XorAllSingle(b: byte)
    ensures XorAll([]) == 0 && XorAll([b]) == b
  {
    var s: seq<byte> := [b];
    assert s[..0] == [];
  }

  // Replacing one byte moves the fold by the difference of the two bytes.
  lemma {:induction false} XorAllUpdate(s: seq<byte>, i: nat, v: byte)
    requires i < |s|
    ensures XorAll(s[i := v]) == Sum(XorAll(s), Sum(s[i], v))
  {
    hide Sum;
    var n := |s| - 1;
    var front := XorAll(s[..n]);
    if i == n {
      assert s[i := v][..n] == s[..n];
      SumAssociates(front, s[i], Sum(s[i], v));
      SumAssociates(s[i], s[i], v);
      SumZero(s[i]);
      SumZero(v);
    } else {
      assert s[i := v][..n] == s[..n][i := v];
      XorAllUpdate(s[..n], i, v);
      SumAssociates(front, Sum(s[i], v), s[n]);
      SumCommutes(Sum(s[i], v), s[n]);
      SumAssociates(front, s[n], Sum(s[i], v));
    }
  }

  lemma {:induction false} XorAllZeros(s: seq<byte>)
    requires forall i :: 0 <= i < |s| ==> s[i] == 0
    ensures XorAll(s) == 0
  {
    if s != [] {
      XorAllZeros(s[..|s| - 1]);
    }
  }

  // The accumulator loop of the digests.
  method FoldInto(start: byte, data: array<byte>, len: nat) returns (acc: byte)
    requires len <= data.Length
    ensures acc == Sum(start, XorAll(data[..len]))
  {
    hide Sum;
    acc := start;
    SumZero(start);
    var i := 0;
    while i < len
      invariant 0 <= i <= len
      invariant acc == Sum(start, XorAll(data[..i]))
    {
      assert data[..i + 1][..i] == data[..i];
      SumAssociates(start, XorAll(data[..i]), data[i]);
      acc := Sum(acc, data[i]);
      i := i + 1;
    }
  }
}
