/** The protected memory region: write, lock, secure boot, integrity check, tamper flag. */
module ProtectedMemory {
  import opened Options
  import opened Xor
  import opened Hsm

  const MAX_REGION_SIZE: nat := 4096
  const HASH_SIZE: nat := 32
  const SIGNATURE_SIZE: nat := 64

  // ---------- Specification ----------

  // sha256_dummy: one folded byte spread over 32 bytes.
  function Hash(data: seq<byte>): (h: seq<byte>)
    ensures |h| == HASH_SIZE
  {
    Spread(XorAll(data))
  }

  // The observable state; data is the whole region, stale tail bytes included.
  datatype State = State(
    data: seq<byte>,
    size: nat,
    hash: seq<byte>,
    locked: bool,
    firmwareHash: seq<byte>,
    signatureValid: bool,
    bootOk: bool,
    tampered: bool)
  {
    predicate Valid() {
      |data| == MAX_REGION_SIZE && size <= MAX_REGION_SIZE && |hash| == HASH_SIZE && |firmwareHash| == HASH_SIZE
    }

    function Contents(): (c: seq<byte>)
      requires Valid()
    {
      data[..size]
    }

    predicate Intact()
      requires Valid()
    {
      Hash(Contents()) == hash
    }

    predicate Matches()
      requires Valid()
    {
      Hash(Contents()) == firmwareHash
    }
  }

  function Initial(firmwareHash: seq<byte>): (s: State) {
    State(ZeroBytes(MAX_REGION_SIZE), 0, ZeroBytes(HASH_SIZE), false, firmwareHash, false, false, false)
  }

  // None stands for the null pointer.
  predicate WriteAllowed(s: State, input: Option<seq<byte>>) {
    input.Some? && !s.locked && |input.value| <= MAX_REGION_SIZE
  }

  function AfterWrite(s: State, input: Option<seq<byte>>): (r: State)
    requires s.Valid()
  {
    if WriteAllowed(s, input) then
      s.(data := input.value + s.data[|input.value|..], size := |input.value|, hash := Hash(input.value))
    else
      s
  }

  function AfterBoot(s: State): (r: State)
    requires s.Valid()
  {
    s.(signatureValid := true, bootOk := s.Matches())
  }

  function AfterVerify(s: State): (r: State)
    requires s.Valid()
  {
    if s.Intact() then s else s.(tampered := true)
  }

  // ---------- The memory ----------

  // Where a reader wants the size written.
  class SizeCell {
    var value: nat

    constructor (n: nat)
      ensures value == n
    {
      value := n;
    }
  }

  class Memory {
    const data: array<byte>
    var size: nat
    const hash: array<byte>
    var locked: bool
    const firmwareHash: array<byte>
    const signature: array<byte>
    var version: int
    var signatureValid: bool
    var bootOk: bool
    var tampered: bool

    ghost predicate Valid()
      reads this
    {
      && data.Length == MAX_REGION_SIZE && size <= MAX_REGION_SIZE
      && hash.Length == HASH_SIZE && firmwareHash.Length == HASH_SIZE && signature.Length == SIGNATURE_SIZE
      && data != hash && data != firmwareHash && data != signature && hash != firmwareHash && hash != signature
    }

    ghost function View(): (s: State)
      requires Valid()
      reads this, data, hash, firmwareHash
      ensures s.Valid()
    {
      State(data[..], size, hash[..], locked, firmwareHash[..], signatureValid, bootOk, tampered)
    }

    constructor (firmware: seq<byte>, sig: seq<byte>, version: int)
      requires |firmware| == HASH_SIZE && |sig| == SIGNATURE_SIZE
      ensures Valid() && fresh(data) && fresh(hash) && fresh(firmwareHash) && fresh(signature)
      ensures View() == Initial(firmware) && signature[..] == sig && this.version == version
      ensures size == 0 && !locked && !signatureValid && !bootOk && !tampered && firmwareHash[..] == firmware
      ensures (forall i :: 0 <= i < 4096 ==> data[i] == 0) && (forall i :: 0 <= i < 32 ==> hash[i] == 0)
    {
      data := new byte[MAX_REGION_SIZE](_ => 0);
      size := 0;
      hash := new byte[HASH_SIZE](_ => 0);
      locked := false;
      firmwareHash := new byte[HASH_SIZE](i requires 0 <= i < HASH_SIZE => firmware[i]);
      signature := new byte[SIGNATURE_SIZE](i requires 0 <= i < SIGNATURE_SIZE => sig[i]);
      this.version := version;
      signatureValid, bootOk, tampered := false, false, false;
    }

    method HashInto(buf: array<byte>, len: nat, out: array<byte>)
      requires len <= buf.Length && out.Length == HASH_SIZE && out != buf
      modifies out
      ensures out[..] == Hash(buf[..len])
    {
      hide Spread, Sum, XorAll;
      var acc := FoldInto(0, buf, len);
      SumZero(XorAll(buf[..len]));
      SpreadInto(acc, out);
    }

    method SecureBoot() returns (ok: bool)
      requires Valid()
      modifies this`signatureValid, this`bootOk
      ensures Valid() && View() == AfterBoot(old(View())) && ok == bootOk
    {
      hide Hash;
      signatureValid := true;
      var computed := new byte[HASH_SIZE](_ => 0);
      HashInto(data, size, computed);
      if computed[..] != firmwareHash[..] {
        bootOk := false;
        return false;
      }
      bootOk := true;
      return true;
    }

    method Lock() returns (ok: bool)
      requires Valid()
      modifies this`locked
      ensures Valid() && View() == old(View()).(locked := true) && ok
    {
      locked := true;
      return true;
    }

    // len bytes of input; the caller's buffer must hold them when they are going to be copied.
    method Write(input: array?<byte>, len: nat) returns (ok: bool)
      requires Valid() && input != data && input != hash
      requires input != null && !locked && len <= MAX_REGION_SIZE ==> len <= input.Length
      modifies this`size, data, hash
      ensures Valid()
      ensures ok == (input != null && !locked && len <= 4096)
      ensures ok ==> size == len && data[..len] == input[..len] && data[len..] == old(data[len..])
      ensures ok ==> WriteAllowed(old(View()), Some(input[..len]))
      ensures ok ==> View() == AfterWrite(old(View()), Some(input[..len]))
      ensures !ok ==> View() == old(View())
    {
      hide Hash;
      if input == null {
        return false;
      }
      if locked {
        return false;
      }
      if len > MAX_REGION_SIZE {
        return false;
      }
      forall i | 0 <= i < len {
        data[i] := input[i];
      }
      size := len;
      assert data[..] == input[..len] + old(data[..])[len..];
      assert data[..size] == input[..len];
      HashInto(data, size, hash);
      return true;
    }

    // Copies the region's contents to out and their number to the cell len; out must be able to
    // hold them.
    method Read(out: array?<byte>, len: SizeCell?) returns (ok: bool)
      requires Valid() && out != data && out != hash && out != firmwareHash
      requires out != null && len != null ==> out.Length >= size
      modifies if out == null || len == null then {} else {out, len}
      ensures Valid() && View() == old(View())
      ensures ok == (out != null && len != null)
      ensures ok ==> len.value == size && out[..size] == View().Contents() && out[size..] == old(out[size..])
    {
      if out == null || len == null {
        return false;
      }
      forall i | 0 <= i < size {
        out[i] := data[i];
      }
      len.value := size;
      return true;
    }

    method VerifyIntegrity() returns (ok: bool)
      requires Valid()
      modifies this`tampered
      ensures Valid() && View() == AfterVerify(old(View())) && ok == old(View()).Intact()
    {
      hide Hash;
      var computed := new byte[HASH_SIZE](_ => 0);
      HashInto(data, size, computed);
      if computed[..] != hash[..] {
        tampered := true;
        return false;
      }
      return true;
    }

    method FlagTamper()
      requires Valid()
      modifies this`tampered
      ensures Valid() && View() == old(View()).(tampered := true)
    {
      tampered := true;
    }
  }

  // ---------- Histories ----------

  datatype Call = Boot | DoLock | Put(input: Option<seq<byte>>) | Get | Verify | Flag

  function After(s: State, c: Call): (r: State)
    requires s.Valid()
    ensures r.Valid()
  {
    match c
    case Boot => AfterBoot(s)
    case DoLock => s.(locked := true)
    case Put(input) => AfterWrite(s, input)
    case Get => s
    case Verify => AfterVerify(s)
    case Flag => s.(tampered := true)
  }

  function Run(s: State, calls: seq<Call>): (r: State)
    requires s.Valid()
    ensures r.Valid()
  {
    if calls == [] then s else After(Run(s, calls[..|calls| - 1]), calls[|calls| - 1])
  }

  // Whether a call writes successfully, judged from the calls before it alone.
  predicate Writes(calls: seq<Call>, k: nat)
    requires k < |calls|
  {
    calls[k].Put? && calls[k].input.Some? && |calls[k].input.value| <= MAX_REGION_SIZE && DoLock !in calls[..k]
  }

  // The last successful write of a history.
  function LastWrite(calls: seq<Call>): (w: Option<seq<byte>>) {
    if calls == [] then None
    else if Writes(calls, |calls| - 1) then calls[|calls| - 1].input
    else LastWrite(calls[..|calls| - 1])
  }

  // Whether the history flagged tampering or checked integrity before any write.
  predicate Raised(calls: seq<Call>) {
    calls != [] && (
      || Raised(calls[..|calls| - 1])
      || calls[|calls| - 1] == Flag
      || (calls[|calls| - 1] == Verify && LastWrite(calls[..|calls| - 1]).None?))
  }

  lemma SpreadIsNotZero(x: byte)
    ensures Spread(x) != ZeroBytes(HASH_SIZE)
  {
    assert Spread(x)[0] == Sum(x, Index(0)) && Spread(x)[1] == Sum(x, Index(1));
    assert ZeroBytes(HASH_SIZE)[0] == 0 && ZeroBytes(HASH_SIZE)[1] == 0;
  }

  // What a history determines about the memory it leaves.
  ghost predicate Explained(firmware: seq<byte>, calls: seq<Call>, s: State)
    requires s.Valid()
  {
    && s.firmwareHash == firmware
    && (s.locked <==> DoLock in calls)
    && (s.signatureValid <==> Boot in calls)
    && (s.tampered <==> Raised(calls))
    && match LastWrite(calls)
       case None => s.size == 0 && s.hash == ZeroBytes(HASH_SIZE)
       case Some(w) => s.Contents() == w && s.hash == Hash(w)
  }

  // The cached hash agrees with recomputation exactly when something was written: right after
  // initialisation it is all zeros, which no contents hash to.
  lemma IntactIffWritten(firmware: seq<byte>, calls: seq<Call>, s: State)
    requires s.Valid() && Explained(firmware, calls, s)
    ensures s.Intact() <==> LastWrite(calls).Some?
  {
    hide XorAll;
    if LastWrite(calls).None? {
      SpreadIsNotZero(XorAll(s.Contents()));
    }
  }

  lemma ExplainedStep(firmware: seq<byte>, calls: seq<Call>, s: State, c: Call)
    requires s.Valid() && Explained(firmware, calls, s)
    ensures Explained(firmware, calls + [c], After(s, c))
  {
    hide Hash;
    assert (calls + [c])[..|calls|] == calls;
    IntactIffWritten(firmware, calls, s);
    if c.Put? && WriteAllowed(s, c.input) {
      var r := AfterWrite(s, c.input);
      assert r.Contents() == c.input.value;
    }
  }

  lemma {:induction false} HistoryExplained(firmware: seq<byte>, calls: seq<Call>)
    requires |firmware| == HASH_SIZE
    ensures Explained(firmware, calls, Run(Initial(firmware), calls))
  {
    hide Explained, After, Hash;
    if calls == [] {
      NothingExplained(firmware);
    } else {
      var n := |calls| - 1;
      HistoryExplained(firmware, calls[..n]);
      ExplainedStep(firmware, calls[..n], Run(Initial(firmware), calls[..n]), calls[n]);
      assert calls[..n] + [calls[n]] == calls;
    }
  }

  lemma NothingExplained(firmware: seq<byte>)
    requires |firmware| == HASH_SIZE
    ensures Explained(firmware, [], Initial(firmware))
  {}

  // The stored hash is 32 bytes that start with the XOR of the data and count up from it.
  lemma HashIsTag(data: seq<byte>, h: seq<byte>)
    ensures h == Hash(data) <==> IsTagOf(h, data)
  {
    hide XorAll, Spread, IsTagOf, Sum;
    TagIsMac([], data, h);
    assert [] + data == data;
    XorAllSingle(0);
    SumZero(XorAll(data));
  }

  // Main result: after any history since initialisation an integrity check succeeds exactly when
  // some write has succeeded, and the tamper flag is up exactly when it was raised by hand or by
  // a check that came before the first write. A reader gets the last successful write, even
  // when it was shorter than an earlier one.
  lemma IntegrityAndTamper(firmware: seq<byte>, calls: seq<Call>)
    requires |firmware| == HASH_SIZE
    ensures var s := Run(Initial(firmware), calls);
            && (s.Intact() <==> LastWrite(calls).Some?)
            && (s.tampered <==> Raised(calls))
            && (s.locked <==> DoLock in calls)
            && (s.signatureValid <==> Boot in calls)
            && s.Contents() == (if LastWrite(calls).Some? then LastWrite(calls).value else [])
            && s.size <= MAX_REGION_SIZE
  {
    hide Run, Hash;
    HistoryExplained(firmware, calls);
    IntactIffWritten(firmware, calls, Run(Initial(firmware), calls));
  }

  // ---------- After the lock ----------

  // Main result: once locked, contents, size and hash are frozen whatever is called, every
  // secure boot gives the same answer, and bootOk is that answer from the first one on.
  lemma {:induction false} LockFreezes(s: State, calls: seq<Call>)
    requires s.Valid() && s.locked
    ensures var r := Run(s, calls);
            && r.data == s.data && r.size == s.size && r.hash == s.hash && r.locked
            && r.firmwareHash == s.firmwareHash
            && (r.Matches() <==> s.Matches())
            && r.bootOk == if Boot in calls then s.Matches() else s.bootOk
  {
    hide Hash;
    if calls != [] {
      var n := |calls| - 1;
      LockFreezes(s, calls[..n]);
      assert calls == calls[..n] + [calls[n]];
    }
  }

  // ---------- Before the lock: bootOk can go stale ----------

  // What the calls alone say the contents are: the last successful write, or nothing.
  function Written(calls: seq<Call>): (w: seq<byte>) {
    match LastWrite(calls)
    case None => []
    case Some(w) => w
  }

  // Whether the last boot of a history met contents that hash to the firmware hash.
  predicate LastBootMatched(firmware: seq<byte>, calls: seq<Call>) {
    if calls == [] then false
    else if calls[|calls| - 1] == Boot then Hash(Written(calls[..|calls| - 1])) == firmware
    else LastBootMatched(firmware, calls[..|calls| - 1])
  }

  lemma {:induction false} MatchesWritten(firmware: seq<byte>, calls: seq<Call>)
    requires |firmware| == HASH_SIZE
    ensures Run(Initial(firmware), calls).Matches() <==> Hash(Written(calls)) == firmware
  {
    hide Run, Hash;
    HistoryExplained(firmware, calls);
    IntegrityAndTamper(firmware, calls);
  }

  lemma {:induction false} BootOkIsLastBoot(firmware: seq<byte>, calls: seq<Call>)
    requires |firmware| == HASH_SIZE
    ensures Run(Initial(firmware), calls).bootOk <==> LastBootMatched(firmware, calls)
  {
    hide Hash;
    if calls != [] {
      var n := |calls| - 1;
      BootOkIsLastBoot(firmware, calls[..n]);
      MatchesWritten(firmware, calls[..n]);
    }
  }

  // Main result: after any history bootOk tells the truth about the contents if and only if the
  // contents the last boot met and the last written ones agree on matching the firmware hash;
  // without any boot it tells the truth iff the contents do not match.
  lemma {:induction false} BootOkTruthfulIff(firmware: seq<byte>, calls: seq<Call>)
    requires |firmware| == HASH_SIZE
    ensures var s := Run(Initial(firmware), calls);
            (s.bootOk <==> s.Matches()) <==>
              (LastBootMatched(firmware, calls) <==> Hash(Written(calls)) == firmware)
  {
    hide Run, Hash, LastBootMatched, Written;
    MatchesWritten(firmware, calls);
    BootOkIsLastBoot(firmware, calls);
  }

  // The calls a caller can watch for: once booted, bootOk stays true to the contents as long as
  // no further call writes successfully, whatever else is called.
  lemma {:induction false} BootOkTruthfulUntilWritten(firmware: seq<byte>, calls: seq<Call>, b: nat)
    requires |firmware| == HASH_SIZE
    requires b < |calls| && calls[b] == Boot && forall k :: b < k < |calls| ==> !Writes(calls, k)
    ensures var s := Run(Initial(firmware), calls);
            s.bootOk <==> s.Matches()
  {
    hide Run, Hash;
    UnwrittenSinceBoot(firmware, calls, b);
    BootOkTruthfulIff(firmware, calls);
  }

  lemma {:induction false} UnwrittenSinceBoot(firmware: seq<byte>, calls: seq<Call>, b: nat)
    requires b < |calls| && calls[b] == Boot && forall k :: b < k < |calls| ==> !Writes(calls, k)
    ensures LastBootMatched(firmware, calls) <==> Hash(Written(calls)) == firmware
  {
    hide Hash;
    var n := |calls| - 1;
    if calls[n] != Boot {
      forall k | b < k < n
        ensures !Writes(calls[..n], k)
      {
        assert calls[..n][..k] == calls[..k] && !Writes(calls, k);
      }
      UnwrittenSinceBoot(firmware, calls[..n], b);
    }
    assert !Writes(calls, n);
  }

  // What a caller can check before a write: from any state, after an allowed write bootOk tells
  // the truth exactly when the new data matches the firmware hash just as bootOk says; a rejected
  // write leaves things as they were.
  lemma BootOkAfterWrite(s: State, input: Option<seq<byte>>)
    requires s.Valid()
    ensures var r := AfterWrite(s, input);
            (r.bootOk <==> r.Matches()) <==>
              if WriteAllowed(s, input) then (s.bootOk <==> Hash(input.value) == s.firmwareHash)
              else (s.bootOk <==> s.Matches())
  {
    hide Hash;
    if WriteAllowed(s, input) {
      assert AfterWrite(s, input).Contents() == input.value;
    }
  }

  // Boot accepts firmware 01; writing 02 afterwards leaves bootOk set on contents that do not match.
  lemma StaleBoot()
    ensures var s := Run(Initial(Hash([1])), [Put(Some([1])), Boot, Put(Some([2]))]);
            s.bootOk && !s.Matches() && s.Intact()
  {
    hide Hash, XorAll, Spread;
    var fw := Hash([1]);
    var c1, c2, c3: Call := Put(Some([1])), Boot, Put(Some([2]));
    var s0 := Initial(fw);
    var s1 := After(s0, c1);
    var s2 := After(s1, c2);
    var s3 := After(s2, c3);
    assert [c1, c2, c3][..2] == [c1, c2] && [c1, c2][..1] == [c1] && [c1][..0] == [];
    assert Run(s0, [c1]) == s1;
    assert Run(s0, [c1, c2]) == s2;
    assert s1.Contents() == [1] && s3.Contents() == [2];
    HashesDiffer([1], [2]);
    SingleFolds();
  }

  lemma SingleFolds()
    ensures XorAll([1]) == 1 && XorAll([2]) == 2
  {
    var one: seq<byte>, two: seq<byte> := [1], [2];
    assert one[..0] == [] && two[..0] == [];
  }

  lemma HashesDiffer(a: seq<byte>, b: seq<byte>)
    ensures Hash(a) == Hash(b) <==> XorAll(a) == XorAll(b)
  {
    hide XorAll, Spread;
    SpreadInjective(XorAll(a), XorAll(b));
  }

  // ---------- Changes behind the interface's back ----------

  // A change of the region's bytes is noticed if and only if it changes the fold of the contents.
  lemma OutOfBandChange(s: State, data: seq<byte>)
    requires s.Valid() && s.Intact() && |data| == MAX_REGION_SIZE
    ensures s.(data := data).Intact() <==> XorAll(data[..s.size]) == XorAll(s.Contents())
  {
    hide Hash, XorAll;
    HashesDiffer(data[..s.size], s.Contents());
  }

  // So is a change of the stored hash itself, always.
  lemma OutOfBandHash(s: State, hash: seq<byte>)
    requires s.Valid() && s.Intact() && |hash| == HASH_SIZE
    ensures s.(hash := hash).Intact() <==> hash == s.hash
  {
    hide Hash;
  }

  // Hence every change of a single byte of the contents is, and none beyond them.
  lemma SingleByteChange(s: State, i: nat, v: byte)
    requires s.Valid() && s.Intact() && i < MAX_REGION_SIZE && v != s.data[i]
    ensures s.(data := s.data[i := v]).Intact() <==> i >= s.size
  {
    hide Hash, XorAll, Sum;
    var data := s.data[i := v];
    OutOfBandChange(s, data);
    if i < s.size {
      assert data[..s.size] == s.Contents()[i := v];
      XorAllUpdate(s.Contents(), i, v);
      SumFixed(XorAll(s.Contents()), Sum(s.data[i], v));
      SumFixed(s.data[i], v);
      SumIsZero(s.data[i], v);
    } else {
      assert data[..s.size] == s.Contents();
    }
  }

  lemma SumFixed(x: byte, d: byte)
    ensures Sum(x, d) == x <==> d == 0
  {}

  lemma SumIsZero(x: byte, y: byte)
    ensures Sum(x, y) == 0 <==> x == y
  {}
}
