/** An ECU: sending and receiving through its HSM, with the IDS-driven fail-safe. */
module Ecu {
  import opened Options
  import opened Xor
  import opened Can
  import opened Hsm
  import opened Ids

  // ---------- Specification ----------

  datatype EcuState = EcuState(ids: Counters, failSafe: bool)

  const FRESH: EcuState := EcuState(ZERO, false)

  function CountUnsecured(s: EcuState): (r: EcuState) {
    var c := Increment(s.ids.unsecuredFrames);
    EcuState(s.ids.(unsecuredFrames := c), s.failSafe || Judge(c, UNSECURED_FRAME_THRESHOLD) == IdsFailSafe)
  }

  function CountMacError(s: EcuState): (r: EcuState) {
    var c := Increment(s.ids.macErrors);
    EcuState(s.ids.(macErrors := c), s.failSafe || Judge(c, MAC_ERROR_THRESHOLD) == IdsFailSafe)
  }

  function AfterSend(s: EcuState, f: Frame): (r: EcuState) {
    if s.failSafe || f.secured then s else CountUnsecured(s)
  }

  // The frame handed to the network, if any.
  function Handed(key: seq<byte>, s: EcuState, f: Frame): (w: Option<Frame>) {
    if s.failSafe then None
    else if f.secured then Some(Protect(key, f))
    else if CountUnsecured(s).failSafe then None
    else Some(f)
  }

  function AfterReceive(key: seq<byte>, s: EcuState, f: Frame): (r: EcuState) {
    if !f.secured then CountUnsecured(s)
    else if !FrameOk(key, f) then CountMacError(s)
    else s
  }

  // ---------- The ECU object ----------

  class EcuNode {
    var name: seq<byte>
    var sockfd: int
    const hsm: HsmContext
    const ids: IdsCounters
    var failSafe: bool

    ghost predicate Valid() {
      hsm.Valid()
    }

    ghost function State(): (s: EcuState)
      reads this, ids
    {
      EcuState(ids.Value(), failSafe)
    }

    constructor (name: seq<byte>, sockfd: int)
      requires name != [] && sockfd >= 0
      ensures Valid() && fresh(hsm) && fresh(hsm.commKey) && fresh(ids)
      ensures State() == FRESH && hsm.Key() == CommKey(name) && this.sockfd == sockfd
      ensures this.name == if |name| <= 31 then name else name[..31]
    {
      this.name := if |name| <= 31 then name else name[..31];
      this.sockfd := sockfd;
      hsm := new HsmContext(name);
      ids := new IdsCounters();
      failSafe := false;
    }

    // connected is the descriptor that connecting to the bus returned.
    static method Init(name: seq<byte>, connected: int) returns (ecu: EcuNode?)
      requires name != []
      ensures ecu == null <==> connected < 0
      ensures ecu != null ==> fresh(ecu) && fresh(ecu.ids) && fresh(ecu.hsm) && fresh(ecu.hsm.commKey)
      ensures ecu != null ==> ecu.Valid() && ecu.State() == FRESH && ecu.hsm.Key() == CommKey(name)
      ensures ecu != null ==> ecu.sockfd == connected && ecu.name <= name
      ensures ecu != null ==> |ecu.name| <= 31 && (|name| <= 31 ==> ecu.name == name)
      ensures ecu != null && |name| > 31 ==> |ecu.name| == 31
    {
      if connected < 0 {
        return null;
      }
      ecu := new EcuNode(name, connected);
    }

    // accepted is what the network answers if a frame is handed to it.
    method Send(frame: CanFrame, accepted: bool) returns (ok: bool, handed: Option<Frame>)
      requires Valid() && frame.Valid() && frame.mac != hsm.commKey
      modifies this`failSafe, ids, frame, frame.mac
      ensures State() == AfterSend(old(State()), old(frame.Value()))
      ensures handed == Handed(hsm.Key(), old(State()), old(frame.Value()))
      ensures ok == (handed.Some? && accepted)
      ensures handed.Some? ==> frame.Value() == handed.value
      ensures handed.None? ==> frame.Value() == old(frame.Value())
      ensures hsm.Key() == old(hsm.Key())
    {
      hide Protect;
      if failSafe {
        return false, None;
      }
      if !frame.secured {
        var st := ids.UpdateOnUnsecured();
        if st == IdsFailSafe {
          failSafe := true;
          return false, None;
        }
      } else {
        var _ := hsm.ProtectFrame(frame);
      }
      var snapshot := frame.Snapshot();
      handed := Some(snapshot);
      ok := accepted;
    }

    // incoming is what the network delivers; None is a failed receive.
    method Receive(frame: CanFrame, incoming: Option<Frame>) returns (ok: bool)
      requires Valid() && frame.Valid() && frame.mac != hsm.commKey && frame.data != hsm.commKey
      modifies this`failSafe, ids, frame, frame.data, frame.mac
      ensures ok == incoming.Some?
      ensures ok ==> frame.Value() == incoming.value
      ensures ok ==> State() == AfterReceive(hsm.Key(), old(State()), incoming.value)
      ensures !ok ==> State() == old(State())
      ensures hsm.Key() == old(hsm.Key())
    {
      hide FrameOk;
      if incoming.None? {
        return false;
      }
      frame.Fill(incoming.value);
      if !frame.secured {
        var st := ids.UpdateOnUnsecured();
        if st == IdsFailSafe {
          failSafe := true;
        }
        return true;
      }
      var verified := hsm.VerifyFrame(frame);
      if !verified {
        var st := ids.UpdateOnMacError();
        if st == IdsFailSafe {
          failSafe := true;
        }
      }
      return true;
    }
  }

  // ---------- Histories ----------

  datatype Call = CallSend(f: Frame) | CallReceive(f: Frame) | CallReceiveNothing

  function AfterCall(key: seq<byte>, s: EcuState, c: Call): (r: EcuState) {
    match c
    case CallSend(f) => AfterSend(s, f)
    case CallReceive(f) => AfterReceive(key, s, f)
    case CallReceiveNothing => s
  }

  function StateAfter(key: seq<byte>, calls: seq<Call>): (s: EcuState) {
    if calls == [] then FRESH else AfterCall(key, StateAfter(key, calls[..|calls| - 1]), calls[|calls| - 1])
  }

  // Every frame handed to the network in a history, in order.
  function Wire(key: seq<byte>, calls: seq<Call>): (w: seq<Frame>) {
    if calls == [] then
      []
    else
      var n := |calls| - 1;
      Wire(key, calls[..n]) + (
        if calls[n].CallSend? then
          var h := Handed(key, StateAfter(key, calls[..n]), calls[n].f);
          if h.Some? then [h.value] else []
        else [])
  }

  // ---------- What the history alone says ----------

  predicate CarriesUnsecured(c: Call) {
    !c.CallReceiveNothing? && !c.f.secured
  }

  predicate FailsVerification(key: seq<byte>, c: Call) {
    c.CallReceive? && c.f.secured && !FrameOk(key, c.f)
  }

  // Received secured frames that failed verification, counted without bound.
  function Failures(key: seq<byte>, calls: seq<Call>): (n: nat) {
    if calls == [] then 0
    else Failures(key, calls[..|calls| - 1]) + (if FailsVerification(key, calls[|calls| - 1]) then 1 else 0)
  }

  // One unsecured frame sent or received, or three verification failures.
  predicate Tripped(key: seq<byte>, calls: seq<Call>) {
    (exists c <- calls :: CarriesUnsecured(c)) || Failures(key, calls) >= 3
  }

  // Unsecured frames: every received one, and those sent while nothing had tripped the ECU.
  function Unsecured(key: seq<byte>, calls: seq<Call>): (n: nat) {
    if calls == [] then 0
    else
      var n := |calls| - 1;
      Unsecured(key, calls[..n]) +
      if CarriesUnsecured(calls[n]) && (calls[n].CallReceive? || !Tripped(key, calls[..n])) then 1 else 0
  }

  ghost predicate Agree(key: seq<byte>, calls: seq<Call>, s: EcuState) {
    && (s.failSafe <==> Tripped(key, calls))
    && (!s.failSafe ==> Unsecured(key, calls) == 0)
    && s.ids == Counters(Failures(key, calls) % WRAP, 0, Unsecured(key, calls) % WRAP)
  }

  lemma TrippedStep(key: seq<byte>, calls: seq<Call>, c: Call)
    ensures Failures(key, calls + [c]) == Failures(key, calls) + (if FailsVerification(key, c) then 1 else 0)
    ensures Tripped(key, calls + [c]) <==>
              Tripped(key, calls) || CarriesUnsecured(c) || (FailsVerification(key, c) && Failures(key, calls) == 2)
    ensures Unsecured(key, calls + [c]) ==
              Unsecured(key, calls) + if CarriesUnsecured(c) && (c.CallReceive? || !Tripped(key, calls)) then 1 else 0
  {
    hide FailsVerification, CarriesUnsecured;
    var more := calls + [c];
    assert more[..|more| - 1] == calls;
    assert c in more && (forall x <- calls :: x in more) && (forall x <- more :: x in calls || x == c);
  }

  lemma {:induction false} AgreementKept(key: seq<byte>, calls: seq<Call>, s: EcuState, c: Call)
    requires Agree(key, calls, s)
    ensures Agree(key, calls + [c], AfterCall(key, s, c))
  {
    hide FrameOk, Increment, Tripped, Failures, Unsecured;
    var m, u := Failures(key, calls), Unsecured(key, calls);
    TrippedStep(key, calls, c);
    IncrementWraps(m);
    IncrementWraps(u);
    if !s.failSafe {
      UntrippedFailures(key, calls);
      assert (m + 1) % WRAP == m + 1 && (u + 1) % WRAP == 1;
    }
  }

  lemma UntrippedFailures(key: seq<byte>, calls: seq<Call>)
    requires !Tripped(key, calls)
    ensures Failures(key, calls) < 3
  {}

  lemma {:induction false} HistoryAgrees(key: seq<byte>, calls: seq<Call>)
    ensures Agree(key, calls, StateAfter(key, calls))
  {
    hide AfterCall, Agree;
    if calls == [] {
      FreshAgrees(key);
    } else {
      var n := |calls| - 1;
      HistoryAgrees(key, calls[..n]);
      AgreementKept(key, calls[..n], StateAfter(key, calls[..n]), calls[n]);
      assert calls[..n] + [calls[n]] == calls;
    }
  }

  lemma FreshAgrees(key: seq<byte>)
    ensures Agree(key, [], FRESH)
  {}

  // Main result: over any history, however long, fail-safe holds exactly when some call carried an
  // unsecured frame or three received frames failed verification, and each counter is its count
  // modulo 2^32.
  lemma {:induction false} FailSafeIffTripped(key: seq<byte>, calls: seq<Call>)
    ensures StateAfter(key, calls).failSafe <==>
              (exists c <- calls :: CarriesUnsecured(c)) || Failures(key, calls) >= 3
    ensures StateAfter(key, calls).ids ==
              Counters(Failures(key, calls) % WRAP, 0, Unsecured(key, calls) % WRAP)
    ensures !StateAfter(key, calls).failSafe ==> Unsecured(key, calls) == 0
  {
    hide StateAfter, Failures, Unsecured, CarriesUnsecured;
    HistoryAgrees(key, calls);
  }

  // Fail-safe is never left, and nothing is sent from then on.
  lemma {:induction false} FailSafeIsForever(key: seq<byte>, calls: seq<Call>, more: seq<Call>)
    requires StateAfter(key, calls).failSafe
    ensures StateAfter(key, calls + more).failSafe
    ensures Wire(key, calls + more) == Wire(key, calls)
  {
    hide FrameOk, Protect;
    if more == [] {
      assert calls + more == calls;
    } else {
      var n := |more| - 1;
      assert (calls + more)[..|calls + more| - 1] == calls + more[..n];
      FailSafeIsForever(key, calls, more[..n]);
    }
  }

  // The frames a history ought to send: the protected form of each secured frame passed in
  // before anything tripped the ECU.
  function DueOnWire(key: seq<byte>, calls: seq<Call>): (w: seq<Frame>) {
    if calls == [] then []
    else
      var n := |calls| - 1;
      DueOnWire(key, calls[..n]) +
      if calls[n].CallSend? && calls[n].f.secured && !Tripped(key, calls[..n]) then [Protect(key, calls[n].f)] else []
  }

  // Main result: exactly those frames reach the network, in that order.
  lemma {:induction false} WireIsDue(key: seq<byte>, calls: seq<Call>)
    ensures Wire(key, calls) == DueOnWire(key, calls)
  {
    hide FrameOk, Protect, Tripped, AfterCall;
    if calls != [] {
      var n := |calls| - 1;
      WireIsDue(key, calls[..n]);
      HistoryAgrees(key, calls[..n]);
    }
  }

  // Main result: whatever callers pass in, every frame that reaches the network is secured
  // and verifies under the sender's own key.
  lemma {:induction false} WireIsProtected(key: seq<byte>, calls: seq<Call>)
    ensures forall f <- Wire(key, calls) :: f.secured && FrameOk(key, f)
  {
    hide FrameOk, Protect;
    if calls != [] {
      var n := |calls| - 1;
      WireIsProtected(key, calls[..n]);
      FailSafeIffTripped(key, calls[..n]);
      if calls[n].CallSend? {
        ProtectIdempotent(key, calls[n].f);
      }
    }
  }

  // An unsecured frame would be forwarded only by an ECU that is not in fail-safe although its
  // counter stands one short of wrapping; no history leads there.
  lemma UnsecuredForwarding(key: seq<byte>, s: EcuState, f: Frame)
    requires !f.secured
    ensures Handed(key, s, f) ==
              if !s.failSafe && s.ids.unsecuredFrames == 0x1_0000_0000 - 1 then Some(f) else None
  {
  }

  lemma UnsecuredForwardingUnreachable(key: seq<byte>, calls: seq<Call>, f: Frame)
    requires !f.secured
    ensures Handed(key, StateAfter(key, calls), f).None?
    ensures !StateAfter(key, calls).failSafe ==> StateAfter(key, calls).ids.unsecuredFrames == 0
  {
    hide FrameOk;
    FailSafeIffTripped(key, calls);
  }
}
