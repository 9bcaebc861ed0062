/** The security check on received frames and the controller loop built on it. */
module Controller {
  import opened Options
  import opened Xor
  import opened Can
  import opened Hsm
  import opened Ids
  import opened Ecu

  // ---------- The security check ----------

  datatype Status = SecOk | SecErrMac | SecErrDlc | SecErrSpoof

  predicate IdAllowed(id: bv32): (allowed: bool)
    ensures allowed <==> 0x100 <= id <= 0x103 || id == 0x110 || id == 0x120 || 0x300 <= id <= 0x302
  {
    match id
    case 0x100 => true
    case 0x101 => true
    case 0x102 => true
    case 0x103 => true
    case 0x110 => true
    case 0x120 => true
    case 0x300 => true
    case 0x301 => true
    case 0x302 => true
    case _ => false
  }

  // Frame is None for the null pointer.
  function CheckFrame(key: seq<byte>, frame: Option<Frame>): (s: Status)
    ensures s == SecOk <==>
              && frame.Some?
              && frame.value.dlc as nat <= MAX_DATA_LEN && IdAllowed(frame.value.id) && MacOk(key, frame.value)
    ensures s == SecErrDlc <==> frame.Some? ==> frame.value.dlc as nat > MAX_DATA_LEN
    ensures s == SecErrSpoof <==>
              frame.Some? && frame.value.dlc as nat <= MAX_DATA_LEN && !IdAllowed(frame.value.id)
  {
    match frame
    case None => SecErrDlc
    case Some(f) =>
      if f.dlc as nat > MAX_DATA_LEN then SecErrDlc
      else if !IdAllowed(f.id) then SecErrSpoof
      else if !MacOk(key, f) then SecErrMac
      else SecOk
  }

  method SecurityCheckFrame(hsm: HsmContext, frame: CanFrame?) returns (s: Status)
    requires hsm.Valid() && (frame != null ==> frame.Valid())
    ensures s == CheckFrame(hsm.Key(), if frame == null then None else Some(frame.Value()))
  {
    hide MacOk, IdAllowed;
    if frame == null {
      return SecErrDlc;
    }
    if frame.dlc as nat > MAX_DATA_LEN {
      return SecErrDlc;
    }
    if !IdAllowed(frame.id) {
      return SecErrSpoof;
    }
    var ok := hsm.VerifyMac(frame);
    return if ok then SecOk else SecErrMac;
  }

  // A frame the check passes is refused as a MAC error once any byte of its tag is changed.
  lemma ChangedMacByteRefused(key: seq<byte>, f: Frame, i: nat, b: byte)
    requires CheckFrame(key, Some(f)) == SecOk && i < MAC_LEN && b != f.mac[i]
    ensures CheckFrame(key, Some(f.(mac := f.mac[i := b]))) == SecErrMac
  {
    hide MacOk, IdAllowed;
    ChangedMacByteRejected(key, f, i, b);
  }

  // ---------- The loop ----------

  // How a controller stands after the inbox so far: still receiving, or out of its loop.
  datatype Outcome = Outcome(state: EcuState, actions: seq<byte>, running: bool)

  // What one accepted frame makes the controller do: the first payload byte of a command.
  function Action(command: bv32, f: Frame): (a: seq<byte>) {
    if f.id == command && f.dlc as nat >= 1 then [f.data[0]] else []
  }

  // None in the inbox is a failed receive.
  function Serve(key: seq<byte>, command: bv32, s: EcuState, inbox: seq<Option<Frame>>): (o: Outcome)
    decreases |inbox|
  {
    if s.failSafe then
      Outcome(s, [], false)
    else if inbox == [] then
      Outcome(s, [], true)
    else if inbox[0].None? then
      Outcome(s, [], false)
    else
      var f := inbox[0].value;
      var s' := AfterReceive(key, s, f);
      if CheckFrame(key, Some(f)) != SecOk then
        Outcome(s'.(failSafe := true), [], false)
      else
        var rest := Serve(key, command, s', inbox[1..]);
        rest.(actions := Action(command, f) + rest.actions)
  }

  method RunController(ecu: EcuNode, command: bv32, inbox: seq<Option<Frame>>)
    returns (actions: seq<byte>, running: bool)
    requires ecu.Valid()
    modifies ecu`failSafe, ecu.ids
    ensures Outcome(ecu.State(), actions, running) == Serve(ecu.hsm.Key(), command, old(ecu.State()), inbox)
    ensures ecu.hsm.Key() == old(ecu.hsm.Key())
  {
    hide CheckFrame, AfterReceive, Action, Serve;
    actions := [];
    ghost var key := ecu.hsm.Key();
    ghost var goal := Serve(key, command, ecu.State(), inbox);
    var i := 0;
    while !ecu.failSafe && i < |inbox|
      invariant 0 <= i <= |inbox|
      invariant ecu.hsm.Key() == key
      invariant goal == Prepend(actions, Serve(key, command, ecu.State(), inbox[i..]))
    {
      ServeTurn(key, command, ecu.State(), inbox, i);
      var step, goOn := ServeOne(ecu, command, inbox[i]);
      if !goOn {
        assert actions + [] == actions;
        return actions, false;
      }
      ghost var rest := Serve(key, command, ecu.State(), inbox[i + 1..]);
      assert actions + (step + rest.actions) == (actions + step) + rest.actions;
      actions := actions + step;
      i := i + 1;
    }
    running := !ecu.failSafe;
    ServeEnds(key, command, ecu.State(), inbox[i..]);
    assert actions + [] == actions;
  }

  function Prepend(actions: seq<byte>, o: Outcome): (r: Outcome) {
    o.(actions := actions + o.actions)
  }

  lemma ServeTurn(key: seq<byte>, command: bv32, s: EcuState, inbox: seq<Option<Frame>>, i: nat)
    requires i < |inbox| && !s.failSafe
    ensures Serve(key, command, s, inbox[i..]) ==
              if inbox[i].None? then Outcome(s, [], false)
              else
                var s' := AfterReceive(key, s, inbox[i].value);
                if CheckFrame(key, inbox[i]) != SecOk then Outcome(s'.(failSafe := true), [], false)
                else Prepend(Action(command, inbox[i].value), Serve(key, command, s', inbox[i + 1..]))
  {
    hide CheckFrame, AfterReceive, Action;
    assert inbox[i..][0] == inbox[i] && inbox[i..][1..] == inbox[i + 1..];
  }

  lemma ServeEnds(key: seq<byte>, command: bv32, s: EcuState, inbox: seq<Option<Frame>>)
    requires s.failSafe || inbox == []
    ensures Serve(key, command, s, inbox) == Outcome(s, [], !s.failSafe)
  {}

  // One turn of the loop: receive, check, act.
  method ServeOne(ecu: EcuNode, command: bv32, incoming: Option<Frame>) returns (step: seq<byte>, goOn: bool)
    requires ecu.Valid()
    modifies ecu`failSafe, ecu.ids
    ensures ecu.hsm.Key() == old(ecu.hsm.Key())
    ensures goOn <==> incoming.Some? && CheckFrame(ecu.hsm.Key(), incoming) == SecOk
    ensures incoming.None? ==> ecu.State() == old(ecu.State())
    ensures incoming.Some? && goOn ==> ecu.State() == AfterReceive(ecu.hsm.Key(), old(ecu.State()), incoming.value)
    ensures incoming.Some? && !goOn ==>
              ecu.State() == AfterReceive(ecu.hsm.Key(), old(ecu.State()), incoming.value).(failSafe := true)
    ensures goOn ==> step == Action(command, incoming.value)
  {
    hide CheckFrame, AfterReceive;
    step := [];
    var frame := new CanFrame();
    var received := ecu.Receive(frame, incoming);
    if !received {
      return step, false;
    }
    var status := SecurityCheckFrame(ecu.hsm, frame);
    if status != SecOk {
      ecu.failSafe := true;
      return step, false;
    }
    if frame.id == command && frame.dlc as nat >= 1 {
      step := [frame.data[0]];
    }
    goOn := true;
    assert frame.Value() == incoming.value;
  }

  // ---------- When a controller keeps running ----------

  // A frame that passes everything but possibly the CRC.
  predicate Admissible(key: seq<byte>, f: Frame) {
    f.secured && f.dlc as nat <= MAX_DATA_LEN && IdAllowed(f.id) && MacOk(key, f)
  }

  function VerifyFailures(key: seq<byte>, inbox: seq<Option<Frame>>): (n: nat) {
    if inbox == [] then 0
    else VerifyFailures(key, inbox[1..]) + (if inbox[0].Some? && !FrameOk(key, inbox[0].value) then 1 else 0)
  }

  // Main result: a fresh controller is still in its loop after an inbox exactly when every
  // receive succeeded, every frame was admissible, and at most two failed full verification.
  lemma SurvivesIff(key: seq<byte>, command: bv32, inbox: seq<Option<Frame>>)
    ensures Serve(key, command, FRESH, inbox).running <==>
              && (forall i :: 0 <= i < |inbox| ==> inbox[i].Some? && Admissible(key, inbox[i].value))
              && VerifyFailures(key, inbox) <= 2
  {
    SurvivesFrom(key, command, FRESH, inbox);
  }

  lemma {:induction false} SurvivesFrom(key: seq<byte>, command: bv32, s: EcuState, inbox: seq<Option<Frame>>)
    requires !s.failSafe && s.ids.unsecuredFrames == 0 && s.ids.macErrors < MAC_ERROR_THRESHOLD
    ensures Serve(key, command, s, inbox).running <==>
              && (forall i :: 0 <= i < |inbox| ==> inbox[i].Some? && Admissible(key, inbox[i].value))
              && s.ids.macErrors + VerifyFailures(key, inbox) <= 2
    decreases |inbox|
  {
    hide FrameOk, MacOk, IdAllowed;
    if inbox != [] && inbox[0].Some? {
      var f, rest := inbox[0].value, inbox[1..];
      assert forall i :: 1 <= i < |inbox| ==> inbox[i] == rest[i - 1];
      assert forall i :: 0 <= i < |rest| ==> rest[i] == inbox[i + 1];
      var s' := AfterReceive(key, s, f);
      if !s'.failSafe {
        SurvivesFrom(key, command, s', rest);
      }
    }
  }

  // ---------- What a controller acts on ----------

  function Commands(command: bv32, inbox: seq<Option<Frame>>): (a: seq<byte>) {
    if inbox == [] then []
    else (if inbox[0].Some? then Action(command, inbox[0].value) else []) + Commands(command, inbox[1..])
  }

  function StateAt(key: seq<byte>, s: EcuState, inbox: seq<Option<Frame>>, n: nat): (r: EcuState)
    requires n <= |inbox| && forall i :: 0 <= i < n ==> inbox[i].Some?
  {
    if n == 0 then s else AfterReceive(key, StateAt(key, s, inbox, n - 1), inbox[n - 1].value)
  }

  // The first n frames all pass the check, each in a state that is not yet fail-safe.
  ghost predicate AcceptedPrefix(key: seq<byte>, s: EcuState, inbox: seq<Option<Frame>>, n: nat) {
    && n <= |inbox|
    && (forall i :: 0 <= i < n ==> inbox[i].Some? && CheckFrame(key, inbox[i]) == SecOk)
    && (forall i :: 0 <= i < n ==> !StateAt(key, s, inbox, i).failSafe)
  }

  // The controller acts on the accepted prefix of its inbox, whole and in order. It stops at
  // the first failed receive, the first frame the check rejects, or once fail-safe is set.
  ghost predicate ActsOnPrefix(key: seq<byte>, command: bv32, s: EcuState, inbox: seq<Option<Frame>>, n: nat) {
    var o := Serve(key, command, s, inbox);
    && AcceptedPrefix(key, s, inbox, n)
    && o.actions == Commands(command, inbox[..n])
    && (n == |inbox| || StateAt(key, s, inbox, n).failSafe || inbox[n].None? || CheckFrame(key, inbox[n]) != SecOk)
    && (o.running <==> n == |inbox| && !StateAt(key, s, inbox, n).failSafe)
  }

  lemma {:induction false} ActsOnAcceptedPrefix(key: seq<byte>, command: bv32, s: EcuState, inbox: seq<Option<Frame>>)
    ensures exists n :: ActsOnPrefix(key, command, s, inbox, n)
    decreases |inbox|
  {
    hide CheckFrame, AfterReceive, Action;
    if s.failSafe || inbox == [] || inbox[0].None? || CheckFrame(key, inbox[0]) != SecOk {
      assert inbox[..0] == [];
      assert ActsOnPrefix(key, command, s, inbox, 0);
    } else {
      var s' := AfterReceive(key, s, inbox[0].value);
      ActsOnAcceptedPrefix(key, command, s', inbox[1..]);
      var m :| ActsOnPrefix(key, command, s', inbox[1..], m);
      PrefixExtends(key, command, s, inbox, m);
    }
  }

  lemma PrefixExtends(key: seq<byte>, command: bv32, s: EcuState, inbox: seq<Option<Frame>>, m: nat)
    requires !s.failSafe && inbox != [] && inbox[0].Some? && CheckFrame(key, inbox[0]) == SecOk
    requires ActsOnPrefix(key, command, AfterReceive(key, s, inbox[0].value), inbox[1..], m)
    ensures ActsOnPrefix(key, command, s, inbox, m + 1)
  {
    hide CheckFrame, AfterReceive, Action, AcceptedPrefix, StateAt;
    var rest, n := inbox[1..], m + 1;
    AcceptedPrefixExtends(key, s, inbox, m);
    assert inbox[..n][0] == inbox[0] && inbox[..n][1..] == rest[..m];
    if m < |rest| {
      assert inbox[n] == rest[m];
    }
  }

  lemma AcceptedPrefixExtends(key: seq<byte>, s: EcuState, inbox: seq<Option<Frame>>, m: nat)
    requires !s.failSafe && inbox != [] && inbox[0].Some? && CheckFrame(key, inbox[0]) == SecOk
    requires AcceptedPrefix(key, AfterReceive(key, s, inbox[0].value), inbox[1..], m)
    ensures AcceptedPrefix(key, s, inbox, m + 1)
    ensures m + 1 <= |inbox|
    ensures StateAt(key, s, inbox, m + 1) == StateAt(key, AfterReceive(key, s, inbox[0].value), inbox[1..], m)
  {
    hide CheckFrame, AfterReceive;
    var rest, n := inbox[1..], m + 1;
    var s' := AfterReceive(key, s, inbox[0].value);
    forall i | 0 <= i < n
      ensures inbox[i].Some? && CheckFrame(key, inbox[i]) == SecOk
    {
      if i > 0 {
        assert inbox[i] == rest[i - 1];
      }
    }
    StateAtShift(key, s, inbox, m);
    forall i | 0 <= i < n
      ensures !StateAt(key, s, inbox, i).failSafe
    {
      if i > 0 {
        StateAtShift(key, s, inbox, i - 1);
        assert !StateAt(key, s', rest, i - 1).failSafe;
      }
    }
  }

  lemma {:induction false} StateAtShift(key: seq<byte>, s: EcuState, inbox: seq<Option<Frame>>, i: nat)
    requires i < |inbox| && forall k :: 0 <= k <= i ==> inbox[k].Some?
    ensures forall k :: 0 <= k < i ==> inbox[1..][k].Some?
    ensures StateAt(key, s, inbox, i + 1) == StateAt(key, AfterReceive(key, s, inbox[0].value), inbox[1..], i)
  {
    hide AfterReceive;
    if i > 0 {
      StateAtShift(key, s, inbox, i - 1);
    } else {
      assert StateAt(key, s, inbox, 1) == AfterReceive(key, StateAt(key, s, inbox, 0), inbox[0].value);
    }
  }

  const BRAKE_COMMAND: bv32 := 0x200
  const STEER_COMMAND: bv32 := 0x300

  lemma {:induction false} NeverActs(key: seq<byte>, command: bv32, s: EcuState, inbox: seq<Option<Frame>>)
    requires !IdAllowed(command)
    ensures Serve(key, command, s, inbox).actions == []
    decreases |inbox|
  {
    hide AfterReceive, MacOk, IdAllowed;
    if !s.failSafe && inbox != [] && inbox[0].Some? {
      NeverActs(key, command, AfterReceive(key, s, inbox[0].value), inbox[1..]);
    }
  }

  // A controller can ever act if and only if the whitelist contains its command id.
  lemma CanActIffWhitelisted(key: seq<byte>, command: bv32)
    ensures (exists inbox :: Serve(key, command, FRESH, inbox).actions != []) <==> IdAllowed(command)
  {
    hide IdAllowed, Serve, MacOk, FrameOk, Protect, CheckFrame;
    if IdAllowed(command) {
      var f: Frame := FrameFields(command, 1, seq(MAX_DATA_LEN, _ => 0), 0, seq(MAC_LEN, _ => 0), true, 0);
      ActsOnCommand(key, command, f);
    } else {
      forall inbox
        ensures Serve(key, command, FRESH, inbox).actions == []
      {
        NeverActs(key, command, FRESH, inbox);
      }
    }
  }

  lemma ActsOnCommand(key: seq<byte>, command: bv32, f: Frame)
    requires IdAllowed(command) && f.id == command && f.dlc == 1
    ensures Serve(key, command, FRESH, [Some(Protect(key, f))]).actions == [f.data[0]]
  {
    hide IdAllowed, FrameOk;
    var g := Protect(key, f);
    ProtectIdempotent(key, f);
    VerifiedHasMac(key, g);
    assert [Some(g)][1..] == [];
    assert [f.data[0]] + [] == [f.data[0]];
  }

  // Full verification includes the MAC check.
  lemma VerifiedHasMac(key: seq<byte>, f: Frame)
    requires FrameOk(key, f)
    ensures MacOk(key, f)
  {}

  // The brake controller's id is not on the whitelist: whatever it receives, it never acts.
  lemma BrakeNeverActs(key: seq<byte>, s: EcuState, inbox: seq<Option<Frame>>)
    ensures Serve(key, BRAKE_COMMAND, s, inbox).actions == []
  {
    NeverActs(key, BRAKE_COMMAND, s, inbox);
  }

  // ---------- Acting on frames that fail verification ----------

  // Serving one more frame continues from where the controller stands, if it is still running.
  lemma {:induction false} ServeOneMore(
    key: seq<byte>, command: bv32, s: EcuState, inbox: seq<Option<Frame>>, x: Option<Frame>)
    ensures var o := Serve(key, command, s, inbox);
            Serve(key, command, s, inbox + [x]) ==
              if o.running then Prepend(o.actions, Serve(key, command, o.state, [x])) else o
    decreases |inbox|
  {
    hide CheckFrame, AfterReceive, Action;
    if s.failSafe {
    } else if inbox == [] {
      assert inbox + [x] == [x];
      var o := Serve(key, command, s, [x]);
      assert [] + o.actions == o.actions;
    } else {
      assert (inbox + [x])[0] == inbox[0] && (inbox + [x])[1..] == inbox[1..] + [x];
      if inbox[0].Some? && CheckFrame(key, inbox[0]) == SecOk {
        var f, s' := inbox[0].value, AfterReceive(key, s, inbox[0].value);
        ServeOneMore(key, command, s', inbox[1..], x);
        var o := Serve(key, command, s', inbox[1..]);
        var last := Serve(key, command, o.state, [x]);
        assert Action(command, f) + (o.actions + last.actions) == (Action(command, f) + o.actions) + last.actions;
      }
    }
  }

  // The controller acts on the frame at position i: its actions grow when that frame arrives.
  ghost predicate ActsAt(key: seq<byte>, command: bv32, inbox: seq<Option<Frame>>, i: nat)
    requires i < |inbox|
  {
    Serve(key, command, FRESH, inbox[..i + 1]).actions != Serve(key, command, FRESH, inbox[..i]).actions
  }

  // Whether a frame is a command that passes the security check.
  predicate IsCommand(key: seq<byte>, command: bv32, x: Option<Frame>) {
    CheckFrame(key, x) == SecOk && x.value.id == command && x.value.dlc as nat >= 1
  }

  // Nothing so far has taken the controller out of its loop.
  ghost predicate AllAdmissible(key: seq<byte>, inbox: seq<Option<Frame>>) {
    && (forall i :: 0 <= i < |inbox| ==> inbox[i].Some? && Admissible(key, inbox[i].value))
    && VerifyFailures(key, inbox) <= 2
  }

  // What serving one frame does: a failed receive changes nothing, a frame that the check refuses
  // sets fail-safe, and of the others those with the command's id and a payload are acted upon.
  lemma LastServed(key: seq<byte>, command: bv32, s: EcuState, x: Option<Frame>)
    requires !s.failSafe
    ensures var o := Serve(key, command, s, [x]);
            && (IsCommand(key, command, x) <==>
                  CheckFrame(key, x) == SecOk && x.value.id == command && 1 <= x.value.dlc as nat <= 8)
            && (o.actions == if IsCommand(key, command, x) then [x.value.data[0]] else [])
            && (x.None? ==> o.state == s)
            && (x.Some? ==> o.state.ids == AfterReceive(key, s, x.value).ids)
            && (x.Some? ==> o.state.failSafe == (AfterReceive(key, s, x.value).failSafe || CheckFrame(key, x) != SecOk))
  {
    hide AfterReceive, CheckFrame;
    assert [x][1..] == [];
    if x.Some? {
      CheckedIsFrame(key, x);
      assert Action(command, x.value) + [] == Action(command, x.value);
    }
  }

  lemma CheckedIsFrame(key: seq<byte>, x: Option<Frame>)
    ensures CheckFrame(key, x) == SecOk ==> x.Some?
  {}

  // Main result: in any inbox a fresh controller acts on a frame if and only if everything before
  // it was admissible with at most two verification failures and the frame itself is a command
  // that passes the check. Whether that frame is secured, and whether its CRC holds, is no part
  // of the condition.
  lemma {:induction false} ActsIff(key: seq<byte>, command: bv32, inbox: seq<Option<Frame>>, i: nat)
    requires i < |inbox|
    ensures ActsAt(key, command, inbox, i) <==> AllAdmissible(key, inbox[..i]) && IsCommand(key, command, inbox[i])
  {
    hide Serve, IsCommand, Admissible, VerifyFailures;
    assert inbox[..i + 1] == inbox[..i] + [inbox[i]];
    var o := Serve(key, command, FRESH, inbox[..i]);
    ServeOneMore(key, command, FRESH, inbox[..i], inbox[i]);
    SurvivesIff(key, command, inbox[..i]);
    if o.running {
      RunningIsNotFailSafe(key, command, FRESH, inbox[..i]);
      LastServed(key, command, o.state, inbox[i]);
      var more := Serve(key, command, o.state, [inbox[i]]).actions;
      assert |o.actions + more| == |o.actions| + |more|;
    }
  }

  lemma {:induction false} RunningIsNotFailSafe(key: seq<byte>, command: bv32, s: EcuState, inbox: seq<Option<Frame>>)
    ensures Serve(key, command, s, inbox).running ==> !Serve(key, command, s, inbox).state.failSafe
    decreases |inbox|
  {
    hide CheckFrame, AfterReceive, Action;
    if !s.failSafe && inbox != [] && inbox[0].Some? {
      RunningIsNotFailSafe(key, command, AfterReceive(key, s, inbox[0].value), inbox[1..]);
    }
  }

  // What the state knows of an admissible inbox: its verification failures.
  lemma {:induction false} StateOfAdmissible(key: seq<byte>, command: bv32, s: EcuState, inbox: seq<Option<Frame>>)
    requires !s.failSafe && s.ids.unsecuredFrames == 0 && s.ids.macErrors < MAC_ERROR_THRESHOLD
    requires Serve(key, command, s, inbox).running
    ensures var o := Serve(key, command, s, inbox).state;
            && !o.failSafe && o.ids.unsecuredFrames == 0
            && o.ids.macErrors == s.ids.macErrors + VerifyFailures(key, inbox) <= 2
    decreases |inbox|
  {
    hide FrameOk, MacOk, IdAllowed, CheckFrame, Action;
    SurvivesFrom(key, command, s, inbox);
    if inbox != [] {
      StateOfAdmissible(key, command, AfterReceive(key, s, inbox[0].value), inbox[1..]);
    }
  }

  // Main result: after an admissible inbox the receive step sets fail-safe exactly for an
  // unsecured frame or a third verification failure; if that frame is a command that passes the
  // check, the controller still acts on it, and only then leaves its loop.
  lemma {:induction false} TrippingFrameStillActs(key: seq<byte>, command: bv32, inbox: seq<Option<Frame>>, f: Frame)
    requires AllAdmissible(key, inbox)
    ensures var before := Serve(key, command, FRESH, inbox);
            var after := Serve(key, command, FRESH, inbox + [Some(f)]);
            var trips := !f.secured || (!FrameOk(key, f) && VerifyFailures(key, inbox) == 2);
            && (AfterReceive(key, before.state, f).failSafe <==> trips)
            && (trips ==> after.state.failSafe && !after.running)
            && after.actions == before.actions + if IsCommand(key, command, Some(f)) then [f.data[0]] else []
  {
    hide Serve, IsCommand, Admissible, FrameOk, CheckFrame, VerifyFailures;
    SurvivesIff(key, command, inbox);
    ServeOneMore(key, command, FRESH, inbox, Some(f));
    StateOfAdmissible(key, command, FRESH, inbox);
    RunningIsNotFailSafe(key, command, Serve(key, command, FRESH, inbox).state, [Some(f)]);
    LastServed(key, command, Serve(key, command, FRESH, inbox).state, Some(f));
  }

  // The frame at position i is acted upon although it is unsecured or fails full verification.
  ghost predicate BadActionAt(key: seq<byte>, command: bv32, inbox: seq<Option<Frame>>, i: nat)
    requires i < |inbox|
  {
    ActsAt(key, command, inbox, i) && !(inbox[i].Some? && inbox[i].value.secured && FrameOk(key, inbox[i].value))
  }

  ghost function BadActions(key: seq<byte>, command: bv32, inbox: seq<Option<Frame>>, n: nat): (c: nat)
    requires n <= |inbox|
  {
    if n == 0 then 0
    else BadActions(key, command, inbox, n - 1) + if BadActionAt(key, command, inbox, n - 1) then 1 else 0
  }

  lemma {:induction false} FailuresSnoc(key: seq<byte>, inbox: seq<Option<Frame>>, x: Option<Frame>)
    ensures VerifyFailures(key, inbox + [x]) ==
              VerifyFailures(key, inbox) + if x.Some? && !FrameOk(key, x.value) then 1 else 0
  {
    hide FrameOk;
    if inbox == [] {
      assert [x][1..] == [] && inbox + [x] == [x];
    } else {
      assert (inbox + [x])[1..] == inbox[1..] + [x];
      FailuresSnoc(key, inbox[1..], x);
    }
  }

  // While everything is admissible, bad actions are among the verification failures; the frame
  // that ends this may add one more.
  lemma {:induction false} BadActionsBounded(key: seq<byte>, command: bv32, inbox: seq<Option<Frame>>, n: nat)
    requires n <= |inbox|
    ensures AllAdmissible(key, inbox[..n]) ==> BadActions(key, command, inbox, n) <= VerifyFailures(key, inbox[..n])
    ensures BadActions(key, command, inbox, n) <= 3
  {
    hide FrameOk, ActsAt, IsCommand, VerifyFailures;
    if n > 0 {
      var m := n - 1;
      BadActionsBounded(key, command, inbox, m);
      ActsIff(key, command, inbox, m);
      assert inbox[..n] == inbox[..m] + [inbox[m]];
      FailuresSnoc(key, inbox[..m], inbox[m]);
      assert forall j :: 0 <= j < m ==> inbox[..m][j] == inbox[..n][j];
    }
  }

  // Main result: in all it ever receives, a controller acts on at most three frames that are
  // unsecured or fail verification.
  lemma {:induction false} AtMostThreeBadActions(key: seq<byte>, command: bv32, inbox: seq<Option<Frame>>)
    ensures BadActions(key, command, inbox, |inbox|) <= 3
  {
    BadActionsBounded(key, command, inbox, |inbox|);
  }

  // A frame with a valid MAC and a broken checksum.
  function WrongCrc(key: seq<byte>, f: Frame): (g: Frame) {
    var g := Protect(key, f);
    g.(crc := !g.crc)
  }

  // An unsecured command with a valid MAC is acted upon once, and three with a broken checksum
  // are all acted upon, the third of them tripping fail-safe: the bound of three is reached.
  lemma BadFramesThatAct(key: seq<byte>, f: Frame)
    requires f.id == STEER_COMMAND && f.dlc == 1
    ensures Serve(key, STEER_COMMAND, FRESH, [Some(Protect(key, f).(secured := false))]) ==
              Outcome(EcuState(Counters(0, 0, 1), true), [f.data[0]], false)
    ensures var g := WrongCrc(key, f);
            && !FrameOk(key, g)
            && Serve(key, STEER_COMMAND, FRESH, [Some(g), Some(g), Some(g)]) ==
                 Outcome(EcuState(Counters(3, 0, 0), true), [f.data[0], f.data[0], f.data[0]], false)
  {
    hide FrameOk, MacOk, Protect, IdAllowed, WrongCrc;
    var u, g := Protect(key, f).(secured := false), WrongCrc(key, f);
    BadFramesChecked(key, f);
    assert [Some(u)][1..] == [] && [f.data[0]] + [] == [f.data[0]];
    assert [Some(g), Some(g), Some(g)][1..] == [Some(g), Some(g)] && [Some(g), Some(g)][1..] == [Some(g)];
    assert [Some(g)][1..] == [];
    var s1 := EcuState(Counters(1, 0, 0), false);
    var s2 := EcuState(Counters(2, 0, 0), false);
    assert Serve(key, STEER_COMMAND, s2, [Some(g)]) == Outcome(EcuState(Counters(3, 0, 0), true), [f.data[0]], false);
    assert Serve(key, STEER_COMMAND, s1, [Some(g), Some(g)]) ==
           Outcome(EcuState(Counters(3, 0, 0), true), [f.data[0]] + [f.data[0]], false);
  }

  lemma BadFramesChecked(key: seq<byte>, f: Frame)
    requires f.id == STEER_COMMAND && f.dlc == 1
    ensures var u := Protect(key, f).(secured := false);
            !u.secured && u.id == f.id && u.dlc == f.dlc && u.data == f.data && CheckFrame(key, Some(u)) == SecOk
    ensures var g := WrongCrc(key, f);
            && g.secured && g.id == f.id && g.dlc == f.dlc && g.data == f.data && CheckFrame(key, Some(g)) == SecOk
            && !FrameOk(key, g)
  {
    hide Mac, XorAll;
    var p, u, g := Protect(key, f), Protect(key, f).(secured := false), WrongCrc(key, f);
    SerializeInjective(p, u);
    SerializeInjective(p, g);
    SerializeInjective(p, f);
    NotItsComplement(p.crc);
  }

  lemma NotItsComplement(c: bv32)
    ensures c != !c
  {}

  lemma ThreeBadActionsReached(key: seq<byte>, f: Frame)
    requires f.id == STEER_COMMAND && f.dlc == 1
    ensures var x: Option<Frame> := Some(WrongCrc(key, f));
            BadActions(key, STEER_COMMAND, [x, x, x], 3) == 3
  {
    hide FrameOk, CheckFrame, WrongCrc, ActsAt, Serve;
    BadFramesChecked(key, f);
    var x: Option<Frame> := Some(WrongCrc(key, f));
    var inbox: seq<Option<Frame>> := [x, x, x];
    assert inbox[..0] == [] && inbox[..1] == [x] && inbox[..2] == [x, x];
    assert inbox[..1][1..] == [] && inbox[..2][1..] == [x];
    assert VerifyFailures(key, [x]) == 1;
    assert VerifyFailures(key, [x, x]) == 2;
    forall i | 0 <= i < 3
      ensures BadActionAt(key, STEER_COMMAND, inbox, i)
    {
      ActsIff(key, STEER_COMMAND, inbox, i);
      CheckedIsAdmissible(key, x.value);
    }
    assert BadActions(key, STEER_COMMAND, inbox, 1) == 1;
    assert BadActions(key, STEER_COMMAND, inbox, 2) == 2;
  }

  lemma CheckedIsAdmissible(key: seq<byte>, f: Frame)
    ensures f.secured && CheckFrame(key, Some(f)) == SecOk <==> Admissible(key, f)
  {}
}
