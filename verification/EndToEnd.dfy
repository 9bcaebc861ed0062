/** The whole system: ECUs that protect what they send, the bus between them, and what every
    receiver makes of the traffic. */
module EndToEnd {
  import opened Options
  import opened Xor
  import opened Can
  import opened Hsm
  import opened Ids
  import opened Ecu
  import opened Controller
  import opened Bus
  import opened BusRuns
  import Crc32

  // ---------- The system ----------

  // An ECU and its connection: frames on their way to the bus and from it, and, since it
  // joined at position joined of the bus trace, all it handed over and all it took in.
  datatype Node = Node(
    key: seq<byte>,
    state: EcuState,
    up: seq<Frame>,
    down: seq<Frame>,
    joined: nat,
    sent: seq<Frame>,
    consumed: seq<Frame>)

  datatype System = System(tables: Tables, nodes: map<int, Node>, trace: seq<Event>)

  const START: System := System(EMPTY, map[], [])

  function Times(f: Frame, n: nat): (s: seq<Frame>) {
    seq(n, _ => f)
  }

  // The effect of one bus event on the connections; key is that of an ECU connecting now.
  function AfterEvent(nodes: map<int, Node>, at: nat, e: Event, key: seq<byte>): (r: map<int, Node>) {
    match e
    case Accepted(EcuSide, fd) => nodes[fd := Node(key, FRESH, [], [], at + 1, [], [])]
    case Accepted(MonitorSide, _) => nodes
    case Closed(fd) => map x | x in nodes && x != fd :: nodes[x]
    case Relayed(sender, f, targets) =>
      map x | x in nodes ::
        var n := nodes[x];
        if x == sender then n.(up := if n.up == [] then [] else n.up[1..])
        else n.(down := n.down + Times(f, multiset(targets)[x]))
  }

  function AfterEvents(s: System, events: seq<Event>, key: seq<byte>): (r: System)
    decreases |events|
  {
    if events == [] then s
    else
      var s' := s.(nodes := AfterEvent(s.nodes, |s.trace|, events[0], key), trace := s.trace + [events[0]]);
      AfterEvents(s', events[1..], key)
  }

  datatype Action =
    | EcuSends(fd: int, f: Frame)
    | EcuReceives(fd: int)
    | BusServes(r: Round, key: seq<byte>)

  // A receiving ECU reads, verifies and checks one frame, as a controller does each turn.
  function Receive(n: Node): (r: Node) {
    if n.down == [] then n
    else
      var f := n.down[0];
      var s := AfterReceive(n.key, n.state, f);
      n.(state := if CheckFrame(n.key, Some(f)) == SecOk then s else s.(failSafe := true),
      down := n.down[1..],
      consumed := n.consumed + [f])
  }

  function Send(n: Node, f: Frame): (r: Node) {
    var h := Handed(n.key, n.state, f);
    var out := if h.Some? then [h.value] else [];
    n.(state := AfterSend(n.state, f), up := n.up + out, sent := n.sent + out)
  }

  function Act(listenFd: int, monitorFd: int, s: System, a: Action): (r: System) {
    match a
    case EcuSends(fd, f) => if fd in s.nodes then s.(nodes := s.nodes[fd := Send(s.nodes[fd], f)]) else s
    case EcuReceives(fd) => if fd in s.nodes then s.(nodes := s.nodes[fd := Receive(s.nodes[fd])]) else s
    case BusServes(r, key) =>
      var res := AfterRound(listenFd, monitorFd, s.tables, r);
      AfterEvents(s, res.events, key).(tables := res.tables)
  }

  function RunSystem(listenFd: int, monitorFd: int, actions: seq<Action>): (s: System) {
    if actions == [] then START
    else Act(listenFd, monitorFd, RunSystem(listenFd, monitorFd, actions[..|actions| - 1]), actions[|actions| - 1])
  }

  // ---------- The assumptions ----------

  predicate Compliant(f: Frame) {
    f.secured && f.dlc as nat <= MAX_DATA_LEN && IdAllowed(f.id)
  }

  ghost predicate IntactEvent(nodes: map<int, Node>, e: Event) {
    e.Relayed? && e.sender in nodes ==> nodes[e.sender].up != [] && nodes[e.sender].up[0] == e.frame
  }

  // The connection delivers to the bus what its ECU sent, in order and unchanged.
  ghost predicate Intact(s: System, events: seq<Event>, key: seq<byte>)
    decreases |events|
  {
    events == [] ||
    (var s' := s.(nodes := AfterEvent(s.nodes, |s.trace|, events[0], key), trace := s.trace + [events[0]]);
     IntactEvent(s.nodes, events[0]) && Intact(s', events[1..], key))
  }

  // Senders are compliant, all keys share one fold, and the network is as assumed.
  ghost predicate Permitted(listenFd: int, monitorFd: int, fold: byte, s: System, a: Action) {
    match a
    case EcuSends(fd, f) => Compliant(f)
    case EcuReceives(fd) => true
    case BusServes(r, key) =>
      && XorAll(key) == fold
      && EnvironmentOk(listenFd, monitorFd, s.tables, r)
      && Intact(s, AfterRound(listenFd, monitorFd, s.tables, r).events, key)
  }

  ghost predicate PermittedThroughout(listenFd: int, monitorFd: int, fold: byte, actions: seq<Action>) {
    forall k :: 0 <= k < |actions| ==>
      Permitted(listenFd, monitorFd, fold, RunSystem(listenFd, monitorFd, actions[..k]), actions[k])
  }

  // ---------- The invariant ----------

  // A frame that every ECU whose key has this fold accepts.
  predicate Genuine(fold: byte, f: Frame) {
    && Compliant(f)
    && f.crc == Crc32.Crc(Serialize(f))
    && f.mac == Spread(Sum(fold, XorAll(Serialize(f))))
  }

  ghost predicate Healthy(fold: byte, n: Node) {
    && XorAll(n.key) == fold
    && n.state == FRESH
    && (forall f <- n.up :: Genuine(fold, f))
    && (forall f <- n.down :: Genuine(fold, f))
    && (forall f <- n.consumed :: Genuine(fold, f))
  }

  function FramesOf(log: seq<Delivery>): (s: seq<Frame>) {
    seq(|log|, i requires 0 <= i < |log| => log[i].frame)
  }

  // Conservation at one connection: what it sent is on the bus's log or still on its way up;
  // what others logged since it joined was taken in or is still on its way down.
  ghost predicate Accounted(fd: int, n: Node, trace: seq<Event>) {
    && n.joined <= |trace|
    && n.sent == FramesFrom(fd, trace[n.joined..]) + n.up
    && n.consumed + n.down == FramesOf(NotFrom(Log(trace[n.joined..]), fd))
  }

  ghost predicate NodesSound(fold: byte, l: Live, nodes: map<int, Node>, trace: seq<Event>) {
    && nodes.Keys == l.clients
    && forall fd <- nodes :: Healthy(fold, nodes[fd]) && Accounted(fd, nodes[fd], trace)
  }

  lemma GenuineAccepted(fold: byte, key: seq<byte>, f: Frame)
    requires XorAll(key) == fold
    ensures Genuine(fold, f) <==> Compliant(f) && FrameOk(key, f)
    ensures Genuine(fold, f) ==> CheckFrame(key, Some(f)) == SecOk && AfterReceive(key, FRESH, f) == FRESH
  {
    hide XorAll, Spread, Sum, Crc32.Crc, IdAllowed;
  }

  lemma SendHealthy(fold: byte, n: Node, f: Frame)
    requires Healthy(fold, n) && Compliant(f)
    ensures Healthy(fold, Send(n, f))
    ensures Handed(n.key, n.state, f) == Some(Protect(n.key, f))
  {
    hide Genuine, FrameOk, Protect, XorAll;
    var g := Protect(n.key, f);
    ProtectIdempotent(n.key, f);
    ProtectCompliant(n.key, f);
    GenuineAccepted(fold, n.key, g);
  }

  lemma ProtectCompliant(key: seq<byte>, f: Frame)
    requires Compliant(f)
    ensures Compliant(Protect(key, f))
  {
    hide XorAll, Crc32.Crc, Mac, IdAllowed;
  }

  lemma ReceiveHealthy(fold: byte, n: Node)
    requires Healthy(fold, n)
    ensures Healthy(fold, Receive(n))
    ensures Receive(n).consumed + Receive(n).down == n.consumed + n.down
    ensures n.down != [] ==> CheckFrame(n.key, Some(n.down[0])) == SecOk
  {
    hide Genuine, FrameOk, XorAll, CheckFrame, AfterReceive;
    if n.down != [] {
      assert n.down[0] in n.down && forall f <- n.down[1..] :: f in n.down;
      GenuineAccepted(fold, n.key, n.down[0]);
    }
  }

  // ---------- Traces grow at the end ----------

  lemma {:induction false} LogAppend(a: seq<Event>, e: Event)
    ensures Log(a + [e]) == Log(a) + (if e.Relayed? then [Delivery(e.sender, e.frame)] else [])
  {
    if a == [] {
      assert [e][1..] == [] && Log([]) == [];
    } else {
      assert (a + [e])[1..] == a[1..] + [e];
      LogAppend(a[1..], e);
    }
  }

  lemma {:induction false} NotFromAppend(log: seq<Delivery>, d: Delivery, fd: int)
    ensures NotFrom(log + [d], fd) == NotFrom(log, fd) + (if d.sender != fd then [d] else [])
  {
    if log == [] {
      assert [d][1..] == [] && NotFrom([], fd) == [];
    } else {
      assert (log + [d])[1..] == log[1..] + [d];
      NotFromAppend(log[1..], d, fd);
    }
  }

  lemma SingleFrame(fd: int, e: Event)
    ensures FramesFrom(fd, [e]) == if e.Relayed? && e.sender == fd then [e.frame] else []
  {
    assert [e][1..] == [] && FramesFrom(fd, []) == [];
  }

  // How the accounts of a connection move with one more event.
  lemma AccountsMove(fd: int, trace: seq<Event>, e: Event, joined: nat)
    requires joined <= |trace|
    ensures var a, b := trace[joined..], (trace + [e])[joined..];
            && FramesFrom(fd, b) == FramesFrom(fd, a) + (if e.Relayed? && e.sender == fd then [e.frame] else [])
            && FramesOf(NotFrom(Log(b), fd)) ==
                 FramesOf(NotFrom(Log(a), fd)) + (if e.Relayed? && e.sender != fd then [e.frame] else [])
  {
    hide FramesFrom, NotFrom, Log;
    var a := trace[joined..];
    assert (trace + [e])[joined..] == a + [e];
    FramesFromAppend(fd, a, [e]);
    SingleFrame(fd, e);
    LogAppend(a, e);
    var before := NotFrom(Log(a), fd);
    if e.Relayed? {
      var d := Delivery(e.sender, e.frame);
      NotFromAppend(Log(a), d, fd);
      assert FramesOf(before + [d]) == FramesOf(before) + [e.frame];
      assert before + [] == before;
    } else {
      assert Log(a) + [] == Log(a);
    }
    assert FramesOf(before) + [] == FramesOf(before);
  }

  // ---------- One bus event keeps every connection sound ----------

  lemma NewcomerSound(fold: byte, fd: int, key: seq<byte>, trace: seq<Event>)
    requires XorAll(key) == fold
    ensures var n := Node(key, FRESH, [], [], |trace|, [], []);
            Healthy(fold, n) && Accounted(fd, n, trace)
  {
    assert trace[|trace|..] == [];
    assert Log([]) == [] && NotFrom([], fd) == [] && FramesFrom(fd, []) == [];
  }

  lemma BystanderSound(fd: int, n: Node, trace: seq<Event>, e: Event)
    requires Accounted(fd, n, trace) && !e.Relayed?
    ensures Accounted(fd, n, trace + [e])
  {
    hide FramesFrom, NotFrom, Log;
    AccountsMove(fd, trace, e, n.joined);
    assert FramesFrom(fd, trace[n.joined..]) + [] == FramesFrom(fd, trace[n.joined..]);
    assert FramesOf(NotFrom(Log(trace[n.joined..]), fd)) + [] == FramesOf(NotFrom(Log(trace[n.joined..]), fd));
  }

  lemma SenderSound(fold: byte, n: Node, trace: seq<Event>, e: Event)
    requires e.Relayed? && Healthy(fold, n) && Accounted(e.sender, n, trace)
    requires n.up != [] && n.up[0] == e.frame
    ensures var n' := n.(up := n.up[1..]);
            Healthy(fold, n') && Accounted(e.sender, n', trace + [e])
    ensures Genuine(fold, e.frame)
  {
    hide FramesFrom, NotFrom, Log, Genuine, XorAll;
    AccountsMove(e.sender, trace, e, n.joined);
    assert n.up == [e.frame] + n.up[1..];
    assert e.frame in n.up;
    var f0 := FramesFrom(e.sender, trace[n.joined..]);
    assert f0 + n.up == f0 + [e.frame] + n.up[1..];
    var l0 := FramesOf(NotFrom(Log(trace[n.joined..]), e.sender));
    assert l0 + [] == l0;
  }

  lemma ReceiverSound(fold: byte, fd: int, n: Node, trace: seq<Event>, e: Event)
    requires e.Relayed? && e.sender != fd && Healthy(fold, n) && Accounted(fd, n, trace)
    requires Genuine(fold, e.frame)
    ensures var n' := n.(down := n.down + [e.frame]);
            Healthy(fold, n') && Accounted(fd, n', trace + [e])
  {
    hide FramesFrom, NotFrom, Log, Genuine, XorAll;
    AccountsMove(fd, trace, e, n.joined);
    assert n.consumed + (n.down + [e.frame]) == (n.consumed + n.down) + [e.frame];
    var f0 := FramesFrom(fd, trace[n.joined..]);
    assert f0 + [] == f0;
  }

  lemma {:induction false} EventKeeps(
    fold: byte, listeners: set<int>, l: Live, nodes: map<int, Node>, trace: seq<Event>, e: Event, key: seq<byte>)
    requires NodesSound(fold, l, nodes, trace) && l.clients !! l.monitors
    requires GoodEvent(listeners, l, e) && IntactEvent(nodes, e) && XorAll(key) == fold
    ensures NodesSound(fold, Next(l, e), AfterEvent(nodes, |trace|, e, key), trace + [e])
  {
    hide Healthy, Accounted, XorAll;
    var nodes' := AfterEvent(nodes, |trace|, e, key);
    assert nodes'.Keys == Next(l, e).clients;
    if e.Accepted? && e.side == EcuSide {
      NewcomerSound(fold, e.fd, key, trace + [e]);
    }
    forall x | x in nodes'
      ensures Healthy(fold, nodes'[x]) && Accounted(x, nodes'[x], trace + [e])
    {
      match e
      case Accepted(_, fd) => if x in nodes && x != fd { BystanderSound(x, nodes[x], trace, e); }
      case Closed(_) => BystanderSound(x, nodes[x], trace, e);
      case Relayed(sender, f, targets) =>
        SenderSound(fold, nodes[sender], trace, e);
        if x != sender {
          NoDupCount(targets, x);
          assert Times(f, 1) == [f];
          ReceiverSound(fold, x, nodes[x], trace, e);
        }
    }
  }

  lemma {:induction false} EventsKeep(
    fold: byte, listeners: set<int>, l: Live, s: System, events: seq<Event>, key: seq<byte>)
    requires NodesSound(fold, l, s.nodes, s.trace) && l.clients !! l.monitors
    requires GoodTrace(listeners, l, events) && Intact(s, events, key) && XorAll(key) == fold
    ensures var r := AfterEvents(s, events, key);
            && NodesSound(fold, LiveAfter(l, events), r.nodes, r.trace)
            && r.trace == s.trace + events
    decreases |events|
  {
    hide NodesSound, XorAll, AfterEvent;
    if events != [] {
      var e := events[0];
      EventKeeps(fold, listeners, l, s.nodes, s.trace, e, key);
      var s' := s.(nodes := AfterEvent(s.nodes, |s.trace|, e, key), trace := s.trace + [e]);
      EventsKeep(fold, listeners, Next(l, e), s', events[1..], key);
      assert s.trace + [e] + events[1..] == s.trace + events;
    } else {
      assert s.trace + [] == s.trace;
    }
  }

  // ---------- Whole runs of the system ----------

  ghost predicate Sound(listenFd: int, monitorFd: int, fold: byte, s: System) {
    && Consistent({listenFd, monitorFd}, s.tables)
    && NodesSound(fold, LiveIn(s.tables), s.nodes, s.trace)
  }

  lemma {:induction false} BusKeepsSound(listenFd: int, monitorFd: int, fold: byte, s: System, r: Round, key: seq<byte>)
    requires listenFd != monitorFd && Sound(listenFd, monitorFd, fold, s)
    requires Permitted(listenFd, monitorFd, fold, s, BusServes(r, key))
    ensures Sound(listenFd, monitorFd, fold, Act(listenFd, monitorFd, s, BusServes(r, key)))
    ensures Act(listenFd, monitorFd, s, BusServes(r, key)).trace ==
              s.trace + AfterRound(listenFd, monitorFd, s.tables, r).events
  {
    hide NodesSound, AfterRound, EnvironmentOk, GoodTrace, LiveAfter, Intact, AfterEvents, XorAll;
    RoundKeeps(listenFd, monitorFd, s.tables, r);
    var events := AfterRound(listenFd, monitorFd, s.tables, r).events;
    EventsKeep(fold, {listenFd, monitorFd}, LiveIn(s.tables), s, events, key);
  }

  lemma {:induction false} EcuKeepsSound(listenFd: int, monitorFd: int, fold: byte, s: System, a: Action)
    requires Sound(listenFd, monitorFd, fold, s) && !a.BusServes?
    requires Permitted(listenFd, monitorFd, fold, s, a)
    ensures Sound(listenFd, monitorFd, fold, Act(listenFd, monitorFd, s, a))
    ensures Act(listenFd, monitorFd, s, a).trace == s.trace
  {
    hide Healthy, Receive, Send, Consistent, Compliant, FramesFrom, Log, NotFrom;
    if a.fd in s.nodes {
      var n := s.nodes[a.fd];
      match a
      case EcuSends(fd, f) => SendAccounted(fold, fd, n, f, s.trace);
      case EcuReceives(fd) => ReceiveAccounted(fold, fd, n, s.trace);
    }
  }

  lemma SendAccounted(fold: byte, fd: int, n: Node, f: Frame, trace: seq<Event>)
    requires Healthy(fold, n) && Accounted(fd, n, trace) && Compliant(f)
    ensures Healthy(fold, Send(n, f)) && Accounted(fd, Send(n, f), trace)
  {
    hide Healthy, Compliant, FramesFrom, Log, NotFrom, Handed, AfterSend, Protect;
    SendHealthy(fold, n, f);
    var f0, g := FramesFrom(fd, trace[n.joined..]), Protect(n.key, f);
    assert f0 + n.up + [g] == f0 + (n.up + [g]);
  }

  lemma ReceiveAccounted(fold: byte, fd: int, n: Node, trace: seq<Event>)
    requires Healthy(fold, n) && Accounted(fd, n, trace)
    ensures Healthy(fold, Receive(n)) && Accounted(fd, Receive(n), trace)
  {
    hide Healthy, FramesFrom, Log, NotFrom, CheckFrame, AfterReceive;
    ReceiveHealthy(fold, n);
  }

  lemma {:induction false} RunSystemSound(listenFd: int, monitorFd: int, fold: byte, actions: seq<Action>)
    requires listenFd != monitorFd && PermittedThroughout(listenFd, monitorFd, fold, actions)
    ensures Sound(listenFd, monitorFd, fold, RunSystem(listenFd, monitorFd, actions))
  {
    hide Sound, Permitted, Act;
    if actions == [] {
      StartSound(listenFd, monitorFd, fold);
    } else {
      var n := |actions| - 1;
      assert forall k :: 0 <= k < n ==> actions[..n][..k] == actions[..k];
      assert actions[..n][..] == actions[..n];
      RunSystemSound(listenFd, monitorFd, fold, actions[..n]);
      var s := RunSystem(listenFd, monitorFd, actions[..n]);
      if actions[n].BusServes? {
        BusKeepsSound(listenFd, monitorFd, fold, s, actions[n].r, actions[n].key);
      } else {
        EcuKeepsSound(listenFd, monitorFd, fold, s, actions[n]);
      }
    }
  }

  lemma StartSound(listenFd: int, monitorFd: int, fold: byte)
    ensures Sound(listenFd, monitorFd, fold, START)
  {}

  // Main result: in every run in which senders are compliant, key folds agree and the network
  // delivers intact, no ECU is ever in fail-safe, every counter is zero, and everything an ECU has
  // received or will receive next passes verification and security check.
  lemma {:induction false} NobodyFailsSafe(listenFd: int, monitorFd: int, fold: byte, actions: seq<Action>, fd: int)
    requires listenFd != monitorFd && PermittedThroughout(listenFd, monitorFd, fold, actions)
    requires fd in RunSystem(listenFd, monitorFd, actions).nodes
    ensures var n := RunSystem(listenFd, monitorFd, actions).nodes[fd];
            && !n.state.failSafe && n.state.ids == ZERO
            && forall f <- n.consumed + n.down :: FrameOk(n.key, f) && CheckFrame(n.key, Some(f)) == SecOk
  {
    hide RunSystem, PermittedThroughout, FrameOk, CheckFrame, Genuine, Accounted, XorAll;
    RunSystemSound(listenFd, monitorFd, fold, actions);
    var n := RunSystem(listenFd, monitorFd, actions).nodes[fd];
    forall f | f in n.consumed + n.down
      ensures FrameOk(n.key, f) && CheckFrame(n.key, Some(f)) == SecOk
    {
      GenuineAccepted(fold, n.key, f);
    }
  }

  // Main result: at every connection nothing is lost, doubled or reordered end to end. What the
  // ECU handed over is what the bus logged from it plus what is still on its way; what it took
  // in plus what is still on its way is what the bus logged from everyone else since it joined.
  lemma {:induction false} EndToEndConservation(
    listenFd: int, monitorFd: int, fold: byte, actions: seq<Action>, fd: int)
    requires listenFd != monitorFd && PermittedThroughout(listenFd, monitorFd, fold, actions)
    requires fd in RunSystem(listenFd, monitorFd, actions).nodes
    ensures var s := RunSystem(listenFd, monitorFd, actions);
            var n := s.nodes[fd];
            && n.joined <= |s.trace|
            && n.sent == FramesFrom(fd, s.trace[n.joined..]) + n.up
            && n.consumed + n.down == FramesOf(NotFrom(Log(s.trace[n.joined..]), fd))
  {
    hide RunSystem, PermittedThroughout, Healthy, FramesFrom, Log, NotFrom;
    RunSystemSound(listenFd, monitorFd, fold, actions);
  }

  // ---------- Progress ----------

  function ReadOne(fd: int, f: Frame): (r: Round) {
    Round({fd}, -1, -1, map[fd := f])
  }

  lemma {:induction false} ServeOnlyOne(t: Tables, i: nat, fd: int, f: Frame)
    requires i <= |t.clients| && NoDup(t.clients)
    ensures ServeFrom(t, i, ReadOne(fd, f)) ==
              Admission(t.clients,
                        if fd in t.clients[i..] then [Relayed(fd, f, Except(t.clients, fd) + t.monitors)] else [])
    decreases |t.clients| - i
  {
    hide Except;
    if i < |t.clients| {
      assert t.clients[i..] == [t.clients[i]] + t.clients[i + 1..];
      assert t.clients[i] !in t.clients[i + 1..];
      ServeOnlyOne(t, i + 1, fd, f);
    }
  }

  // The assumptions can always be met: whenever a frame waits for the bus, a round that reads it
  // is permitted, and it takes the frame from its sender's connection to every other ECU's.
  lemma WaitingFrameCanTravel(listenFd: int, monitorFd: int, fold: byte, s: System, fd: int, key: seq<byte>)
    requires listenFd != monitorFd && Sound(listenFd, monitorFd, fold, s) && XorAll(key) == fold
    requires fd in s.nodes && s.nodes[fd].up != []
    ensures var f := s.nodes[fd].up[0];
            var a := BusServes(ReadOne(fd, f), key);
            var nodes := Act(listenFd, monitorFd, s, a).nodes;
            && Permitted(listenFd, monitorFd, fold, s, a)
            && nodes.Keys == s.nodes.Keys
            && nodes[fd] == s.nodes[fd].(up := s.nodes[fd].up[1..])
            && forall x <- nodes :: x != fd ==> nodes[x] == s.nodes[x].(down := s.nodes[x].down + [f])
  {
    hide Healthy, Accounted, XorAll, AfterRound, EnvironmentOk, Consistent, AfterEvents, Intact, Except;
    var f, t := s.nodes[fd].up[0], s.tables;
    var e := Relayed(fd, f, Except(t.clients, fd) + t.monitors);
    ReadOneRound(listenFd, monitorFd, t, fd, f);
    OneEvent(s, e, key);
    forall x | x in s.nodes && x != fd
      ensures Times(f, multiset(e.targets)[x]) == [f]
    {
      TargetOnce({listenFd, monitorFd}, t, fd, f, x);
    }
  }

  lemma ReadOneRound(listenFd: int, monitorFd: int, t: Tables, fd: int, f: Frame)
    requires Consistent({listenFd, monitorFd}, t) && fd in Elems(t.clients)
    ensures EnvironmentOk(listenFd, monitorFd, t, ReadOne(fd, f))
    ensures AfterRound(listenFd, monitorFd, t, ReadOne(fd, f)) ==
              RoundResult(t, [Relayed(fd, f, Except(t.clients, fd) + t.monitors)])
  {
    hide ServeFrom, Except;
    assert t.clients[0..] == t.clients;
    ServeOnlyOne(t, 0, fd, f);
  }

  lemma TargetOnce(listeners: set<int>, t: Tables, fd: int, f: Frame, x: int)
    requires Consistent(listeners, t) && fd in Elems(t.clients) && x in Elems(t.clients) && x != fd
    ensures multiset(Except(t.clients, fd) + t.monitors)[x] == 1
  {
    hide Consistent, Except;
    RelayGood(listeners, t, fd, f);
    NoDupCount(Except(t.clients, fd) + t.monitors, x);
  }

  lemma OneEvent(s: System, e: Event, key: seq<byte>)
    ensures AfterEvents(s, [e], key).nodes == AfterEvent(s.nodes, |s.trace|, e, key)
    ensures Intact(s, [e], key) <==> IntactEvent(s.nodes, e)
  {
    hide AfterEvent;
    assert [e][1..] == [];
  }

  // ---------- Agreement of keys ----------

  // The assumption on key folds is needed: a compliant frame passes another ECU's check if and
  // only if the folds agree, and otherwise puts that controller into fail-safe at once.
  lemma AcceptedIffFoldsAgree(sender: seq<byte>, receiver: seq<byte>, command: bv32, f: Frame)
    requires Compliant(f)
    ensures var g := Protect(sender, f);
            && (CheckFrame(receiver, Some(g)) == SecOk <==> XorAll(sender) == XorAll(receiver))
            && (Serve(receiver, command, FRESH, [Some(g)]).running <==> XorAll(sender) == XorAll(receiver))
            && (Serve(receiver, command, FRESH, [Some(g)]).state.failSafe <==> XorAll(sender) != XorAll(receiver))
  {
    hide FrameOk, MacOk, Protect, XorAll, IdAllowed;
    var g := Protect(sender, f);
    ProtectCompliant(sender, f);
    Interoperates(sender, receiver, f);
    SurvivesIff(receiver, command, [Some(g)]);
    assert [Some(g)][1..] == [] && VerifyFailures(receiver, []) == 0;
    assert [Some(g)][0].value == g;
  }

  // ---------- The bus inside the system ----------

  function Rounds(actions: seq<Action>): (r: seq<Round>) {
    if actions == [] then []
    else
      var n := |actions| - 1;
      if actions[n].BusServes? then Rounds(actions[..n]) + [actions[n].r] else Rounds(actions[..n])
  }

  lemma {:induction false} AfterEventsTrace(s: System, events: seq<Event>, key: seq<byte>)
    ensures AfterEvents(s, events, key).trace == s.trace + events
    decreases |events|
  {
    hide AfterEvent;
    if events == [] {
      assert s.trace + [] == s.trace;
    } else {
      var e := events[0];
      AfterEventsTrace(s.(nodes := AfterEvent(s.nodes, |s.trace|, e, key), trace := s.trace + [e]), events[1..], key);
      assert s.trace + [e] + events[1..] == s.trace + events;
    }
  }

  // The system's trace is the trace of the bus server's own run, so every result about runs of
  // the server holds inside the system.
  lemma {:induction false} SystemRunsTheBus(listenFd: int, monitorFd: int, actions: seq<Action>)
    ensures var s := RunSystem(listenFd, monitorFd, actions);
            RoundResult(s.tables, s.trace) == RunFrom(listenFd, monitorFd, EMPTY, Rounds(actions))
  {
    hide AfterRound, AfterEvents, Send, Receive;
    if actions != [] {
      var n := |actions| - 1;
      SystemRunsTheBus(listenFd, monitorFd, actions[..n]);
      var s := RunSystem(listenFd, monitorFd, actions[..n]);
      if actions[n].BusServes? {
        var rounds, r := Rounds(actions[..n]), actions[n].r;
        AfterEventsTrace(s, AfterRound(listenFd, monitorFd, s.tables, r).events, actions[n].key);
        assert (rounds + [r])[..|rounds|] == rounds;
      }
    }
  }
}
