/** One select round of the bus server: accepting, serving ready clients, broadcasting. */
module Bus {
  import opened Can

  const MAX_CLIENTS: nat := 32

  datatype Side = EcuSide | MonitorSide

  // What the server does to its descriptors. Relayed lists the attempted sends in order.
  datatype Event =
    | Accepted(side: Side, fd: int)
    | Closed(fd: int)
    | Relayed(sender: int, frame: Frame, targets: seq<int>)

  datatype Tables = Tables(clients: seq<int>, monitors: seq<int>)

  // The environment of a round: the descriptors select reports, what the two accepts would
  // return, and the frame each receive would deliver (no entry: the receive fails).
  datatype Round = Round(ready: set<int>, newEcu: int, newMonitor: int, received: map<int, Frame>)

  // ---------- Specification of a round ----------

  datatype Admission = Admission(table: seq<int>, events: seq<Event>)

  function Admit(table: seq<int>, side: Side, fd: int): (a: Admission) {
    if fd < 0 then Admission(table, [])
    else if |table| < MAX_CLIENTS then Admission(table + [fd], [Accepted(side, fd)])
    else Admission(table, [Accepted(side, fd), Closed(fd)])
  }

  // An accepted connection goes to the end of its table, or is closed at once when 32 are there.
  lemma AdmitEffects(table: seq<int>, side: Side, fd: int)
    ensures var a := Admit(table, side, fd);
            && table <= a.table
            && (fd < 0 ==> a == Admission(table, []))
            && (fd >= 0 ==> a.events != [] && a.events[0] == Accepted(side, fd))
            && (fd >= 0 && |table| < 32 ==> a.table[|table|..] == [fd] && |a.events| == 1)
            && (fd >= 0 && |table| >= 32 ==> a.table == table && a.events[1..] == [Closed(fd)])
  {}

  function SwapRemove(t: seq<int>, i: nat): (r: seq<int>)
    requires i < |t|
    ensures |r| == |t| - 1
  {
    t[i := t[|t| - 1]][..|t| - 1]
  }

  // The last client takes the place of the removed one; everyone else stays.
  lemma SwapRemovePlaces(t: seq<int>, i: nat)
    requires i < |t|
    ensures forall k :: 0 <= k < |t| - 1 ==> SwapRemove(t, i)[k] == t[if k == i then |t| - 1 else k]
  {}

  function Except(t: seq<int>, fd: int): (r: seq<int>) {
    if t == [] then []
    else if t[|t| - 1] == fd then Except(t[..|t| - 1], fd)
    else Except(t[..|t| - 1], fd) + [t[|t| - 1]]
  }

  // The client loop from position i on.
  function ServeFrom(t: Tables, i: nat, r: Round): (a: Admission)
    requires i <= |t.clients|
    decreases |t.clients| - i
  {
    if i == |t.clients| then
      Admission(t.clients, [])
    else
      var fd := t.clients[i];
      if fd !in r.ready then
        ServeFrom(t, i + 1, r)
      else if fd !in r.received then
        var rest := ServeFrom(t.(clients := SwapRemove(t.clients, i)), i, r);
        rest.(events := [Closed(fd)] + rest.events)
      else
        var rest := ServeFrom(t, i + 1, r);
        rest.(events := [Relayed(fd, r.received[fd], Except(t.clients, fd) + t.monitors)] + rest.events)
  }

  // The client loop turn by turn: where it stands and what it has done.
  datatype LoopState = LoopState(tables: Tables, i: nat, events: seq<Event>)

  function LoopStep(s: LoopState, r: Round): (s': LoopState) {
    if s.i >= |s.tables.clients| then s
    else
      var t, fd := s.tables, s.tables.clients[s.i];
      if fd !in r.ready then s.(i := s.i + 1)
      else if fd !in r.received then
        LoopState(t.(clients := SwapRemove(t.clients, s.i)), s.i, s.events + [Closed(fd)])
      else
        LoopState(t, s.i + 1, s.events + [Relayed(fd, r.received[fd], Except(t.clients, fd) + t.monitors)])
  }

  function LoopAfter(s: LoopState, r: Round, turns: nat): (s': LoopState) {
    if turns == 0 then s else LoopStep(LoopAfter(s, r, turns - 1), r)
  }

  lemma {:induction false} LoopAfterFirst(s: LoopState, r: Round, turns: nat)
    ensures LoopAfter(s, r, turns + 1) == LoopAfter(LoopStep(s, r), r, turns)
  {
    hide LoopStep;
    if turns > 0 {
      LoopAfterFirst(s, r, turns - 1);
      assert LoopAfter(s, r, turns + 1) == LoopStep(LoopAfter(s, r, turns), r);
    } else {
      assert LoopAfter(s, r, 1) == LoopStep(LoopAfter(s, r, 0), r);
    }
  }

  lemma StepServes(s: LoopState, r: Round)
    requires s.i < |s.tables.clients|
    ensures var n := LoopStep(s, r);
            && n.i <= |n.tables.clients| && |n.tables.clients| - n.i == |s.tables.clients| - s.i - 1
            && n.tables.monitors == s.tables.monitors
            && ServeFrom(n.tables, n.i, r).table == ServeFrom(s.tables, s.i, r).table
            && n.events + ServeFrom(n.tables, n.i, r).events == s.events + ServeFrom(s.tables, s.i, r).events
  {
    hide Except, SwapRemove;
  }

  // Each turn brings the end one closer, and at the end the loop has served from where it began.
  lemma {:induction false} LoopReachesEnd(s: LoopState, r: Round)
    requires s.i <= |s.tables.clients|
    ensures var a := ServeFrom(s.tables, s.i, r);
            LoopAfter(s, r, |s.tables.clients| - s.i) ==
              LoopState(s.tables.(clients := a.table), |a.table|, s.events + a.events)
    decreases |s.tables.clients| - s.i
  {
    if s.i == |s.tables.clients| {
      assert s.events + [] == s.events;
    } else {
      hide ServeFrom, LoopStep, LoopAfter;
      StepServes(s, r);
      LoopReachesEnd(LoopStep(s, r), r);
      LoopAfterFirst(s, r, |s.tables.clients| - s.i - 1);
    }
  }

  lemma LoopBegins(s: LoopState, r: Round)
    ensures LoopAfter(s, r, 0) == s
  {}

  lemma LoopContinues(s: LoopState, r: Round, turns: nat)
    ensures LoopAfter(s, r, turns + 1) == LoopStep(LoopAfter(s, r, turns), r)
  {}

  datatype RoundResult = RoundResult(tables: Tables, events: seq<Event>)

  function AdmitIfReady(table: seq<int>, side: Side, listener: int, fd: int, ready: set<int>): (a: Admission) {
    if listener in ready then Admit(table, side, fd) else Admission(table, [])
  }

  function AfterRound(listenFd: int, monitorFd: int, t: Tables, r: Round): (res: RoundResult) {
    var a := AdmitIfReady(t.clients, EcuSide, listenFd, r.newEcu, r.ready);
    var b := AdmitIfReady(t.monitors, MonitorSide, monitorFd, r.newMonitor, r.ready);
    var c := ServeFrom(Tables(a.table, b.table), 0, r);
    RoundResult(Tables(c.table, b.table), a.events + b.events + c.events)
  }

  // ---------- The server ----------

  class BusServer {
    const listenFd: int
    const monitorFd: int
    const clients: array<int>
    const monitors: array<int>
    var numClients: nat
    var numMonitors: nat

    ghost predicate Valid()
      reads this
    {
      && clients != monitors
      && clients.Length == MAX_CLIENTS && monitors.Length == MAX_CLIENTS
      && numClients <= MAX_CLIENTS && numMonitors <= MAX_CLIENTS
    }

    ghost function View(): (t: Tables)
      requires Valid()
      reads this, clients, monitors
    {
      Tables(clients[..numClients], monitors[..numMonitors])
    }

    constructor (listenFd: int, monitorFd: int)
      ensures Valid() && fresh(clients) && fresh(monitors)
      ensures View() == Tables([], [])
      ensures this.listenFd == listenFd && this.monitorFd == monitorFd
    {
      this.listenFd, this.monitorFd := listenFd, monitorFd;
      clients := new int[MAX_CLIENTS](_ => 0);
      monitors := new int[MAX_CLIENTS](_ => 0);
      numClients, numMonitors := 0, 0;
    }

    // The descriptors handed to select and the largest of them.
    method WatchSet() returns (rfds: set<int>, maxfd: int)
      requires Valid()
      ensures rfds == {listenFd, monitorFd} + set fd | fd in View().clients
      ensures maxfd >= 0 && forall fd <- rfds :: fd <= maxfd
      ensures maxfd == 0 || maxfd in rfds
    {
      maxfd := 0;
      rfds := {listenFd};
      if listenFd > maxfd {
        maxfd := listenFd;
      }
      rfds := rfds + {monitorFd};
      if monitorFd > maxfd {
        maxfd := monitorFd;
      }
      var i := 0;
      while i < numClients
        invariant 0 <= i <= numClients
        invariant rfds == {listenFd, monitorFd} + set fd | fd in clients[..i]
        invariant maxfd >= 0 && forall fd <- rfds :: fd <= maxfd
        invariant maxfd == 0 || maxfd in rfds
      {
        rfds := rfds + {clients[i]};
        if clients[i] > maxfd {
          maxfd := clients[i];
        }
        i := i + 1;
      }
    }

    method ServeRound(r: Round) returns (events: seq<Event>)
      requires Valid()
      modifies this`numClients, this`numMonitors, clients, monitors
      ensures Valid()
      ensures RoundResult(View(), events) == AfterRound(listenFd, monitorFd, old(View()), r)
    {
      hide ServeFrom, Admit;
      ghost var before := View();
      var accepted := AcceptEcu(r);
      var watching := AcceptMonitor(r);
      var served := ServeClients(r);
      events := accepted + watching + served;
    }

    method AcceptEcu(r: Round) returns (events: seq<Event>)
      requires Valid()
      modifies this`numClients, clients
      ensures Valid() && View().monitors == old(View().monitors)
      ensures Admission(View().clients, events) ==
                AdmitIfReady(old(View().clients), EcuSide, listenFd, r.newEcu, r.ready)
    {
      events := [];
      if listenFd in r.ready {
        var fd := r.newEcu;
        if fd >= 0 && numClients < MAX_CLIENTS {
          clients[numClients] := fd;
          numClients := numClients + 1;
          events := [Accepted(EcuSide, fd)];
        } else if fd >= 0 {
          events := [Accepted(EcuSide, fd), Closed(fd)];
        }
      }
    }

    method AcceptMonitor(r: Round) returns (events: seq<Event>)
      requires Valid()
      modifies this`numMonitors, monitors
      ensures Valid() && View().clients == old(View().clients)
      ensures Admission(View().monitors, events) ==
                AdmitIfReady(old(View().monitors), MonitorSide, monitorFd, r.newMonitor, r.ready)
    {
      events := [];
      if monitorFd in r.ready {
        var fd := r.newMonitor;
        if fd >= 0 && numMonitors < MAX_CLIENTS {
          monitors[numMonitors] := fd;
          numMonitors := numMonitors + 1;
          events := [Accepted(MonitorSide, fd)];
        } else if fd >= 0 {
          events := [Accepted(MonitorSide, fd), Closed(fd)];
        }
      }
    }

    // The loop over clients; removing one swaps the last into its place and revisits it.
    method ServeClients(r: Round) returns (events: seq<Event>)
      requires Valid()
      modifies this`numClients, clients
      ensures Valid() && View().monitors == old(View().monitors)
      ensures Admission(View().clients, events) == ServeFrom(old(View()), 0, r)
    {
      hide Except, SwapRemove, ServeFrom, LoopAfter;
      events := [];
      ghost var start := LoopState(View(), 0, []);
      ghost var turns := 0;
      var i := 0;
      LoopBegins(start, r);
      while i < numClients
        invariant 0 <= i <= numClients && Valid()
        invariant LoopAfter(start, r, turns) == LoopState(View(), i, events)
        invariant turns + (numClients - i) == |start.tables.clients|
        decreases numClients - i
      {
        LoopContinues(start, r, turns);
        var fd := clients[i];
        if fd in r.ready {
          if fd !in r.received {
            events := events + [Closed(fd)];
            SwapOut(i);
            i := i - 1;
          } else {
            var frame := r.received[fd];
            var targets := Broadcast(fd);
            events := events + [Relayed(fd, frame, targets)];
          }
        }
        i := i + 1;
        turns := turns + 1;
      }
      LoopReachesEnd(start, r);
      assert [] + ServeFrom(start.tables, 0, r).events == ServeFrom(start.tables, 0, r).events;
    }

    // Moves the last client into the place of a closed one.
    method SwapOut(i: nat)
      requires Valid() && i < numClients
      modifies this`numClients, clients
      ensures Valid() && numClients == old(numClients) - 1 && View().monitors == old(View().monitors)
      ensures View().clients == SwapRemove(old(View().clients), i)
      ensures forall k :: 0 <= k < numClients && k != i ==> clients[k] == old(clients[k])
      ensures i < numClients ==> clients[i] == old(clients[numClients - 1])
    {
      numClients := numClients - 1;
      clients[i] := clients[numClients];
    }

    // The descriptors a frame from fd is sent to: every other client, then every monitor.
    method Broadcast(fd: int) returns (targets: seq<int>)
      requires Valid()
      ensures targets == Except(View().clients, fd) + View().monitors
    {
      targets := [];
      var j := 0;
      while j < numClients
        invariant 0 <= j <= numClients
        invariant targets == Except(clients[..j], fd)
      {
        assert clients[..j + 1][..j] == clients[..j];
        if clients[j] != fd {
          targets := targets + [clients[j]];
        }
        j := j + 1;
      }
      j := 0;
      while j < numMonitors
        invariant 0 <= j <= numMonitors
        invariant targets == Except(View().clients, fd) + monitors[..j]
      {
        targets := targets + [monitors[j]];
        j := j + 1;
      }
    }
  }
}
