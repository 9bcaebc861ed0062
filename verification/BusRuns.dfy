/** What the bus server guarantees over whole runs: conservation of connections, one receive
    per ready client and round, and totally ordered broadcast. */
module BusRuns {
  import opened Can
  import opened Bus

  // ---------- Reading a trace ----------

  // The connections open at a point of a trace, by the listener that accepted them.
  datatype Live = Live(clients: set<int>, monitors: set<int>)

  const NOBODY: Live := Live({}, {})

  function Next(l: Live, e: Event): (r: Live) {
    match e
    case Accepted(EcuSide, fd) => l.(clients := l.clients + {fd})
    case Accepted(MonitorSide, fd) => l.(monitors := l.monitors + {fd})
    case Closed(fd) => Live(l.clients - {fd}, l.monitors - {fd})
    case Relayed(_, _, _) => l
  }

  function LiveAfter(l: Live, events: seq<Event>): (r: Live)
    decreases |events|
  {
    if events == [] then l else LiveAfter(Next(l, events[0]), events[1..])
  }

  function Elems(s: seq<int>): (r: set<int>) {
    set x | x in s
  }

  ghost predicate NoDup(s: seq<int>) {
    forall i, j :: 0 <= i < j < |s| ==> s[i] != s[j]
  }

  // Descriptors are new when accepted and open when closed; a frame comes from a client and
  // goes once to every other client and once to every monitor.
  ghost predicate GoodEvent(listeners: set<int>, l: Live, e: Event) {
    match e
    case Accepted(_, fd) => fd !in listeners + l.clients + l.monitors
    case Closed(fd) => fd in l.clients + l.monitors
    case Relayed(sender, _, targets) =>
      sender in l.clients && NoDup(targets) && Elems(targets) == (l.clients - {sender}) + l.monitors
  }

  ghost predicate GoodTrace(listeners: set<int>, l: Live, events: seq<Event>)
    decreases |events|
  {
    events == [] || (GoodEvent(listeners, l, events[0]) && GoodTrace(listeners, Next(l, events[0]), events[1..]))
  }

  lemma {:induction false} TraceAppend(listeners: set<int>, l: Live, a: seq<Event>, b: seq<Event>)
    ensures LiveAfter(l, a + b) == LiveAfter(LiveAfter(l, a), b)
    ensures GoodTrace(listeners, l, a + b) <==>
              GoodTrace(listeners, l, a) && GoodTrace(listeners, LiveAfter(l, a), b)
    decreases |a|
  {
    if a == [] {
      assert a + b == b;
    } else {
      assert (a + b)[1..] == a[1..] + b;
      TraceAppend(listeners, Next(l, a[0]), a[1..], b);
    }
  }

  // ---------- Tables ----------

  ghost predicate Consistent(listeners: set<int>, t: Tables) {
    && |t.clients| <= MAX_CLIENTS && |t.monitors| <= MAX_CLIENTS
    && NoDup(t.clients) && NoDup(t.monitors)
    && Elems(t.clients) !! Elems(t.monitors)
    && listeners !! Elems(t.clients) + Elems(t.monitors)
  }

  function LiveIn(t: Tables): (l: Live) {
    Live(Elems(t.clients), Elems(t.monitors))
  }

  lemma SwapRemoveKeeps(t: seq<int>, i: nat)
    requires i < |t| && NoDup(t)
    ensures NoDup(SwapRemove(t, i))
    ensures Elems(SwapRemove(t, i)) == Elems(t) - {t[i]}
  {
    var r, n := SwapRemove(t, i), |t| - 1;
    assert forall k :: 0 <= k < n ==> r[k] == if k == i then t[n] else t[k];
    forall x
      ensures x in r <==> x in t && x != t[i]
    {
      if x in t && x != t[i] {
        var k :| 0 <= k < |t| && t[k] == x;
        assert x == if k == n then r[i] else r[k];
      }
    }
  }

  lemma {:induction false} ExceptKeeps(t: seq<int>, fd: int)
    requires NoDup(t)
    ensures NoDup(Except(t, fd))
    ensures Elems(Except(t, fd)) == Elems(t) - {fd}
  {
    if t != [] {
      var n := |t| - 1;
      ExceptKeeps(t[..n], fd);
      assert t == t[..n] + [t[n]];
      assert Elems(t) == Elems(t[..n]) + {t[n]};
      var e := Except(t[..n], fd);
      assert t[n] !in Elems(e);
      assert Elems(e + [t[n]]) == Elems(e) + {t[n]};
      forall i, j | 0 <= i < j < |e + [t[n]]|
        ensures (e + [t[n]])[i] != (e + [t[n]])[j]
      {
        if j == |e| {
          assert e[i] in Elems(e);
        }
      }
    }
  }

  lemma NoDupConcat(a: seq<int>, b: seq<int>)
    requires NoDup(a) && NoDup(b) && Elems(a) !! Elems(b)
    ensures NoDup(a + b) && Elems(a + b) == Elems(a) + Elems(b)
  {
    forall i, j | 0 <= i < j < |a + b|
      ensures (a + b)[i] != (a + b)[j]
    {
      if i < |a| <= j {
        assert a[i] in Elems(a) && b[j - |a|] in Elems(b);
      }
    }
  }

  // ---------- The client loop ----------

  // Descriptors whose receive fails, among the clients from position i on.
  function Failing(t: Tables, i: nat, r: Round): (s: set<int>)
    requires i <= |t.clients|
  {
    set fd | fd in t.clients[i..] && fd in r.ready && fd !in r.received
  }

  lemma {:induction false} ServeKeeps(listeners: set<int>, t: Tables, i: nat, r: Round)
    requires i <= |t.clients| && Consistent(listeners, t)
    ensures var a := ServeFrom(t, i, r);
            && Consistent(listeners, t.(clients := a.table))
            && GoodTrace(listeners, LiveIn(t), a.events)
            && LiveAfter(LiveIn(t), a.events) == LiveIn(t.(clients := a.table))
            && Elems(a.table) == Elems(t.clients) - Failing(t, i, r)
    decreases |t.clients| - i
  {
    hide Except, SwapRemove, GoodEvent;
    if i < |t.clients| {
      var fd := t.clients[i];
      assert t.clients[i..] == [fd] + t.clients[i + 1..];
      if fd !in r.ready {
        ServeKeeps(listeners, t, i + 1, r);
      } else if fd !in r.received {
        var t' := t.(clients := SwapRemove(t.clients, i));
        SwapRemoveKeeps(t.clients, i);
        ServeKeeps(listeners, t', i, r);
        RemainingAfterSwap(t.clients, i);
        assert Next(LiveIn(t), Closed(fd)) == LiveIn(t');
        CloseGood(listeners, t, fd);
      } else {
        ServeKeeps(listeners, t, i + 1, r);
        RelayGood(listeners, t, fd, r.received[fd]);
      }
    }
  }

  lemma CloseGood(listeners: set<int>, t: Tables, fd: int)
    requires fd in t.clients
    ensures GoodEvent(listeners, LiveIn(t), Closed(fd))
  {}

  lemma RelayGood(listeners: set<int>, t: Tables, fd: int, f: Frame)
    requires Consistent(listeners, t) && fd in t.clients
    ensures GoodEvent(listeners, LiveIn(t), Relayed(fd, f, Except(t.clients, fd) + t.monitors))
  {
    ExceptKeeps(t.clients, fd);
    NoDupConcat(Except(t.clients, fd), t.monitors);
  }

  lemma RemainingAfterSwap(t: seq<int>, i: nat)
    requires i < |t| && NoDup(t)
    ensures forall x :: x in SwapRemove(t, i)[i..] <==> x in t[i + 1..]
    ensures multiset(SwapRemove(t, i)[i..]) == multiset(t[i + 1..])
  {
    var n := |t| - 1;
    if i == n {
      assert SwapRemove(t, i)[i..] == [] == t[i + 1..];
    } else {
      assert SwapRemove(t, i)[i..] == [t[n]] + t[i + 1..n];
      assert t[i + 1..] == t[i + 1..n] + [t[n]];
    }
  }

  // The descriptor each event of the client loop received from.
  function ServedFds(events: seq<Event>): (s: seq<int>)
    requires forall e <- events :: !e.Accepted?
  {
    if events == [] then []
    else [if events[0].Closed? then events[0].fd else events[0].sender] + ServedFds(events[1..])
  }

  function Ready(s: seq<int>, r: Round): (t: seq<int>) {
    if s == [] then [] else (if s[0] in r.ready then [s[0]] else []) + Ready(s[1..], r)
  }

  // Main result: despite the swap-removal, every ready client is received from exactly once and
  // no other is; what it delivered decides between relaying and closing.
  lemma {:induction false} EachReadyClientOnce(t: Tables, i: nat, r: Round)
    requires i <= |t.clients| && NoDup(t.clients)
    ensures var events := ServeFrom(t, i, r).events;
            && (forall e <- events :: !e.Accepted?)
            && multiset(ServedFds(events)) == multiset(Ready(t.clients[i..], r))
            && (forall e <- events :: if e.Closed? then e.fd !in r.received
                                      else e.sender in r.received && e.frame == r.received[e.sender])
    decreases |t.clients| - i
  {
    hide SwapRemove, Except, Ready;
    if i < |t.clients| {
      var fd := t.clients[i];
      ReadyFirst(t.clients, i, r);
      if fd in r.ready && fd !in r.received {
        SwapRemoveKeeps(t.clients, i);
        EachReadyClientOnce(t.(clients := SwapRemove(t.clients, i)), i, r);
        RemainingAfterSwap(t.clients, i);
        ReadyOfSame(SwapRemove(t.clients, i)[i..], t.clients[i + 1..], r);
        ServedFirst(Closed(fd), ServeFrom(t.(clients := SwapRemove(t.clients, i)), i, r).events);
      } else {
        EachReadyClientOnce(t, i + 1, r);
        if fd in r.ready {
          ServedFirst(ServeFrom(t, i, r).events[0], ServeFrom(t, i + 1, r).events);
        }
      }
    } else {
      assert t.clients[i..] == [];
      ReadyOfNone(r);
    }
  }

  lemma ServedFirst(e: Event, rest: seq<Event>)
    requires !e.Accepted? && forall x <- rest :: !x.Accepted?
    ensures (forall x <- [e] + rest :: x == e || x in rest)
    ensures ServedFds([e] + rest) == [if e.Closed? then e.fd else e.sender] + ServedFds(rest)
  {
    assert ([e] + rest)[1..] == rest;
  }

  lemma ReadyFirst(t: seq<int>, i: nat, r: Round)
    requires i < |t|
    ensures Ready(t[i..], r) == (if t[i] in r.ready then [t[i]] else []) + Ready(t[i + 1..], r)
  {
    assert t[i..][1..] == t[i + 1..];
  }

  lemma ReadyOfNone(r: Round)
    ensures Ready([], r) == []
  {}

  lemma {:induction false} ReadyCount(s: seq<int>, r: Round, x: int)
    ensures multiset(Ready(s, r))[x] == if x in r.ready then multiset(s)[x] else 0
  {
    if s != [] {
      ReadyCount(s[1..], r, x);
      assert s == [s[0]] + s[1..];
    }
  }

  lemma ReadyOfSame(a: seq<int>, b: seq<int>, r: Round)
    requires multiset(a) == multiset(b)
    ensures multiset(Ready(a, r)) == multiset(Ready(b, r))
  {
    forall x
      ensures multiset(Ready(a, r))[x] == multiset(Ready(b, r))[x]
    {
      ReadyCount(a, r, x);
      ReadyCount(b, r, x);
    }
  }

  // ---------- The order of service ----------

  // The clients still to be visited once the first of them is closed: the last one comes first.
  function LastToFront(q: seq<int>): (r: seq<int>)
    requires q != []
    ensures |r| == |q| - 1
  {
    if |q| == 1 then [] else [q[|q| - 1]] + q[1..|q| - 1]
  }

  // Who is received from, in order, when the clients q are still to be visited.
  function ServiceOrder(q: seq<int>, r: Round): (s: seq<int>)
    decreases |q|
  {
    if q == [] then []
    else if q[0] !in r.ready then ServiceOrder(q[1..], r)
    else if q[0] in r.received then [q[0]] + ServiceOrder(q[1..], r)
    else [q[0]] + ServiceOrder(LastToFront(q), r)
  }

  // Who of them is left in the table, in order.
  function Remaining(q: seq<int>, r: Round): (s: seq<int>)
    decreases |q|
  {
    if q == [] then []
    else if q[0] in r.ready && q[0] !in r.received then Remaining(LastToFront(q), r)
    else [q[0]] + Remaining(q[1..], r)
  }

  predicate EndsWith(s: seq<int>, last: seq<int>) {
    |last| <= |s| && s[|s| - |last|..] == last
  }

  lemma SwapBringsLastToFront(t: seq<int>, i: nat)
    requires i < |t|
    ensures SwapRemove(t, i)[i..] == LastToFront(t[i..]) && SwapRemove(t, i)[..i] == t[..i]
  {
    SwapRemovePlaces(t, i);
  }

  // Main result: the client loop visits its table front to back, except that when a client is
  // closed the last one is visited next, in the place that became free; the table it leaves is in
  // the order of those visits. Every relayed frame goes to the monitors last.
  lemma {:induction false} ServedInOrder(t: Tables, i: nat, r: Round)
    requires i <= |t.clients|
    ensures var a := ServeFrom(t, i, r);
            && (forall e <- a.events :: !e.Accepted?)
            && ServedFds(a.events) == ServiceOrder(t.clients[i..], r)
            && a.table == t.clients[..i] + Remaining(t.clients[i..], r)
            && (forall e <- a.events :: e.Relayed? ==> EndsWith(e.targets, t.monitors))
    decreases |t.clients| - i
  {
    hide SwapRemove, Except, LastToFront;
    var q := t.clients[i..];
    if i < |t.clients| {
      var fd := t.clients[i];
      assert q[0] == fd && q[1..] == t.clients[i + 1..];
      if fd in r.ready && fd !in r.received {
        SwapBringsLastToFront(t.clients, i);
        ServedInOrder(t.(clients := SwapRemove(t.clients, i)), i, r);
      } else {
        ServedInOrder(t, i + 1, r);
        assert t.clients[..i + 1] + Remaining(q[1..], r) == t.clients[..i] + ([fd] + Remaining(q[1..], r));
      }
    } else {
      assert t.clients[..i] + [] == t.clients;
    }
  }

  function AdmittedTo(table: seq<int>, listener: int, fd: int, r: Round): (s: seq<int>) {
    if listener in r.ready && fd >= 0 && |table| < 32 then [fd] else []
  }

  // Both accepts come before the client loop: the tables after a round, in order.
  lemma TablesAfterRound(listenFd: int, monitorFd: int, t: Tables, r: Round)
    ensures AfterRound(listenFd, monitorFd, t, r).tables ==
              Tables(Remaining(t.clients + AdmittedTo(t.clients, listenFd, r.newEcu, r), r),
                     t.monitors + AdmittedTo(t.monitors, monitorFd, r.newMonitor, r))
  {
    hide ServeFrom, Remaining;
    var clients := t.clients + AdmittedTo(t.clients, listenFd, r.newEcu, r);
    var monitors := t.monitors + AdmittedTo(t.monitors, monitorFd, r.newMonitor, r);
    ServedInOrder(Tables(clients, monitors), 0, r);
    assert clients[0..] == clients && clients[..0] + Remaining(clients, r) == Remaining(clients, r);
    assert t.clients + [] == t.clients && t.monitors + [] == t.monitors;
  }

  // The sends for a frame skip its sender and keep the table's order.
  lemma {:induction false} ExceptCutsOut(t: seq<int>, i: nat)
    requires i < |t| && NoDup(t)
    ensures Except(t, t[i]) == t[..i] + t[i + 1..]
  {
    var n := |t| - 1;
    if i == n {
      ExceptAbsent(t[..n], t[n]);
      assert t[i + 1..] == [] && t[..i] + [] == t[..i];
    } else {
      ExceptCutsOut(t[..n], i);
      assert t[..n][..i] == t[..i];
      assert t[..i] + t[..n][i + 1..] + [t[n]] == t[..i] + t[i + 1..];
    }
  }

  lemma {:induction false} ExceptAbsent(t: seq<int>, fd: int)
    requires fd !in t
    ensures Except(t, fd) == t
  {
    if t != [] {
      ExceptAbsent(t[..|t| - 1], fd);
    }
  }

  // ---------- Whole rounds ----------

  // select reports only watched descriptors; accept returns a descriptor that is not open.
  ghost predicate EnvironmentOk(listenFd: int, monitorFd: int, t: Tables, r: Round) {
    var open := {listenFd, monitorFd} + Elems(t.clients) + Elems(t.monitors);
    var a := AdmitIfReady(t.clients, EcuSide, listenFd, r.newEcu, r.ready);
    && r.ready <= {listenFd, monitorFd} + Elems(t.clients)
    && (listenFd in r.ready && r.newEcu >= 0 ==> r.newEcu !in open)
    && (monitorFd in r.ready && r.newMonitor >= 0 ==> r.newMonitor !in open + Elems(a.table))
  }

  lemma AdmitKeeps(listeners: set<int>, t: Tables, side: Side, listener: int, fd: int, ready: set<int>)
    requires Consistent(listeners, t)
    requires listener in ready && fd >= 0 ==> fd !in listeners + Elems(t.clients) + Elems(t.monitors)
    ensures var a := AdmitIfReady(if side == EcuSide then t.clients else t.monitors, side, listener, fd, ready);
            var t' := if side == EcuSide then t.(clients := a.table) else t.(monitors := a.table);
            && Consistent(listeners, t')
            && GoodTrace(listeners, LiveIn(t), a.events)
            && LiveAfter(LiveIn(t), a.events) == LiveIn(t')
  {
    var table := if side == EcuSide then t.clients else t.monitors;
    var a := AdmitIfReady(table, side, listener, fd, ready);
    assert Elems(table + [fd]) == Elems(table) + {fd};
    if listener in ready && fd >= 0 {
      var l1 := Next(LiveIn(t), Accepted(side, fd));
      if |table| >= MAX_CLIENTS {
        assert a.events[1..] == [Closed(fd)] && a.events[1..][1..] == [];
        assert Next(l1, Closed(fd)) == LiveIn(t);
        assert LiveAfter(l1, [Closed(fd)]) == LiveIn(t);
      } else {
        assert a.events[1..] == [];
      }
    }
  }

  lemma RoundKeeps(listenFd: int, monitorFd: int, t: Tables, r: Round)
    requires listenFd != monitorFd
    requires Consistent({listenFd, monitorFd}, t) && EnvironmentOk(listenFd, monitorFd, t, r)
    ensures var res := AfterRound(listenFd, monitorFd, t, r);
            && Consistent({listenFd, monitorFd}, res.tables)
            && GoodTrace({listenFd, monitorFd}, LiveIn(t), res.events)
            && LiveAfter(LiveIn(t), res.events) == LiveIn(res.tables)
  {
    hide GoodTrace, ServeFrom, Consistent, LiveIn, LiveAfter, Admit;
    var ls := {listenFd, monitorFd};
    var a := AdmitIfReady(t.clients, EcuSide, listenFd, r.newEcu, r.ready);
    var b := AdmitIfReady(t.monitors, MonitorSide, monitorFd, r.newMonitor, r.ready);
    var ta := t.(clients := a.table);
    var tb := ta.(monitors := b.table);
    var c := ServeFrom(tb, 0, r);
    AdmitKeeps(ls, t, EcuSide, listenFd, r.newEcu, r.ready);
    AdmittedElems(t.clients, EcuSide, listenFd, r.newEcu, r.ready);
    AdmitKeeps(ls, ta, MonitorSide, monitorFd, r.newMonitor, r.ready);
    ServeKeeps(ls, tb, 0, r);
    TraceAppend(ls, LiveIn(t), a.events, b.events);
    TraceAppend(ls, LiveIn(t), a.events + b.events, c.events);
  }

  lemma NothingHappens(listeners: set<int>, t: Tables)
    ensures GoodTrace(listeners, LiveIn(t), []) && LiveAfter(LiveIn(t), []) == LiveIn(t)
  {}

  lemma AdmittedElems(table: seq<int>, side: Side, listener: int, fd: int, ready: set<int>)
    ensures Elems(AdmitIfReady(table, side, listener, fd, ready).table) ==
              Elems(table) + (if listener in ready && fd >= 0 && |table| < MAX_CLIENTS then {fd} else {})
  {
    assert Elems(table + [fd]) == Elems(table) + {fd};
  }

  // Main result on one round: exactly the ready clients are received from, each once; never the
  // connection accepted in this very round, nor one that was not reported ready.
  lemma RoundReceives(listenFd: int, monitorFd: int, t: Tables, r: Round)
    requires listenFd != monitorFd
    requires Consistent({listenFd, monitorFd}, t) && EnvironmentOk(listenFd, monitorFd, t, r)
    ensures var a := AdmitIfReady(t.clients, EcuSide, listenFd, r.newEcu, r.ready);
            var b := AdmitIfReady(t.monitors, MonitorSide, monitorFd, r.newMonitor, r.ready);
            var served := ServeFrom(Tables(a.table, b.table), 0, r).events;
            && AfterRound(listenFd, monitorFd, t, r).events == a.events + b.events + served
            && (forall e <- served :: !e.Accepted?)
            && multiset(ServedFds(served)) == multiset(r.ready - {listenFd, monitorFd})
  {
    hide GoodTrace, ServeFrom, LiveAfter, Admit;
    var ls := {listenFd, monitorFd};
    var a := AdmitIfReady(t.clients, EcuSide, listenFd, r.newEcu, r.ready);
    var b := AdmitIfReady(t.monitors, MonitorSide, monitorFd, r.newMonitor, r.ready);
    AdmitKeeps(ls, t, EcuSide, listenFd, r.newEcu, r.ready);
    AdmittedElems(t.clients, EcuSide, listenFd, r.newEcu, r.ready);
    EachReadyClientOnce(Tables(a.table, b.table), 0, r);
    assert a.table[0..] == a.table;
    var expected := r.ready - ls;
    forall x
      ensures multiset(Ready(a.table, r))[x] == multiset(expected)[x]
    {
      ReadyCount(a.table, r, x);
      NoDupCount(a.table, x);
    }
    assert multiset(Ready(a.table, r)) == multiset(expected);
  }

  // The client table after a round: what it was, plus an admitted connection, minus exactly
  // the ready clients whose receive failed. A connection admitted in this round stays.
  lemma ClientsAfterRound(listenFd: int, monitorFd: int, t: Tables, r: Round)
    requires listenFd != monitorFd
    requires Consistent({listenFd, monitorFd}, t) && EnvironmentOk(listenFd, monitorFd, t, r)
    ensures var admitted :=
              if listenFd in r.ready && r.newEcu >= 0 && |t.clients| < 32 then {r.newEcu} else {};
            Elems(AfterRound(listenFd, monitorFd, t, r).tables.clients) ==
              Elems(t.clients) + admitted - (r.ready - r.received.Keys)
  {
    hide GoodTrace, ServeFrom, LiveAfter;
    var ls := {listenFd, monitorFd};
    var a := AdmitIfReady(t.clients, EcuSide, listenFd, r.newEcu, r.ready);
    var b := AdmitIfReady(t.monitors, MonitorSide, monitorFd, r.newMonitor, r.ready);
    var ta := t.(clients := a.table);
    AdmitKeeps(ls, t, EcuSide, listenFd, r.newEcu, r.ready);
    AdmitKeeps(ls, ta, MonitorSide, monitorFd, r.newMonitor, r.ready);
    ServeKeeps(ls, Tables(a.table, b.table), 0, r);
    assert a.table[0..] == a.table;
    assert Elems(t.clients + [r.newEcu]) == Elems(t.clients) + {r.newEcu};
  }

  // ---------- Whole runs ----------

  function RunFrom(listenFd: int, monitorFd: int, t: Tables, rounds: seq<Round>): (res: RoundResult) {
    if rounds == [] then
      RoundResult(t, [])
    else
      var n := |rounds| - 1;
      var before := RunFrom(listenFd, monitorFd, t, rounds[..n]);
      var last := AfterRound(listenFd, monitorFd, before.tables, rounds[n]);
      RoundResult(last.tables, before.events + last.events)
  }

  ghost predicate EnvironmentOkThroughout(listenFd: int, monitorFd: int, t: Tables, rounds: seq<Round>) {
    forall k :: 0 <= k < |rounds| ==>
      EnvironmentOk(listenFd, monitorFd, RunFrom(listenFd, monitorFd, t, rounds[..k]).tables, rounds[k])
  }

  lemma {:induction false} EnvironmentOkBefore(listenFd: int, monitorFd: int, t: Tables, rounds: seq<Round>)
    requires rounds != [] && EnvironmentOkThroughout(listenFd, monitorFd, t, rounds)
    ensures var n := |rounds| - 1;
            && EnvironmentOkThroughout(listenFd, monitorFd, t, rounds[..n])
            && EnvironmentOk(listenFd, monitorFd, RunFrom(listenFd, monitorFd, t, rounds[..n]).tables, rounds[n])
  {
    hide RunFrom, EnvironmentOk;
    var n := |rounds| - 1;
    assert forall k :: 0 <= k < n ==> rounds[..n][..k] == rounds[..k];
  }

  const EMPTY: Tables := Tables([], [])

  method RunServer(listenFd: int, monitorFd: int, rounds: seq<Round>) returns (server: BusServer, trace: seq<Event>)
    ensures server.Valid()
    ensures RoundResult(server.View(), trace) == RunFrom(listenFd, monitorFd, EMPTY, rounds)
  {
    hide AfterRound;
    server := new BusServer(listenFd, monitorFd);
    trace := [];
    var k := 0;
    while k < |rounds|
      invariant 0 <= k <= |rounds|
      invariant server.Valid() && fresh(server) && fresh(server.clients) && fresh(server.monitors)
      invariant server.listenFd == listenFd && server.monitorFd == monitorFd
      invariant RoundResult(server.View(), trace) == RunFrom(listenFd, monitorFd, EMPTY, rounds[..k])
    {
      assert rounds[..k + 1][..k] == rounds[..k];
      var events := server.ServeRound(rounds[k]);
      trace := trace + events;
      k := k + 1;
    }
    assert rounds[..k] == rounds;
  }

  lemma {:induction false} RunKeeps(listenFd: int, monitorFd: int, t: Tables, rounds: seq<Round>)
    requires listenFd != monitorFd
    requires Consistent({listenFd, monitorFd}, t) && EnvironmentOkThroughout(listenFd, monitorFd, t, rounds)
    ensures var res := RunFrom(listenFd, monitorFd, t, rounds);
            && Consistent({listenFd, monitorFd}, res.tables)
            && GoodTrace({listenFd, monitorFd}, LiveIn(t), res.events)
            && LiveAfter(LiveIn(t), res.events) == LiveIn(res.tables)
  {
    hide GoodTrace, LiveAfter, AfterRound, Consistent, EnvironmentOk, EnvironmentOkThroughout;
    var ls := {listenFd, monitorFd};
    if rounds == [] {
      NothingHappens(ls, t);
    } else {
      var n := |rounds| - 1;
      EnvironmentOkBefore(listenFd, monitorFd, t, rounds);
      RunKeeps(listenFd, monitorFd, t, rounds[..n]);
      var before := RunFrom(listenFd, monitorFd, t, rounds[..n]);
      RoundKeeps(listenFd, monitorFd, before.tables, rounds[n]);
      TraceAppend(ls, LiveIn(t), before.events, AfterRound(listenFd, monitorFd, before.tables, rounds[n]).events);
    }
  }

  // Main result: in every state the server's loop reaches, both tables are within bounds, all
  // stored descriptors and the listeners are distinct, and what was accepted and not yet closed
  // is exactly what the tables hold: nothing leaks and nothing stale is kept.
  lemma {:induction false} ConnectionsConserved(listenFd: int, monitorFd: int, rounds: seq<Round>)
    requires listenFd != monitorFd && EnvironmentOkThroughout(listenFd, monitorFd, EMPTY, rounds)
    ensures var res := RunFrom(listenFd, monitorFd, EMPTY, rounds);
            && |res.tables.clients| <= 32 && |res.tables.monitors| <= 32
            && NoDup([listenFd, monitorFd] + res.tables.clients + res.tables.monitors)
            && LiveAfter(NOBODY, res.events) == LiveIn(res.tables)
            && GoodTrace({listenFd, monitorFd}, NOBODY, res.events)
  {
    hide GoodTrace, LiveAfter, RunFrom, EnvironmentOk;
    assert LiveIn(EMPTY) == NOBODY;
    RunKeeps(listenFd, monitorFd, EMPTY, rounds);
    var t := RunFrom(listenFd, monitorFd, EMPTY, rounds).tables;
    assert Elems([listenFd, monitorFd]) == {listenFd, monitorFd};
    NoDupConcat([listenFd, monitorFd], t.clients);
    NoDupConcat([listenFd, monitorFd] + t.clients, t.monitors);
  }

  // ---------- Inside a round ----------

  // The tables hold exactly what the trace has accepted and not closed.
  ghost predicate Conserved(listeners: set<int>, t: Tables, events: seq<Event>) {
    && Consistent(listeners, t)
    && LiveAfter(NOBODY, events) == LiveIn(t)
    && GoodTrace(listeners, NOBODY, events)
  }

  lemma ConservedExtends(listeners: set<int>, t: Tables, events: seq<Event>, t': Tables, more: seq<Event>)
    requires Conserved(listeners, t, events) && Consistent(listeners, t')
    requires GoodTrace(listeners, LiveIn(t), more) && LiveAfter(LiveIn(t), more) == LiveIn(t')
    ensures Conserved(listeners, t', events + more)
  {
    hide GoodTrace, LiveAfter, Consistent;
    TraceAppend(listeners, NOBODY, events, more);
  }

  lemma SingleEvent(listeners: set<int>, l: Live, e: Event)
    ensures GoodTrace(listeners, l, [e]) <==> GoodEvent(listeners, l, e)
    ensures LiveAfter(l, [e]) == Next(l, e)
  {
    hide GoodEvent;
    assert [e][1..] == [];
  }

  lemma LoopStepConserves(listeners: set<int>, s: LoopState, r: Round)
    requires Conserved(listeners, s.tables, s.events)
    ensures Conserved(listeners, LoopStep(s, r).tables, LoopStep(s, r).events)
  {
    hide GoodTrace, LiveAfter, GoodEvent, SwapRemove, Except;
    if s.i < |s.tables.clients| {
      var t, fd := s.tables, s.tables.clients[s.i];
      if fd in r.ready {
        if fd !in r.received {
          var t' := t.(clients := SwapRemove(t.clients, s.i));
          SwapRemoveKeeps(t.clients, s.i);
          CloseGood(listeners, t, fd);
          SingleEvent(listeners, LiveIn(t), Closed(fd));
          assert Next(LiveIn(t), Closed(fd)) == LiveIn(t');
          ConservedExtends(listeners, t, s.events, t', [Closed(fd)]);
        } else {
          var e := Relayed(fd, r.received[fd], Except(t.clients, fd) + t.monitors);
          RelayGood(listeners, t, fd, r.received[fd]);
          SingleEvent(listeners, LiveIn(t), e);
          ConservedExtends(listeners, t, s.events, t, [e]);
        }
      }
    }
  }

  lemma {:induction false} LoopConserves(listeners: set<int>, s: LoopState, r: Round, turns: nat)
    requires Conserved(listeners, s.tables, s.events)
    ensures var n := LoopAfter(s, r, turns);
            Conserved(listeners, n.tables, n.events)
  {
    hide Conserved, LoopStep;
    if turns > 0 {
      LoopConserves(listeners, s, r, turns - 1);
      LoopStepConserves(listeners, LoopAfter(s, r, turns - 1), r);
    }
  }

  // Main result: conservation also holds at every point inside a round of any run: after each of
  // the two accepts and after every turn of the client loop, while removals shuffle the table.
  lemma {:induction false} ConservedInsideRounds(
    listenFd: int, monitorFd: int, rounds: seq<Round>, r: Round, turns: nat)
    requires listenFd != monitorFd && EnvironmentOkThroughout(listenFd, monitorFd, EMPTY, rounds)
    requires EnvironmentOk(listenFd, monitorFd, RunFrom(listenFd, monitorFd, EMPTY, rounds).tables, r)
    ensures var ls, before := {listenFd, monitorFd}, RunFrom(listenFd, monitorFd, EMPTY, rounds);
            var t := before.tables;
            var a := AdmitIfReady(t.clients, EcuSide, listenFd, r.newEcu, r.ready);
            var b := AdmitIfReady(t.monitors, MonitorSide, monitorFd, r.newMonitor, r.ready);
            var n := LoopAfter(LoopState(Tables(a.table, b.table), 0, before.events + a.events + b.events), r, turns);
            && Conserved(ls, t, before.events)
            && Conserved(ls, t.(clients := a.table), before.events + a.events)
            && Conserved(ls, Tables(a.table, b.table), before.events + a.events + b.events)
            && Conserved(ls, n.tables, n.events)
  {
    hide GoodTrace, LiveAfter, RunFrom, Consistent, EnvironmentOkThroughout, LoopAfter, AdmitIfReady;
    var ls, before := {listenFd, monitorFd}, RunFrom(listenFd, monitorFd, EMPTY, rounds);
    var t := before.tables;
    var a := AdmitIfReady(t.clients, EcuSide, listenFd, r.newEcu, r.ready);
    var b := AdmitIfReady(t.monitors, MonitorSide, monitorFd, r.newMonitor, r.ready);
    assert LiveIn(EMPTY) == NOBODY;
    EmptyConsistent(ls);
    RunKeeps(listenFd, monitorFd, EMPTY, rounds);
    AdmitKeeps(ls, t, EcuSide, listenFd, r.newEcu, r.ready);
    AdmittedElems(t.clients, EcuSide, listenFd, r.newEcu, r.ready);
    ConservedExtends(ls, t, before.events, t.(clients := a.table), a.events);
    AdmitKeeps(ls, t.(clients := a.table), MonitorSide, monitorFd, r.newMonitor, r.ready);
    ConservedExtends(ls, t.(clients := a.table), before.events + a.events, Tables(a.table, b.table), b.events);
    LoopConserves(ls, LoopState(Tables(a.table, b.table), 0, before.events + a.events + b.events), r, turns);
  }

  lemma EmptyConsistent(listeners: set<int>)
    ensures Consistent(listeners, EMPTY)
  {}

  // ---------- Total-order broadcast ----------

  datatype Delivery = Delivery(sender: int, frame: Frame)

  function Copies(d: Delivery, n: nat): (s: seq<Delivery>) {
    seq(n, _ => d)
  }

  // Everything the server received, in order.
  function Log(events: seq<Event>): (log: seq<Delivery>) {
    if events == [] then []
    else if events[0].Relayed? then [Delivery(events[0].sender, events[0].frame)] + Log(events[1..])
    else Log(events[1..])
  }

  // Everything the server sent to fd, in order and with repetitions.
  function SentTo(fd: int, events: seq<Event>): (s: seq<Delivery>) {
    if events == [] then []
    else if events[0].Relayed? then
      Copies(Delivery(events[0].sender, events[0].frame), multiset(events[0].targets)[fd]) + SentTo(fd, events[1..])
    else
      SentTo(fd, events[1..])
  }

  function NotFrom(log: seq<Delivery>, fd: int): (s: seq<Delivery>) {
    if log == [] then []
    else if log[0].sender != fd then [log[0]] + NotFrom(log[1..], fd)
    else NotFrom(log[1..], fd)
  }

  lemma NotFromCons(d: Delivery, log: seq<Delivery>, fd: int)
    ensures NotFrom([d] + log, fd) == if d.sender != fd then [d] + NotFrom(log, fd) else NotFrom(log, fd)
  {
    assert ([d] + log)[1..] == log;
  }

  lemma {:induction false} NoDupCount(s: seq<int>, x: int)
    requires NoDup(s)
    ensures multiset(s)[x] == if x in Elems(s) then 1 else 0
  {
    if s != [] {
      assert s == [s[0]] + s[1..];
      NoDupCount(s[1..], x);
      assert Elems(s) == {s[0]} + Elems(s[1..]);
      assert forall k :: 0 <= k < |s[1..]| ==> s[1..][k] == s[k + 1] != s[0];
    }
  }

  lemma {:induction false} DeliveredWhileLive(listeners: set<int>, l: Live, events: seq<Event>, fd: int)
    requires GoodTrace(listeners, l, events) && Closed(fd) !in events
    requires fd in l.clients + l.monitors && l.clients !! l.monitors
    ensures SentTo(fd, events) == NotFrom(Log(events), fd)
    decreases |events|
  {
    if events != [] {
      var e, rest := events[0], events[1..];
      assert e in events && forall x <- rest :: x in events;
      DeliveredWhileLive(listeners, Next(l, e), rest, fd);
      if e.Relayed? {
        NoDupCount(e.targets, fd);
        var d := Delivery(e.sender, e.frame);
        assert Log(events) == [d] + Log(rest);
        NotFromCons(d, Log(rest), fd);
        assert Copies(d, 0) == [] && Copies(d, 1) == [d];
      } else {
        assert Log(events) == Log(rest) && SentTo(fd, events) == SentTo(fd, rest);
      }
    }
  }

  // A connection is neither served nor addressed before it is accepted or after it is closed.
  lemma {:induction false} NothingWhileAbsent(listeners: set<int>, l: Live, events: seq<Event>, fd: int)
    requires GoodTrace(listeners, l, events)
    requires forall side :: Accepted(side, fd) !in events
    requires fd !in l.clients + l.monitors
    ensures SentTo(fd, events) == [] && NotFrom(Log(events), fd) == Log(events)
    decreases |events|
  {
    if events != [] {
      var e, rest := events[0], events[1..];
      assert e in events && forall x <- rest :: x in events;
      NothingWhileAbsent(listeners, Next(l, e), rest, fd);
      if e.Relayed? {
        NoDupCount(e.targets, fd);
        NotFromCons(Delivery(e.sender, e.frame), Log(rest), fd);
        assert Log(events) == [Delivery(e.sender, e.frame)] + Log(rest);
      }
    }
  }

  lemma SegmentOfTrace(listeners: set<int>, l: Live, trace: seq<Event>, p: nat, q: nat)
    requires p <= q <= |trace| && GoodTrace(listeners, l, trace)
    ensures GoodTrace(listeners, LiveAfter(l, trace[..p]), trace[p..q])
  {
    hide GoodTrace, LiveAfter;
    assert trace == trace[..q] + trace[q..];
    assert trace[..q] == trace[..p] + trace[p..q];
    TraceAppend(listeners, l, trace[..q], trace[q..]);
    TraceAppend(listeners, l, trace[..p], trace[p..q]);
  }

  lemma {:induction false} ClientsAndMonitorsApart(listeners: set<int>, l: Live, events: seq<Event>)
    requires GoodTrace(listeners, l, events) && l.clients !! l.monitors
    ensures LiveAfter(l, events).clients !! LiveAfter(l, events).monitors
    decreases |events|
  {
    if events != [] {
      ClientsAndMonitorsApart(listeners, Next(l, events[0]), events[1..]);
    }
  }

  lemma {:induction false} OnlyClientsSend(listeners: set<int>, l: Live, events: seq<Event>, fd: int)
    requires GoodTrace(listeners, l, events) && Closed(fd) !in events
    requires fd in l.monitors && l.clients !! l.monitors
    ensures NotFrom(Log(events), fd) == Log(events)
    decreases |events|
  {
    if events != [] {
      var e, rest := events[0], events[1..];
      assert e in events && forall x <- rest :: x in events;
      OnlyClientsSend(listeners, Next(l, e), rest, fd);
      if e.Relayed? {
        NotFromCons(Delivery(e.sender, e.frame), Log(rest), fd);
        assert Log(events) == [Delivery(e.sender, e.frame)] + Log(rest);
      }
    }
  }

  // Main result: between any two positions of any run's trace, whoever stays connected is sent
  // the server's log of that interval without its own frames: nothing lost, doubled, echoed or
  // reordered. A monitor is sent the whole log. Descriptor reuse makes no difference.
  lemma {:induction false} TotalOrderBroadcast(
    listenFd: int, monitorFd: int, rounds: seq<Round>, p: nat, q: nat, fd: int)
    requires listenFd != monitorFd && EnvironmentOkThroughout(listenFd, monitorFd, EMPTY, rounds)
    requires var trace := RunFrom(listenFd, monitorFd, EMPTY, rounds).events;
             && p <= q <= |trace|
             && fd in LiveAfter(NOBODY, trace[..p]).clients + LiveAfter(NOBODY, trace[..p]).monitors
             && Closed(fd) !in trace[p..q]
    ensures var trace := RunFrom(listenFd, monitorFd, EMPTY, rounds).events;
            && SentTo(fd, trace[p..q]) == NotFrom(Log(trace[p..q]), fd)
            && (fd in LiveAfter(NOBODY, trace[..p]).monitors ==> SentTo(fd, trace[p..q]) == Log(trace[p..q]))
  {
    hide GoodTrace, LiveAfter, RunFrom, SentTo, Log, EnvironmentOkThroughout;
    var ls := {listenFd, monitorFd};
    var trace := RunFrom(listenFd, monitorFd, EMPTY, rounds).events;
    ConnectionsConserved(listenFd, monitorFd, rounds);
    SegmentOfTrace(ls, NOBODY, trace, 0, p);
    assert trace[..0] == [] && trace[0..p] == trace[..p];
    StartOfTrace(NOBODY);
    var l := LiveAfter(NOBODY, trace[..p]);
    ClientsAndMonitorsApart(ls, NOBODY, trace[..p]);
    SegmentOfTrace(ls, NOBODY, trace, p, q);
    DeliveredWhileLive(ls, l, trace[p..q], fd);
    if fd in l.monitors {
      OnlyClientsSend(ls, l, trace[p..q], fd);
    }
  }

  lemma StartOfTrace(l: Live)
    ensures LiveAfter(l, []) == l
  {}

  lemma {:induction false} NotFromCommutes(log: seq<Delivery>, x: int, y: int)
    ensures NotFrom(NotFrom(log, x), y) == NotFrom(NotFrom(log, y), x)
  {
    if log != [] {
      var d, rest := log[0], log[1..];
      NotFromCommutes(rest, x, y);
      NotFromCons(d, NotFrom(rest, x), y);
      NotFromCons(d, NotFrom(rest, y), x);
    }
  }

  // Any two receivers see the frames of third parties in the same order.
  lemma {:induction false} ReceiversAgree(
    listenFd: int, monitorFd: int, rounds: seq<Round>, p: nat, q: nat, x: int, y: int)
    requires listenFd != monitorFd && EnvironmentOkThroughout(listenFd, monitorFd, EMPTY, rounds)
    requires var trace := RunFrom(listenFd, monitorFd, EMPTY, rounds).events;
             && p <= q <= |trace|
             && {x, y} <= LiveAfter(NOBODY, trace[..p]).clients + LiveAfter(NOBODY, trace[..p]).monitors
             && Closed(x) !in trace[p..q] && Closed(y) !in trace[p..q]
    ensures var trace := RunFrom(listenFd, monitorFd, EMPTY, rounds).events;
            NotFrom(SentTo(x, trace[p..q]), y) == NotFrom(SentTo(y, trace[p..q]), x)
  {
    hide LiveAfter, RunFrom, SentTo, Log, NotFrom, EnvironmentOkThroughout;
    var trace := RunFrom(listenFd, monitorFd, EMPTY, rounds).events;
    TotalOrderBroadcast(listenFd, monitorFd, rounds, p, q, x);
    TotalOrderBroadcast(listenFd, monitorFd, rounds, p, q, y);
    NotFromCommutes(Log(trace[p..q]), x, y);
  }

  // ---------- Each sender's frames, in the order it sent them ----------

  function FramesFrom(fd: int, events: seq<Event>): (s: seq<Frame>) {
    if events == [] then []
    else if events[0].Relayed? && events[0].sender == fd then [events[0].frame] + FramesFrom(fd, events[1..])
    else FramesFrom(fd, events[1..])
  }

  lemma {:induction false} FramesFromAppend(fd: int, a: seq<Event>, b: seq<Event>)
    ensures FramesFrom(fd, a + b) == FramesFrom(fd, a) + FramesFrom(fd, b)
  {
    if a == [] {
      assert a + b == b;
    } else {
      assert (a + b)[1..] == a[1..] + b;
      FramesFromAppend(fd, a[1..], b);
    }
  }

  // The frames the environment delivers from fd, at most one a round.
  function Read(fd: int, r: Round): (s: seq<Frame>) {
    if fd in r.ready && fd in r.received then [r.received[fd]] else []
  }

  function Reads(fd: int, rounds: seq<Round>): (s: seq<Frame>) {
    if rounds == [] then [] else Reads(fd, rounds[..|rounds| - 1]) + Read(fd, rounds[|rounds| - 1])
  }

  lemma {:induction false} ServeReadsOnce(t: Tables, i: nat, r: Round, fd: int)
    requires i <= |t.clients| && NoDup(t.clients)
    ensures FramesFrom(fd, ServeFrom(t, i, r).events) ==
              if fd in t.clients[i..] then Read(fd, r) else []
    decreases |t.clients| - i
  {
    if i < |t.clients| {
      var c := t.clients[i];
      assert t.clients[i..] == [c] + t.clients[i + 1..];
      assert c !in t.clients[i + 1..];
      if c in r.ready && c !in r.received {
        SwapRemoveKeeps(t.clients, i);
        ServeReadsOnce(t.(clients := SwapRemove(t.clients, i)), i, r, fd);
        RemainingAfterSwap(t.clients, i);
      } else {
        ServeReadsOnce(t, i + 1, r, fd);
      }
    }
  }

  lemma RoundReadsOnce(listenFd: int, monitorFd: int, t: Tables, r: Round, fd: int)
    requires listenFd != monitorFd && fd in t.clients && (fd in r.ready ==> fd in r.received)
    requires Consistent({listenFd, monitorFd}, t) && EnvironmentOk(listenFd, monitorFd, t, r)
    ensures var res := AfterRound(listenFd, monitorFd, t, r);
            && FramesFrom(fd, res.events) == Read(fd, r)
            && fd in res.tables.clients
  {
    hide GoodTrace, ServeFrom, LiveAfter, Admit, EnvironmentOk, Consistent;
    var ls := {listenFd, monitorFd};
    var a := AdmitIfReady(t.clients, EcuSide, listenFd, r.newEcu, r.ready);
    var b := AdmitIfReady(t.monitors, MonitorSide, monitorFd, r.newMonitor, r.ready);
    var tb := Tables(a.table, b.table);
    var c := ServeFrom(tb, 0, r);
    AdmissionsKeep(listenFd, monitorFd, t, r, fd);
    assert a.table[0..] == a.table;
    ServeKeeps(ls, tb, 0, r);
    assert fd in Elems(c.table);
    ConsistentClients(ls, tb);
    ServeReadsOnce(tb, 0, r, fd);
    FramesFromAppend(fd, a.events, b.events);
    FramesFromAppend(fd, a.events + b.events, c.events);
  }

  lemma ConsistentClients(listeners: set<int>, t: Tables)
    requires Consistent(listeners, t)
    ensures NoDup(t.clients)
  {}

  lemma AdmissionsKeep(listenFd: int, monitorFd: int, t: Tables, r: Round, fd: int)
    requires listenFd != monitorFd && fd in t.clients
    requires Consistent({listenFd, monitorFd}, t) && EnvironmentOk(listenFd, monitorFd, t, r)
    ensures var a := AdmitIfReady(t.clients, EcuSide, listenFd, r.newEcu, r.ready);
            var b := AdmitIfReady(t.monitors, MonitorSide, monitorFd, r.newMonitor, r.ready);
            && Consistent({listenFd, monitorFd}, Tables(a.table, b.table))
            && fd in a.table
            && FramesFrom(fd, a.events) == [] == FramesFrom(fd, b.events)
  {
    hide GoodTrace, LiveAfter;
    var ls := {listenFd, monitorFd};
    AdmitKeeps(ls, t, EcuSide, listenFd, r.newEcu, r.ready);
    AdmittedElems(t.clients, EcuSide, listenFd, r.newEcu, r.ready);
    var a := AdmitIfReady(t.clients, EcuSide, listenFd, r.newEcu, r.ready);
    AdmitKeeps(ls, t.(clients := a.table), MonitorSide, monitorFd, r.newMonitor, r.ready);
    AdmittingReads(t.clients, EcuSide, listenFd, r.newEcu, r.ready, fd);
    AdmittingReads(t.monitors, MonitorSide, monitorFd, r.newMonitor, r.ready, fd);
  }

  lemma AdmittingReads(table: seq<int>, side: Side, listener: int, newFd: int, ready: set<int>, fd: int)
    ensures FramesFrom(fd, AdmitIfReady(table, side, listener, newFd, ready).events) == []
  {
    NoFrames(fd);
    assert [Accepted(side, newFd), Closed(newFd)][1..] == [Closed(newFd)];
    assert [Accepted(side, newFd)][1..] == [] && [Closed(newFd)][1..] == [];
    assert FramesFrom(fd, [Closed(newFd)]) == [];
  }

  // Main result: while a client stays connected, the server's log holds its frames exactly as
  // the environment delivered them: each once, in order, whatever else the rounds bring.
  lemma {:induction false} SenderFifo(listenFd: int, monitorFd: int, t: Tables, rounds: seq<Round>, fd: int)
    requires listenFd != monitorFd && fd in t.clients
    requires Consistent({listenFd, monitorFd}, t) && EnvironmentOkThroughout(listenFd, monitorFd, t, rounds)
    requires forall r <- rounds :: fd in r.ready ==> fd in r.received
    ensures var res := RunFrom(listenFd, monitorFd, t, rounds);
            && FramesFrom(fd, res.events) == Reads(fd, rounds)
            && fd in res.tables.clients
  {
    hide GoodTrace, LiveAfter, AfterRound, Consistent, EnvironmentOk, EnvironmentOkThroughout, FramesFrom, Read;
    if rounds == [] {
      NoFrames(fd);
    } else {
      var n := |rounds| - 1;
      EnvironmentOkBefore(listenFd, monitorFd, t, rounds);
      assert rounds[n] in rounds && forall r <- rounds[..n] :: r in rounds;
      SenderFifo(listenFd, monitorFd, t, rounds[..n], fd);
      RunKeeps(listenFd, monitorFd, t, rounds[..n]);
      var before := RunFrom(listenFd, monitorFd, t, rounds[..n]);
      RoundReadsOnce(listenFd, monitorFd, before.tables, rounds[n], fd);
      FramesFromAppend(fd, before.events, AfterRound(listenFd, monitorFd, before.tables, rounds[n]).events);
    }
  }

  lemma NoFrames(fd: int)
    ensures FramesFrom(fd, []) == []
  {}
}
