/** Stop and Run of the capability subscription as two interleaved threads over one socket field, with the
    process's descriptor table. Descriptor numbers may be reused. */
module CapabilityHandshake {
  import opened Base

  datatype After = ThenWait | ThenFinish

  /** Where Run stands; a descriptor argument is its local fd. */
  datatype Running =
    | Absent
    | Top
    | Connecting
    | Storing(fd: nat)
    | Checking(fd: nat)
    | Writing(fd: nat)
    | Inner(fd: nat)
    | Polling(fd: nat)
    | Polled(fd: nat)
    | Reading(fd: nat)
    | Disowning(fd: nat, next: After)
    | Releasing(fd: nat, next: After)
    | Waiting(fd: nat)
    | Tail(fd: nat)
    | Finished

  /** Where Stop stands; aimed is the connection its descriptor belonged to when it was loaded. */
  datatype Stopping =
    | Idle
    | Flagged
    | Woken
    | Shutting(fd: nat, aimed: nat)
    | Joining

  /** table maps open descriptors to connections, numbered in the order they were made; doubleClose records
      a close of a descriptor that was not open. */
  datatype Machine = Machine(stopping: bool, socketFd: Option<nat>, events: bool, run: Running, stop: Stopping,
                             table: map<nat, nat>, made: nat, closed: seq<nat>, shut: set<nat>, doubleClose: bool)

  /** What a system call of Run returned. */
  datatype Outcome = Failed | Interrupted | Connected(fd: nat) | Ready | Message(events: bool)

  datatype Event = Start | StopStep | RunStep(outcome: Outcome)

  predicate Enabled(m: Machine, ev: Event) {
    match ev
    case Start => m.run == Absent && m.stop == Idle
    case StopStep => m.stop.Joining? ==> m.run == Finished || m.run == Absent
    case RunStep(o) =>
      && m.run != Absent && m.run != Finished
      && (m.run.Connecting? ==> o == Failed || (o.Connected? && o.fd !in m.table))
  }

  /** The step of Run. */
  function RunOne(m: Machine, o: Outcome): Machine {
    match m.run
    case Absent => m
    case Top => m.(run := if m.stopping then Finished else Connecting)
    case Connecting =>
      if o.Connected? then m.(run := Storing(o.fd), table := m.table[o.fd := m.made], made := m.made + 1)
      else m.(run := Finished)
    case Storing(fd) => m.(run := Checking(fd), socketFd := Some(fd))
    case Checking(fd) => m.(run := if m.stopping then Disowning(fd, ThenFinish) else Writing(fd))
    case Writing(fd) => m.(run := if o == Failed then Tail(fd) else Inner(fd))
    case Inner(fd) => m.(run := if m.stopping then Tail(fd) else Polling(fd))
    case Polling(fd) =>
      m.(run := if o == Interrupted && !m.stopping then Polling(fd) else if o == Ready then Polled(fd) else Tail(fd))
    case Polled(fd) => m.(run := if m.stopping then Tail(fd) else Reading(fd))
    case Reading(fd) =>
      if !o.Message? then m.(run := Tail(fd))
      else if m.events then m.(run := Inner(fd))
      else m.(run := Disowning(fd, ThenWait), events := o.events)
    case Disowning(fd, next) =>
      if m.socketFd == Some(fd) then m.(run := Releasing(fd, next), socketFd := None) else m.(run := Next(fd, next))
    case Releasing(fd, next) =>
      if fd in m.table then m.(run := Next(fd, next), closed := m.closed + [m.table[fd]], table := m.table - {fd})
      else m.(run := Next(fd, next), doubleClose := true)
    case Waiting(fd) => m.(run := Tail(fd))
    case Tail(fd) => m.(run := if m.socketFd == None then Top else Disowning(fd, ThenFinish))
    case Finished => m
  }

  function Next(fd: nat, next: After): Running {
    if next == ThenFinish then Finished else Waiting(fd)
  }

  function StopOne(m: Machine): Machine {
    match m.stop
    case Idle => m.(stopping := true, stop := Flagged)
    case Flagged => m.(stop := Woken)
    case Woken =>
      if m.socketFd == None then m.(stop := Joining)
      else m.(stop := Shutting(m.socketFd.value, if m.socketFd.value in m.table then m.table[m.socketFd.value] else 0))
    case Shutting(fd, _) => m.(stop := Joining, shut := if fd in m.table then m.shut + {m.table[fd]} else m.shut)
    case Joining => m.(stop := Idle, run := Absent)
  }

  function Step(m: Machine, ev: Event): Machine {
    match ev
    case Start => m.(stopping := false, run := Top)
    case StopStep => StopOne(m)
    case RunStep(o) => RunOne(m, o)
  }

  // ---- invariant ----

  /** The descriptor Run has to close. */
  function Held(m: Machine): Option<nat> {
    match m.run
    case Storing(fd) => Some(fd)
    case Checking(fd) => Some(fd)
    case Writing(fd) => Some(fd)
    case Inner(fd) => Some(fd)
    case Polling(fd) => Some(fd)
    case Polled(fd) => Some(fd)
    case Reading(fd) => Some(fd)
    case Disowning(fd, _) => Some(fd)
    case Releasing(fd, _) => Some(fd)
    case Tail(fd) => m.socketFd
    case _ => None
  }

  function UpTo(n: nat): seq<nat> { seq(n, i => i) }

  /** Connections are made one at a time and closed in order; the socket field names the open one except
      while it is being made or closed. */
  ghost predicate Owned(m: Machine) {
    && !m.doubleClose
    && (m.run.Storing? || m.run.Releasing? ==> m.socketFd == None)
    && (m.run.Tail? && m.socketFd.Some? ==> m.socketFd == Some(m.run.fd))
    && match Held(m)
       case None => m.table == map[] && m.closed == UpTo(m.made) && m.socketFd == None
       case Some(fd) =>
         && m.made > 0 && m.table == map[fd := m.made - 1] && m.closed == UpTo(m.made - 1)
         && (m.socketFd == Some(fd) || m.run.Storing? || m.run.Releasing?)
  }

  /** Run may still go on to wait for the peer. */
  predicate PastCheck(r: Running) {
    r.Writing? || r.Inner? || r.Polling? || r.Polled? || r.Reading?
  }

  ghost predicate Handshake(m: Machine) {
    && (m.stop != Idle ==> m.stopping)
    && (m.stop.Shutting? ==> !m.run.Connecting? && !m.run.Storing? && m.stop.aimed < m.made
                             && (Held(m).Some? ==> Held(m) == Some(m.stop.fd) && m.stop.aimed == m.made - 1))
    && (m.stop.Joining? && PastCheck(m.run) ==> m.made - 1 in m.shut)
    && (m.stop == Idle && m.stopping ==> m.run == Absent)
  }

  ghost predicate Inv(m: Machine) { Owned(m) && Handshake(m) }

  lemma UpToGrows(n: nat)
    ensures UpTo(n) + [n] == UpTo(n + 1)
  {
  }

  /** Closing the held descriptor. */
  lemma ReleaseKeeps(m: Machine, o: Outcome)
    requires Owned(m) && m.run.Releasing?
    ensures Owned(RunOne(m, o))
  {
    hide UpTo;
    UpToGrows(m.made - 1);
    assert map[m.run.fd := m.made - 1] - {m.run.fd} == map[];
  }

  lemma OwnedKeeps(m: Machine, ev: Event)
    requires Owned(m) && Enabled(m, ev)
    ensures Owned(Step(m, ev))
  {
    hide UpTo;
    match ev
    case Start => assert Held(Step(m, ev)) == Held(m);
    case StopStep => StopOwned(m);
    case RunStep(o) => if m.run.Releasing? { ReleaseKeeps(m, o); } else { RunOwned(m, o); }
  }

  lemma StopOwned(m: Machine)
    requires Owned(m) && Enabled(m, StopStep)
    ensures Owned(StopOne(m))
  {
    hide UpTo;
    assert Held(StopOne(m)) == Held(m);
  }

  lemma RunOwned(m: Machine, o: Outcome)
    requires Owned(m) && Enabled(m, RunStep(o)) && !m.run.Releasing?
    ensures Owned(RunOne(m, o))
  {
    hide Owned, RunOne;
    if PastCheck(m.run) { ListeningOwned(m, o); } else { OthersOwned(m, o); }
  }

  lemma ListeningOwned(m: Machine, o: Outcome)
    requires Owned(m) && PastCheck(m.run)
    ensures Owned(RunOne(m, o))
  {
    hide UpTo;
    assert Held(RunOne(m, o)) == Held(m);
  }

  lemma OthersOwned(m: Machine, o: Outcome)
    requires Owned(m) && Enabled(m, RunStep(o)) && !m.run.Releasing? && !PastCheck(m.run)
    ensures Owned(RunOne(m, o))
  {
    hide UpTo;
    if m.run.Connecting? && o.Connected? {
      assert m.table[o.fd := m.made] == map[o.fd := m.made];
    }
  }

  lemma HandshakeKeeps(m: Machine, ev: Event)
    requires Inv(m) && Enabled(m, ev)
    ensures Handshake(Step(m, ev))
  {
    hide UpTo;
  }

  lemma StepKeeps(m: Machine, ev: Event)
    requires Inv(m) && Enabled(m, ev)
    ensures Inv(Step(m, ev))
  {
    hide Owned, Handshake;
    OwnedKeeps(m, ev);
    HandshakeKeeps(m, ev);
  }

  // ---- runs ----

  function Initial(events: bool): Machine {
    Machine(false, None, events, Absent, Idle, map[], 0, [], {}, false)
  }

  lemma InitialOk(events: bool)
    ensures Inv(Initial(events))
  {
  }

  /** Any interleaving of any number of Start, Stop and Run. */
  ghost predicate IsRun(run: seq<Machine>, events: seq<Event>) {
    && |run| == |events| + 1 && run[0] == Initial(run[0].events)
    && forall i :: 0 <= i < |events| ==> Enabled(run[i], events[i]) && run[i + 1] == Step(run[i], events[i])
  }

  lemma {:induction false} Reachable(run: seq<Machine>, events: seq<Event>, n: nat)
    requires IsRun(run, events) && n < |run|
    ensures Inv(run[n])
  {
    hide Inv, Step, Enabled;
    if n == 0 {
      InitialOk(run[0].events);
    } else {
      Reachable(run, events, n - 1);
      StepKeeps(run[n - 1], events[n - 1]);
    }
  }

  /** Run can take its next step without the peer doing anything: only the poll of an event subscription waits
      without a limit, and a descriptor that was shut down is ready. */
  predicate Unblocked(m: Machine) {
    m.run.Polling? && m.events ==> m.run.fd in m.table && m.table[m.run.fd] in m.shut
  }

  /** Once Stop is past its shutdown step, Run never sits in an unlimited wait on a live descriptor. */
  lemma NeverStuckInPoll(run: seq<Machine>, events: seq<Event>, n: nat)
    requires IsRun(run, events) && n < |run| && run[n].stop.Joining?
    ensures Unblocked(run[n])
  {
    Reachable(run, events, n);
  }

  /** Steps Run still needs once it is told to stop. */
  function Rank(r: Running): nat {
    match r
    case Absent => 0
    case Finished => 0
    case Top => 1
    case Releasing(_, next) => if next == ThenFinish then 1 else 7
    case Disowning(_, next) => if next == ThenFinish then 2 else 8
    case Tail(_) => 3
    case Checking(_) => 3
    case Storing(_) => 4
    case Connecting => 5
    case Waiting(_) => 4
    case Inner(_) => 4
    case Polled(_) => 4
    case Writing(_) => 5
    case Polling(_) => 5
    case Reading(_) => 9
  }

  /** So the join ends: whatever its calls return, each step of Run brings it nearer to its end, and none of
      the steps can block. */
  lemma JoinTerminates(run: seq<Machine>, events: seq<Event>, n: nat, o: Outcome)
    requires IsRun(run, events) && n < |run| && run[n].stop.Joining? && Enabled(run[n], RunStep(o))
    ensures Unblocked(run[n]) && Rank(RunOne(run[n], o).run) < Rank(run[n].run) && RunOne(run[n], o).stop.Joining?
  {
    hide IsRun, Owned, Unblocked;
    NeverStuckInPoll(run, events, n);
    Reachable(run, events, n);
    StoppingFlag(run[n]);
    StepsDown(run[n], o);
  }

  lemma StoppingFlag(m: Machine)
    requires Inv(m) && m.stop != Idle
    ensures m.stopping
  {
  }

  lemma StepsDown(m: Machine, o: Outcome)
    requires m.stopping && m.run != Absent && m.run != Finished
    ensures Rank(RunOne(m, o).run) < Rank(m.run) && RunOne(m, o).stop == m.stop
  {
  }

  /** Every descriptor Run opens is closed exactly once, on every path: the closes are the connections in
      order, all of them when Run has ended and all but the one in use before. */
  lemma ClosedExactlyOnce(run: seq<Machine>, events: seq<Event>, n: nat)
    requires IsRun(run, events) && n < |run|
    ensures var m := run[n];
            && !m.doubleClose
            && m.closed == UpTo(|m.closed|) && m.made - 1 <= |m.closed| <= m.made
            && (m.run == Finished || m.run == Absent ==> |m.closed| == m.made && m.table == map[] && m.socketFd == None)
  {
    hide IsRun;
    Reachable(run, events, n);
  }

  /** Stop never shuts down a later connection than the one it found, though the number it holds may have
      been closed by then. */
  lemma ShutdownHitsItsTarget(run: seq<Machine>, events: seq<Event>, n: nat)
    requires IsRun(run, events) && n < |run| && run[n].stop.Shutting? && run[n].stop.fd in run[n].table
    ensures run[n].table[run[n].stop.fd] == run[n].stop.aimed
  {
    hide IsRun;
    Reachable(run, events, n);
  }

  /** The number Stop holds is an open descriptor exactly as long as Run has not given its connection up. */
  lemma ShutdownHitsExactlyWhenHeld(run: seq<Machine>, events: seq<Event>, n: nat)
    requires IsRun(run, events) && n < |run| && run[n].stop.Shutting?
    ensures run[n].stop.fd in run[n].table <==> Held(run[n]).Some?
  {
    hide IsRun;
    Reachable(run, events, n);
  }

  lemma Continue(run: seq<Machine>, events: seq<Event>, ev: Event) returns (run': seq<Machine>, events': seq<Event>, m: Machine)
    requires IsRun(run, events) && Enabled(run[|events|], ev)
    ensures m == Step(run[|events|], ev)
    ensures IsRun(run', events') && run'[|events'|] == m
  {
    m := Step(run[|events|], ev);
    run', events' := run + [m], events + [ev];
  }

  /** The number Stop holds can have been closed in between: Run gives up on its own after a failed write. */
  lemma ShutdownCanMiss(fd: nat) returns (run: seq<Machine>, events: seq<Event>)
    ensures IsRun(run, events)
    ensures var m := run[|events|]; m.stop == Shutting(fd, 0) && fd !in m.table
  {
    hide IsRun;
    var m: Machine;
    run, events, m := Connect(fd);
    run, events, m := Continue(run, events, RunStep(Ready));
    run, events, m := Continue(run, events, RunStep(Ready));
    run, events, m := Continue(run, events, RunStep(Failed));
    assert m.run == Tail(fd) && m.socketFd == Some(fd) && m.table == map[fd := 0];
    run, events, m := Continue(run, events, StopStep);
    run, events, m := Continue(run, events, StopStep);
    run, events, m := Continue(run, events, StopStep);
    assert m.stop == Shutting(fd, 0) && m.run == Tail(fd);
    run, events, m := Continue(run, events, RunStep(Ready));
    run, events, m := Continue(run, events, RunStep(Ready));
    run, events, m := Continue(run, events, RunStep(Ready));
  }

  lemma Connect(fd: nat) returns (run: seq<Machine>, events: seq<Event>, m: Machine)
    ensures IsRun(run, events) && run[|events|] == m
    ensures m == Initial(true).(run := Storing(fd), table := map[fd := 0], made := 1)
  {
    run, events := [Initial(true)], [];
    run, events, m := Continue(run, events, Start);
    run, events, m := Continue(run, events, RunStep(Ready));
    run, events, m := Continue(run, events, RunStep(Connected(fd)));
  }

  // ---- what the subscription is for ----

  /** Run alone, with the results of its calls. */
  function RunAll(m: Machine, outcomes: seq<Outcome>): Machine {
    if outcomes == [] then m else RunOne(RunAll(m, outcomes[..|outcomes| - 1]), outcomes[|outcomes| - 1])
  }

  lemma {:induction false} RunConcat(m: Machine, first: seq<Outcome>, second: seq<Outcome>)
    ensures RunAll(m, first + second) == RunAll(RunAll(m, first), second)
    decreases |second|
  {
    hide RunOne;
    if second == [] {
      assert first + second == first;
    } else {
      RunConcat(m, first, second[..|second| - 1]);
      assert (first + second)[..|first + second| - 1] == first + second[..|second| - 1];
    }
  }

  lemma OneCall(m: Machine, a: Outcome)
    ensures RunAll(m, [a]) == RunOne(m, a)
  {
    hide RunOne;
    assert RunAll(m, [a][..0]) == m;
  }

  lemma TwoCalls(m: Machine, a: Outcome, b: Outcome)
    ensures RunAll(m, [a, b]) == RunOne(RunOne(m, a), b)
  {
    hide RunOne;
    OneCall(m, a);
    assert [a, b][..1] == [a];
  }

  lemma FourCalls(m: Machine, a: Outcome, b: Outcome, c: Outcome, d: Outcome)
    ensures RunAll(m, [a, b, c, d]) == RunOne(RunOne(RunOne(RunOne(m, a), b), c), d)
  {
    hide RunOne, RunAll;
    assert [a, b, c, d] == [a, b] + [c, d];
    RunConcat(m, [a, b], [c, d]);
    TwoCalls(m, a, b);
    TwoCalls(RunAll(m, [a, b]), c, d);
  }

  /** The calls behind one message: it is waited for, found and read. */
  function OneMessage(events: bool): seq<Outcome> {
    [Ready, Ready, Ready, Message(events)]
  }

  function Messages(n: nat, events: bool): seq<Outcome> {
    if n == 0 then [] else Messages(n - 1, events) + OneMessage(events)
  }

  lemma ReadsMessage(m: Machine, fd: nat, events: bool)
    requires m.run == Inner(fd) && !m.stopping
    ensures RunAll(m, OneMessage(events)) == if m.events then m else m.(run := Disowning(fd, ThenWait), events := events)
  {
    hide RunAll;
    FourCalls(m, Ready, Ready, Ready, Message(events));
  }

  /** With events, one connection serves any number of messages and nothing changes hands. */
  lemma {:induction false} EventsStayConnected(m: Machine, fd: nat, n: nat, events: bool)
    requires m.run == Inner(fd) && m.events && !m.stopping
    ensures RunAll(m, Messages(n, events)) == m
  {
    hide RunOne;
    if n > 0 {
      EventsStayConnected(m, fd, n - 1, events);
      RunConcat(m, Messages(n - 1, events), OneMessage(events));
      ReadsMessage(m, fd, events);
    }
  }

  lemma GivesConnectionUp(m: Machine, fd: nat, connection: nat)
    requires m.run == Disowning(fd, ThenWait) && m.socketFd == Some(fd) && m.table == map[fd := connection]
    ensures RunAll(m, [Ready, Ready]) ==
            m.(run := Waiting(fd), socketFd := None, closed := m.closed + [connection], table := map[])
  {
    hide RunAll;
    TwoCalls(m, Ready, Ready);
    assert map[fd := connection] - {fd} == map[];
  }

  lemma ConnectsAgain(m: Machine, fd: nat, next: nat)
    requires m.run == Waiting(fd) && !m.stopping && m.socketFd == None && m.table == map[]
    ensures RunAll(m, [Ready, Ready, Ready, Connected(next)]) ==
            m.(run := Storing(next), table := map[next := m.made], made := m.made + 1)
  {
    hide RunAll;
    FourCalls(m, Ready, Ready, Ready, Connected(next));
  }

  /** Without events, one message ends the connection: it is closed, the message says whether events come with
      the next one, and the next one is made, possibly under the same number. */
  lemma WithoutEventsReconnects(m: Machine, fd: nat, connection: nat, events: bool, next: nat)
    requires m.run == Inner(fd) && !m.events && !m.stopping
    requires m.socketFd == Some(fd) && m.table == map[fd := connection]
    ensures RunAll(m, OneMessage(events) + [Ready, Ready] + [Ready, Ready, Ready, Connected(next)]) ==
            m.(run := Storing(next), events := events, socketFd := None, closed := m.closed + [connection],
               table := map[next := m.made], made := m.made + 1)
  {
    hide RunAll, RunOne;
    var first := OneMessage(events);
    ReadsMessage(m, fd, events);
    RunConcat(m, first, [Ready, Ready]);
    GivesConnectionUp(RunAll(m, first), fd, connection);
    RunConcat(m, first + [Ready, Ready], [Ready, Ready, Ready, Connected(next)]);
    ConnectsAgain(RunAll(m, first + [Ready, Ready]), fd, next);
  }
}
