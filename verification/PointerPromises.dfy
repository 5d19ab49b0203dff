/** What reaches the HID socket, told from the events of the RFB thread alone: which inputs there were, which
    positions arrive, how far the wheel turns and which keyboard reports are sent. */
module PointerPromises {
  import opened Base
  import opened PointerInput
  import opened PointerRuns

  // ---- one report ----

  /** How far the wheel turns in a stretch of the log. */
  function Turned(log: seq<Post>): int {
    if log == [] then 0
    else Turned(log[..|log| - 1]) + (if log[|log| - 1].Wheel? then log[|log| - 1].step else 0)
  }

  /** The positions in a stretch of the log, in order. */
  function Positions(log: seq<Post>): seq<Post> {
    if log == [] then []
    else Positions(log[..|log| - 1]) + (if log[|log| - 1].Absolute? then [log[|log| - 1]] else [])
  }

  /** A report is posted as its position with its buttons, then its wheel movement in whole steps of 127
      and one last smaller step in the same direction. */
  lemma PostsExactly(r: Report)
    ensures var p := Posts(r);
            && p[0] == Absolute(r.generation, r.buttons, r.x, r.y)
            && (forall i :: 1 <= i < |p| ==> p[i].Wheel? && p[i].generation == r.generation && p[i].buttons == r.buttons)
            && (forall i :: 1 <= i < |p| - 1 ==> p[i].step == if r.wheel > 0 then 127 else -127)
            && (|p| > 1 ==> if r.wheel > 0 then 0 < p[|p| - 1].step <= 127 else -127 <= p[|p| - 1].step < 0)
            && Turned(p) == r.wheel
  {
    StepsExactly(r.wheel);
    WheelStepsAddUp(r.wheel);
    TurnedBy([Posts(r)[0]], WheelPosts(r, r.wheel), WheelSteps(r.wheel));
    assert [Posts(r)[0]][..0] == [];
    assert Turned([Posts(r)[0]]) == 0;
  }

  lemma {:induction false} StepsExactly(wheel: int)
    ensures var s := WheelSteps(wheel);
            && (forall i :: 0 <= i < |s| - 1 ==> s[i] == if wheel > 0 then 127 else -127)
            && (s != [] ==> if wheel > 0 then 0 < s[|s| - 1] <= 127 else -127 <= s[|s| - 1] < 0)
    decreases if wheel < 0 then -wheel else wheel
  {
    if wheel != 0 { StepsExactly(wheel - Clamp(wheel, -127, 127)); }
  }

  lemma {:induction false} TurnedBy(front: seq<Post>, posts: seq<Post>, steps: seq<int>)
    requires |posts| == |steps| && forall i :: 0 <= i < |posts| ==> posts[i].Wheel? && posts[i].step == steps[i]
    ensures Turned(front + posts) == Turned(front) + Sum(steps)
    decreases |posts|
  {
    if posts == [] {
      assert front + posts == front;
    } else {
      var first := front + [posts[0]];
      assert first[..|front|] == front;
      assert first + posts[1..] == front + posts;
      TurnedBy(first, posts[1..], steps[1..]);
    }
  }

  /** A report holds one position. */
  lemma OnePosition(r: Report)
    ensures Positions(Posts(r)) == [Absolute(r.generation, r.buttons, r.x, r.y)]
  {
    PostsExactly(r);
    hide Posts, WheelPosts;
    var p := Posts(r);
    assert p == [p[0]] + p[1..] && [p[0]][..0] == [];
    PositionsConcat([p[0]], p[1..]);
    NoPositions(p[1..]);
  }

  lemma {:induction false} NoPositions(log: seq<Post>)
    requires forall i :: 0 <= i < |log| ==> !log[i].Absolute?
    ensures Positions(log) == []
  {
    if log != [] { NoPositions(log[..|log| - 1]); }
  }

  lemma {:induction false} PositionsConcat(a: seq<Post>, b: seq<Post>)
    ensures Positions(a + b) == Positions(a) + Positions(b)
    decreases |b|
  {
    if b == [] {
      assert a + b == a;
    } else {
      PositionsConcat(a, b[..|b| - 1]);
      assert (a + b)[..|a + b| - 1] == a + b[..|b| - 1];
    }
  }

  lemma {:induction false} TurnedConcat(a: seq<Post>, b: seq<Post>)
    ensures Turned(a + b) == Turned(a) + Turned(b)
    decreases |b|
  {
    if b == [] {
      assert a + b == a;
    } else {
      TurnedConcat(a, b[..|b| - 1]);
      assert (a + b)[..|a + b| - 1] == a + b[..|b| - 1];
    }
  }

  // ---- what the events say ----

  datatype Input = Input(buttons: nat, x: nat, y: nat, wheel: int)

  /** inputs are the pointer movements so far, waiting is the keyboard report of the call in progress, and
      keyboard are the reports of the calls that returned, each behind the inputs before it. */
  datatype Told = Told(inputs: seq<Input>, waiting: Option<nat>, keyboard: seq<Post>)

  function Held(inputs: seq<Input>): nat {
    if inputs == [] then 0 else inputs[|inputs| - 1].buttons
  }

  /** A call that returns sends its report, if it has one. */
  function Returned(t: Told): Told {
    match t.waiting
    case None => t
    case Some(keys) => Told(t.inputs, None, t.keyboard + [Keyboard(|t.inputs|, keys)])
  }

  /** Only the events of the RFB thread say anything: a release lets held buttons go where the pointer is,
      and sends the report without keys if any was down. */
  function ToldNext(t: Told, ev: Event): Told {
    match ev
    case PointerEvent(buttons, x, y, wheel) => t.(inputs := t.inputs + [Input(buttons, x, y, wheel)])
    case KeyCall(keys) => t.(waiting := keys)
    case ReleaseCall(keysHeld) => t.(waiting := if keysHeld then Some(0) else None)
    case ReleaseButtonsStep =>
      if Held(t.inputs) == 0 then t
      else var last := t.inputs[|t.inputs| - 1]; t.(inputs := t.inputs + [Input(0, last.x, last.y, 0)])
    case KeyReturn => Returned(t)
    case ReleaseReturn => Returned(t)
    case _ => t
  }

  function Tell(events: seq<Event>): Told {
    if events == [] then Told([], None, []) else ToldNext(Tell(events[..|events| - 1]), events[|events| - 1])
  }

  /** An input is urgent if it turns the wheel or changes the buttons. */
  predicate Urgent(inputs: seq<Input>, i: nat)
    requires i < |inputs|
  {
    inputs[i].wheel != 0 || inputs[i].buttons != Held(inputs[..i])
  }

  function ReportOf(inputs: seq<Input>, i: nat): Report
    requires i < |inputs|
  {
    Report(inputs[i].buttons, inputs[i].x, inputs[i].y, inputs[i].wheel, i + 1)
  }

  ghost predicate InputsOk(issued: seq<Issued>, inputs: seq<Input>) {
    && |issued| == |inputs|
    && forall i :: 0 <= i < |inputs| ==> issued[i] == Issued(ReportOf(inputs, i), Urgent(inputs, i))
  }

  lemma IssueInput(s: Shared, issued: seq<Issued>, inputs: seq<Input>, buttons: nat, x: nat, y: nat, wheel: int)
    requires IssuedOk(s, issued) && InputsOk(issued, inputs)
    ensures InputsOk(issued + [Issued(NextReport(s, x, y, buttons, wheel), IsUrgent(s, buttons, wheel))],
                     inputs + [Input(buttons, x, y, wheel)])
    ensures s.buttons == Held(inputs) && (inputs != [] ==> s.x == inputs[|inputs| - 1].x && s.y == inputs[|inputs| - 1].y)
  {
    var longer := inputs + [Input(buttons, x, y, wheel)];
    forall i | 0 <= i < |inputs|
      ensures ReportOf(longer, i) == ReportOf(inputs, i) && Urgent(longer, i) == Urgent(inputs, i)
    {
      assert longer[..i] == inputs[..i];
    }
    assert longer[..|inputs|] == inputs;
    assert issued != [] ==> issued[|issued| - 1] == Issued(ReportOf(inputs, |inputs| - 1), Urgent(inputs, |inputs| - 1));
  }

  lemma InputsStep(m: Machine, t: Told, ev: Event)
    requires Inv(m) && Enabled(m, ev) && InputsOk(m.issued, t.inputs)
    ensures InputsOk(Step(m, ev).issued, ToldNext(t, ev).inputs)
  {
    hide Posts, Taken, AfterTake, LogOk, KeyboardsOk, WaitingOk, TakenOk, LimiterOk, InputsOk, IssuedOk;
    match ev
    case PointerEvent(buttons, x, y, wheel) => IssueInput(m.shared, m.issued, t.inputs, buttons, x, y, wheel);
    case ReleaseButtonsStep => IssueInput(m.shared, m.issued, t.inputs, 0, m.shared.x, m.shared.y, 0);
    case _ =>
  }

  // ---- keyboard ----

  function Keyboards(log: seq<Post>): seq<Post> {
    if log == [] then []
    else Keyboards(log[..|log| - 1]) + (if log[|log| - 1].Keyboard? then [log[|log| - 1]] else [])
  }

  ghost predicate KeysOk(m: Machine, t: Told) {
    && Keyboards(m.log) == t.keyboard
    && t.waiting == match m.call
                    case KeyWait(_, keys) => keys
                    case ReleaseWait(_, keysHeld) => if keysHeld then Some(0) else None
                    case ReleaseFlush(_, keysHeld) => if keysHeld then Some(0) else None
                    case _ => None
  }

  lemma KeyboardsStep(log: seq<Post>, p: Post)
    ensures Keyboards(log + [p]) == Keyboards(log) + (if p.Keyboard? then [p] else [])
  {
    assert (log + [p])[..|log|] == log;
  }

  lemma KeysStep(m: Machine, t: Told, ev: Event)
    requires Inv(m) && Enabled(m, ev) && InputsOk(m.issued, t.inputs) && KeysOk(m, t)
    ensures KeysOk(Step(m, ev), ToldNext(t, ev))
  {
    hide Posts, Taken, AfterTake, LogOk, FlightOk, KeyboardsOk, WaitingOk, TakenOk, LimiterOk, ReportOf, Urgent, Keyboards;
    LeftArePointers(m);
    match ev
    case KeyReturn => KeyboardsStep(m.log, Keyboard(m.shared.generation, if m.call.keys.Some? then m.call.keys.value else 0));
    case ReleaseReturn => KeyboardsStep(m.log, Keyboard(m.shared.generation, 0));
    case PostNext => KeyboardsStep(m.log, m.inflight.value.left[0]);
    case _ =>
  }

  lemma LeftArePointers(m: Machine)
    requires Inv(m)
    ensures forall p :: p in Left(m) ==> !p.Keyboard?
  {
    LeftArePointerPosts(m);
  }

  // ---- the wheel ----

  function QueuedWheel(urgent: seq<Report>): int {
    if urgent == [] then 0 else urgent[0].wheel + QueuedWheel(urgent[1..])
  }

  function Wheel(inputs: seq<Input>): int {
    if inputs == [] then 0 else Wheel(inputs[..|inputs| - 1]) + inputs[|inputs| - 1].wheel
  }

  ghost predicate WheelOk(m: Machine, inputs: seq<Input>) {
    Turned(m.log) + Turned(Left(m)) + QueuedWheel(m.shared.urgent) == Wheel(inputs)
  }

  lemma {:induction false} QueuedAppend(urgent: seq<Report>, r: Report)
    ensures QueuedWheel(urgent + [r]) == QueuedWheel(urgent) + r.wheel
  {
    if urgent != [] {
      QueuedAppend(urgent[1..], r);
      assert (urgent + [r])[1..] == urgent[1..] + [r];
    }
  }

  lemma IssueWheel(m: Machine, inputs: seq<Input>, buttons: nat, x: nat, y: nat, wheel: int)
    requires WheelOk(m, inputs)
    ensures WheelOk(IssueEvent(m, buttons, x, y, wheel), inputs + [Input(buttons, x, y, wheel)])
  {
    var longer := inputs + [Input(buttons, x, y, wheel)];
    assert longer[..|inputs|] == inputs;
    QueuedAppend(m.shared.urgent, NextReport(m.shared, x, y, buttons, wheel));
  }

  lemma TurnedMoves(log: seq<Post>, left: seq<Post>)
    requires left != []
    ensures Turned(log + [left[0]]) + Turned(left[1..]) == Turned(log) + Turned(left)
  {
    assert left == [left[0]] + left[1..];
    TurnedConcat([left[0]], left[1..]);
    TurnedConcat(log, [left[0]]);
  }

  lemma TurnedNoWheel(log: seq<Post>, p: Post)
    requires !p.Wheel?
    ensures Turned(log + [p]) == Turned(log)
  {
    assert (log + [p])[..|log|] == log;
  }

  lemma WheelStep(m: Machine, t: Told, ev: Event)
    requires Inv(m) && Enabled(m, ev) && InputsOk(m.issued, t.inputs) && WheelOk(m, t.inputs)
    ensures WheelOk(Step(m, ev), ToldNext(t, ev).inputs)
  {
    hide Posts, KeyboardsOk, WaitingOk, TakenOk, LimiterOk, ReportOf, Urgent, Turned, Wheel, LogOk, InputsOk, IssuedOk;
    match ev
    case PointerEvent(buttons, x, y, wheel) => IssueWheel(m, t.inputs, buttons, x, y, wheel);
    case ReleaseButtonsStep =>
      IssueInput(m.shared, m.issued, t.inputs, 0, m.shared.x, m.shared.y, 0);
      if m.shared.buttons != 0 { IssueWheel(m, t.inputs, 0, m.shared.x, m.shared.y, 0); }
    case KeyReturn => TurnedNoWheel(m.log, Keyboard(m.shared.generation, if m.call.keys.Some? then m.call.keys.value else 0));
    case ReleaseReturn => TurnedNoWheel(m.log, Keyboard(m.shared.generation, 0));
    case Take(now) =>
      PostsExactly(Taken(m.shared));
      NothingTurned();
    case PostNext => TurnedMoves(m.log, m.inflight.value.left);
    case _ => NothingTurned();
  }

  lemma NothingTurned()
    ensures Turned([]) == 0
  {
  }

  // ---- positions ----

  /** The position of an input, as it reaches the HID. */
  function PositionOf(inputs: seq<Input>, g: nat): Post
    requires 1 <= g <= |inputs|
  {
    Absolute(g, inputs[g - 1].buttons, inputs[g - 1].x, inputs[g - 1].y)
  }

  ghost predicate PositionsOk(m: Machine, inputs: seq<Input>) {
    var p := Positions(m.log) + Positions(Left(m));
    && |p| == |m.taken|
    && forall i :: 0 <= i < |p| ==> 1 <= m.taken[i] <= |inputs| && p[i] == PositionOf(inputs, m.taken[i])
  }

  lemma PositionsMove(log: seq<Post>, left: seq<Post>)
    requires left != []
    ensures Positions(log + [left[0]]) + Positions(left[1..]) == Positions(log) + Positions(left)
  {
    hide Positions;
    assert left == [left[0]] + left[1..];
    PositionsConcat([left[0]], left[1..]);
    PositionsConcat(log, [left[0]]);
    Associate(Positions(log), Positions([left[0]]), Positions(left[1..]));
  }

  lemma PositionsNoKey(log: seq<Post>, p: Post)
    requires p.Keyboard?
    ensures Positions(log + [p]) == Positions(log)
  {
    assert (log + [p])[..|log|] == log;
  }

  lemma TakePosition(m: Machine, inputs: seq<Input>, now: nat)
    requires Inv(m) && Enabled(m, Take(now)) && InputsOk(m.issued, inputs) && PositionsOk(m, inputs)
    ensures PositionsOk(Step(m, Take(now)), inputs)
  {
    hide Posts, KeyboardsOk, LimiterOk, Positions, LogOk, AfterTake;
    TakeOrder(m.shared, m.issued, m.taken);
    OnePosition(Taken(m.shared));
    NoPosition();
  }

  lemma NoPosition()
    ensures Positions([]) == []
  {
  }

  lemma PositionsStep(m: Machine, t: Told, ev: Event)
    requires Inv(m) && Enabled(m, ev) && InputsOk(m.issued, t.inputs) && PositionsOk(m, t.inputs)
    ensures PositionsOk(Step(m, ev), ToldNext(t, ev).inputs)
  {
    hide Posts, KeyboardsOk, WaitingOk, TakenOk, LimiterOk, ReportOf, Urgent, Positions, LogOk, InputsOk, IssuedOk, AfterTake;
    match ev
    case KeyReturn => PositionsNoKey(m.log, Keyboard(m.shared.generation, if m.call.keys.Some? then m.call.keys.value else 0));
    case ReleaseReturn => PositionsNoKey(m.log, Keyboard(m.shared.generation, 0));
    case Take(now) => TakePosition(m, t.inputs, now);
    case PostNext => PositionsMove(m.log, m.inflight.value.left);
    case _ => NoPosition();
  }

  // ---- over runs ----

  ghost predicate AsTold(m: Machine, t: Told) {
    InputsOk(m.issued, t.inputs) && KeysOk(m, t) && WheelOk(m, t.inputs) && PositionsOk(m, t.inputs)
  }

  lemma InitialAsTold(start: nat)
    ensures AsTold(Initial(start), Tell([]))
  {
  }

  lemma AsToldStep(m: Machine, t: Told, ev: Event)
    requires Inv(m) && Enabled(m, ev) && AsTold(m, t)
    ensures AsTold(Step(m, ev), ToldNext(t, ev))
  {
    hide Inv, Step, ToldNext, InputsOk, KeysOk, WheelOk, PositionsOk;
    InputsStep(m, t, ev);
    KeysStep(m, t, ev);
    WheelStep(m, t, ev);
    PositionsStep(m, t, ev);
  }

  lemma {:induction false} RunAsTold(run: seq<Machine>, events: seq<Event>, n: nat)
    requires IsRun(run, events) && n < |run|
    ensures AsTold(run[n], Tell(events[..n]))
  {
    hide Inv, Step, ToldNext, AsTold;
    if n == 0 {
      InitialAsTold(run[0].start);
      assert events[..0] == [];
    } else {
      RunAsTold(run, events, n - 1);
      Reachable(run, events, n - 1);
      assert Enabled(run[n - 1], events[n - 1]) && run[n] == Step(run[n - 1], events[n - 1]);
      AsToldStep(run[n - 1], Tell(events[..n - 1]), events[n - 1]);
      assert events[..n][..n - 1] == events[..n - 1];
    }
  }

  /** Over every run: the reports issued are the inputs of the events, numbered in order; the positions sent,
      the one in flight included, are exactly those of the inputs taken; the wheel steps sent, in flight and
      queued add up to all the wheel movement there was; and the keyboard reports are those of the
      calls that returned, in order, each numbered with the inputs before it. */
  lemma EveryInputArrives(run: seq<Machine>, events: seq<Event>, n: nat)
    requires IsRun(run, events) && n < |run|
    ensures var m := run[n]; var t := Tell(events[..n]);
            && |m.issued| == |t.inputs|
            && (forall i :: 0 <= i < |t.inputs| ==> m.issued[i] == Issued(ReportOf(t.inputs, i), Urgent(t.inputs, i)))
            && (var p := Positions(m.log) + Positions(Left(m));
                |p| == |m.taken| &&
                forall i :: 0 <= i < |p| ==> 1 <= m.taken[i] <= |t.inputs| && p[i] == PositionOf(t.inputs, m.taken[i]))
            && Turned(m.log) + Turned(Left(m)) + QueuedWheel(m.shared.urgent) == Wheel(t.inputs)
            && Keyboards(m.log) == t.keyboard
  {
    RunAsTold(run, events, n);
    hide IsRun, Positions, Turned, Keyboards, Wheel, QueuedWheel, Tell, ReportOf, Urgent, PositionOf;
  }

  /** When a flush is through, the HID has been told all there is: the newest position is that of the newest
      input, and the wheel has turned as far as all inputs together. */
  lemma FlushedIsUpToDate(run: seq<Machine>, events: seq<Event>, n: nat)
    requires IsRun(run, events) && n < |run|
    requires !run[n].shared.stopping && run[n].shared.completed >= run[n].shared.generation
    ensures var inputs := Tell(events[..n]).inputs; var p := Positions(run[n].log);
            && Turned(run[n].log) == Wheel(inputs)
            && (if inputs == [] then p == [] else p != [] && p[|p| - 1] == PositionOf(inputs, |inputs|))
  {
    RunAsTold(run, events, n);
    Reachable(run, events, n);
    hide IsRun, Positions, Turned, Wheel, Tell;
    UpToDate(run[n], Tell(events[..n]).inputs);
  }

  lemma UpToDate(m: Machine, inputs: seq<Input>)
    requires Inv(m) && InputsOk(m.issued, inputs) && WheelOk(m, inputs) && PositionsOk(m, inputs)
    requires !m.shared.stopping && m.shared.completed >= m.shared.generation
    ensures var p := Positions(m.log);
            && Turned(m.log) == Wheel(inputs)
            && (if inputs == [] then p == [] else p != [] && p[|p| - 1] == PositionOf(inputs, |inputs|))
  {
    hide Positions, Turned, Wheel, KeyboardsOk, LimiterOk, LogOk, WaitingOk;
    FlushedIsQuiet(m);
    NothingTurned();
    NoPosition();
    assert Positions(m.log) + [] == Positions(m.log);
  }

  /** Every call that blocks on a flush returns behind all inputs before it, with buttons and position as the
      newest of them left them, and then sends its own keyboard report if it has one. */
  lemma CallsReturnUpToDate(run: seq<Machine>, events: seq<Event>, n: nat)
    requires IsRun(run, events) && n < |events| && (events[n] == KeyReturn || events[n] == ReleaseReturn)
    ensures var t := Tell(events[..n]); var p := Positions(run[n].log);
            && Turned(run[n].log) == Wheel(t.inputs)
            && (t.inputs != [] ==> p != [] && p[|p| - 1] == PositionOf(t.inputs, |t.inputs|))
            && run[n + 1].log == run[n].log + (if t.waiting.None? then [] else [Keyboard(|t.inputs|, t.waiting.value)])
            && (events[n] == ReleaseReturn ==> Held(t.inputs) == 0)
  {
    Reachable(run, events, n);
    RunAsTold(run, events, n);
    assert Enabled(run[n], events[n]) && run[n + 1] == Step(run[n], events[n]);
    FlushedIsUpToDate(run, events, n);
    hide IsRun, Positions, Turned, Wheel, Tell;
    ReturnExactly(run[n], Tell(events[..n]), events[n]);
  }

  lemma ReturnExactly(m: Machine, t: Told, ev: Event)
    requires Inv(m) && Enabled(m, ev) && (ev == KeyReturn || ev == ReleaseReturn) && InputsOk(m.issued, t.inputs) && KeysOk(m, t)
    ensures Step(m, ev).log == m.log + (if t.waiting.None? then [] else [Keyboard(|t.inputs|, t.waiting.value)])
    ensures ev == ReleaseReturn ==> Held(t.inputs) == 0
  {
    hide Posts, AllPosts, KeyboardsOk, LogOk, LimiterOk, WaitingOk, TakenOk;
    assert m.log + [] == m.log;
    if t.inputs != [] { assert m.issued[|t.inputs| - 1].report == ReportOf(t.inputs, |t.inputs| - 1); }
  }

  /** An idle report thread takes its next report at once if an urgent input is waiting, and otherwise the
      newest position as soon as its deadline has come, never earlier. */
  lemma UrgentNeedsNoDeadline(run: seq<Machine>, events: seq<Event>, n: nat, now: nat)
    requires IsRun(run, events) && n < |run| && run[n].inflight.None? && !run[n].shared.stopping
    ensures var m := run[n]; var inputs := Tell(events[..n]).inputs; var t := LastTaken(m.taken);
            && t <= |inputs|
            && (Enabled(m, Take(now)) <==>
                (exists i :: t <= i < |inputs| && Urgent(inputs, i)) || (t < |inputs| && now >= m.nextFlush))
  {
    RunAsTold(run, events, n);
    Reachable(run, events, n);
    hide IsRun, Tell;
    TakesWhen(run[n], Tell(events[..n]).inputs, now);
  }

  lemma TakesWhen(m: Machine, inputs: seq<Input>, now: nat)
    requires Inv(m) && InputsOk(m.issued, inputs) && m.inflight.None? && !m.shared.stopping
    ensures var t := LastTaken(m.taken);
            && t <= |inputs|
            && (Enabled(m, Take(now)) <==>
                (exists i :: t <= i < |inputs| && Urgent(inputs, i)) || (t < |inputs| && now >= m.nextFlush))
  {
    hide Posts, AllPosts, KeyboardsOk, LogOk, LimiterOk, TakenOk, Urgent, ReportOf;
    var t := LastTaken(m.taken);
    UrgentAfterMembers(m.issued, t);
    if m.shared.urgent == [] {
      NoneUrgent(m.issued, t);
      forall i | t <= i < |inputs|
        ensures !Urgent(inputs, i)
      {
        assert m.issued[i] == Issued(ReportOf(inputs, i), Urgent(inputs, i));
      }
    } else {
      var r := m.shared.urgent[0];
      assert r in m.shared.urgent;
      var i := r.generation - 1;
      assert m.issued[i] == Issued(ReportOf(inputs, i), Urgent(inputs, i));
    }
  }
}
