/** Interleavings of the RFB thread (pointer events, key presses, releases with their blocking flushes) and
    the report thread, with the log of everything posted to the HID socket. */
module PointerRuns {
  import opened Base
  import opened PointerInput

  datatype Issued = Issued(report: Report, urgent: bool)

  /** Where the RFB thread is; target is the generation its flush waits for. */
  datatype Call =
    | Idle
    | KeyWait(target: nat, keys: Option<nat>)
    | ReleaseWait(target: nat, keysHeld: bool)
    | ReleaseFlush(target: nat, keysHeld: bool)
    | Destroyed

  datatype InFlight = InFlight(report: Report, left: seq<Post>)

  /** issued[g - 1] is the report of generation g; taken are the generations handed to SendPointer;
      motions are the times of the pure-motion reports. */
  datatype Machine = Machine(
    shared: Shared, start: nat, nextFlush: nat, inflight: Option<InFlight>, call: Call,
    issued: seq<Issued>, taken: seq<nat>, log: seq<Post>, motions: seq<nat>)

  datatype Event =
    | PointerEvent(buttons: nat, x: nat, y: nat, wheel: int)
    | KeyCall(keys: Option<nat>)
    | KeyReturn
    | ReleaseCall(keysHeld: bool)
    | ReleaseButtonsStep
    | ReleaseReturn
    | Destroy
    | Take(now: nat)
    | PostNext
    | CompleteReport

  function Initial(start: nat): Machine {
    Machine(INIT, start, start + FLUSH_INTERVAL, None, Idle, [], [], [], [])
  }

  predicate Enabled(m: Machine, ev: Event) {
    match ev
    case PointerEvent(_, _, _, _) => m.call == Idle
    case KeyCall(_) => m.call == Idle
    case KeyReturn => m.call.KeyWait? && Flushed(m.shared, m.call.target)
    case ReleaseCall(_) => m.call == Idle
    case ReleaseButtonsStep => m.call.ReleaseWait? && Flushed(m.shared, m.call.target)
    case ReleaseReturn => m.call.ReleaseFlush? && Flushed(m.shared, m.call.target)
    case Destroy => m.call == Idle
    case Take(now) => m.inflight.None? && CanTake(m.shared, m.nextFlush, now)
    case PostNext => m.inflight.Some? && m.inflight.value.left != []
    case CompleteReport => m.inflight.Some? && m.inflight.value.left == []
  }

  function IssueEvent(m: Machine, buttons: nat, x: nat, y: nat, wheel: int): Machine {
    m.(shared := Issue(m.shared, buttons, x, y, wheel),
       issued := m.issued + [Issued(NextReport(m.shared, x, y, buttons, wheel), IsUrgent(m.shared, buttons, wheel))])
  }

  function PostKeys(m: Machine, keys: Option<nat>): Machine {
    if keys.None? then m else m.(log := m.log + [Keyboard(m.shared.generation, keys.value)])
  }

  const NO_KEYS := 0

  function Step(m: Machine, ev: Event): Machine
    requires Enabled(m, ev)
  {
    match ev
    case PointerEvent(buttons, x, y, wheel) => IssueEvent(m, buttons, x, y, wheel)
    case KeyCall(keys) => m.(call := KeyWait(m.shared.generation, keys))
    case KeyReturn => PostKeys(m, m.call.keys).(call := Idle)
    case ReleaseCall(held) => m.(call := ReleaseWait(m.shared.generation, held))
    case ReleaseButtonsStep =>
      var m' := if m.shared.buttons != 0 then IssueEvent(m, 0, m.shared.x, m.shared.y, 0) else m;
      m'.(call := ReleaseFlush(m'.shared.generation, m.call.keysHeld))
    case ReleaseReturn => PostKeys(m, if m.call.keysHeld then Some(NO_KEYS) else None).(call := Idle)
    case Destroy => m.(call := Destroyed, shared := m.shared.(stopping := true))
    case Take(now) =>
      var r := Taken(m.shared);
      var motion := m.shared.urgent == [];
      m.(shared := AfterTake(m.shared), inflight := Some(InFlight(r, Posts(r))), taken := m.taken + [r.generation],
         nextFlush := if motion then NextTick(m.nextFlush, now) else m.nextFlush,
         motions := if motion then m.motions + [now] else m.motions)
    case PostNext =>
      var f := m.inflight.value;
      m.(log := m.log + [f.left[0]], inflight := Some(f.(left := f.left[1..])))
    case CompleteReport =>
      m.(shared := m.shared.(completed := Max(m.shared.completed, m.inflight.value.report.generation)), inflight := None)
  }

  // ---- what is to hold ----

  function LastTaken(taken: seq<nat>): nat {
    if taken == [] then 0 else taken[|taken| - 1]
  }

  /** The urgent reports issued after generation g, oldest first. */
  function UrgentAfter(issued: seq<Issued>, g: nat): seq<Report> {
    if |issued| <= g then []
    else
      var last := issued[|issued| - 1];
      UrgentAfter(issued[..|issued| - 1], g) + (if last.urgent then [last.report] else [])
  }

  /** Generations count the issued reports, and the fields hold the newest one. */
  ghost predicate IssuedOk(s: Shared, issued: seq<Issued>) {
    && |issued| == s.generation
    && (forall i :: 0 <= i < |issued| ==> issued[i].report.generation == i + 1)
    && (forall i :: 0 <= i < |issued| && !issued[i].urgent ==> issued[i].report.wheel == 0)
    && (if issued == [] then s.buttons == 0
        else var r := issued[|issued| - 1].report; s.buttons == r.buttons && s.x == r.x && s.y == r.y)
  }

  /** What waits is what was issued and not taken: all urgent reports in order, and the newest motion. */
  ghost predicate WaitingOk(s: Shared, issued: seq<Issued>, t: nat) {
    && t <= |issued|
    && s.urgent == UrgentAfter(issued, t)
    && (s.pending <==> t < |issued| && !issued[|issued| - 1].urgent)
  }

  ghost predicate Increasing(s: seq<nat>) {
    forall i, j :: 0 <= i < j < |s| ==> s[i] < s[j]
  }

  /** Reports are taken in the order issued; whatever is passed over is motion. */
  ghost predicate TakenOk(issued: seq<Issued>, taken: seq<nat>) {
    && Increasing(taken)
    && (forall g :: g in taken ==> 1 <= g <= |issued|)
    && (forall g: nat :: 1 <= g <= LastTaken(taken) && g <= |issued| && g !in taken ==> !issued[g - 1].urgent)
  }

  function AllPosts(issued: seq<Issued>, taken: seq<nat>): seq<Post> {
    if taken == [] then []
    else
      var g := taken[|taken| - 1];
      AllPosts(issued, taken[..|taken| - 1]) + (if 1 <= g <= |issued| then Posts(issued[g - 1].report) else [])
  }

  function PointerPosts(log: seq<Post>): seq<Post> {
    if log == [] then []
    else PointerPosts(log[..|log| - 1]) + (if log[|log| - 1].Keyboard? then [] else [log[|log| - 1]])
  }

  function Left(m: Machine): seq<Post> {
    if m.inflight.Some? then m.inflight.value.left else []
  }

  /** The pointer posts are those of the taken reports, in order, each exactly once. */
  ghost predicate LogOk(m: Machine) {
    PointerPosts(m.log) + Left(m) == AllPosts(m.issued, m.taken)
  }

  ghost predicate FlightOk(m: Machine) {
    match m.inflight
    case None => m.shared.completed == LastTaken(m.taken)
    case Some(f) =>
      && m.taken != [] && f.report.generation == LastTaken(m.taken)
      && m.shared.completed == LastTaken(m.taken[..|m.taken| - 1])
  }

  function UpTo(taken: seq<nat>, g: nat): seq<nat> {
    if taken == [] then []
    else UpTo(taken[..|taken| - 1], g) + (if taken[|taken| - 1] <= g then [taken[|taken| - 1]] else [])
  }

  /** A keyboard report follows exactly the posts of the reports taken up to its generation. */
  ghost predicate KeyboardOk(log: seq<Post>, issued: seq<Issued>, taken: seq<nat>, i: int)
    requires 0 <= i < |log|
  {
    log[i].Keyboard? ==>
      log[i].generation <= LastTaken(taken) && PointerPosts(log[..i]) == AllPosts(issued, UpTo(taken, log[i].generation))
  }

  ghost predicate KeyboardsOk(log: seq<Post>, issued: seq<Issued>, taken: seq<nat>) {
    forall i :: 0 <= i < |log| ==> KeyboardOk(log, issued, taken, i)
  }

  /** The interval of the limiter's grid a time falls in. */
  function Cell(start: nat, now: nat): int { (now - start) / FLUSH_INTERVAL }

  /** The deadline is on the grid and beyond the last motion report; no two share an interval. */
  ghost predicate LimiterOk(start: nat, nextFlush: nat, motions: seq<nat>) {
    && nextFlush >= start + FLUSH_INTERVAL && (nextFlush - start) % FLUSH_INTERVAL == 0
    && (forall i :: 0 <= i < |motions| ==> start + FLUSH_INTERVAL <= motions[i])
    && (forall i, j :: 0 <= i < j < |motions| ==> Cell(start, motions[i]) < Cell(start, motions[j]))
    && (if motions == [] then nextFlush == start + FLUSH_INTERVAL
        else motions[|motions| - 1] < nextFlush <= motions[|motions| - 1] + FLUSH_INTERVAL)
  }

  ghost predicate CallOk(m: Machine) {
    && (m.call.KeyWait? || m.call.ReleaseWait? || m.call.ReleaseFlush? ==> m.call.target == m.shared.generation)
    && (m.call.ReleaseFlush? ==> m.shared.buttons == 0)
    && (m.shared.stopping <==> m.call == Destroyed)
  }

  ghost predicate Inv(m: Machine) {
    && IssuedOk(m.shared, m.issued) && WaitingOk(m.shared, m.issued, LastTaken(m.taken))
    && TakenOk(m.issued, m.taken) && LogOk(m) && FlightOk(m) && CallOk(m)
    && KeyboardsOk(m.log, m.issued, m.taken)
    && LimiterOk(m.start, m.nextFlush, m.motions)
  }

  // ---- the report thread ----

  lemma {:induction false} UrgentAfterMembers(issued: seq<Issued>, g: nat)
    requires forall i :: 0 <= i < |issued| ==> issued[i].report.generation == i + 1
    ensures forall r :: r in UrgentAfter(issued, g) ==> g < r.generation <= |issued| && issued[r.generation - 1] == Issued(r, true)
    ensures g < |issued| && issued[|issued| - 1].urgent ==>
              UrgentAfter(issued, g) != [] && UrgentAfter(issued, g)[|UrgentAfter(issued, g)| - 1] == issued[|issued| - 1].report
    decreases |issued|
  {
    if g < |issued| { UrgentAfterMembers(issued[..|issued| - 1], g); }
  }

  /** Taking the oldest urgent report leaves exactly those issued after it. */
  lemma {:induction false} UrgentAfterHead(issued: seq<Issued>, g: nat)
    requires forall i :: 0 <= i < |issued| ==> issued[i].report.generation == i + 1
    requires UrgentAfter(issued, g) != []
    ensures var head := UrgentAfter(issued, g)[0].generation;
            && g < head <= |issued| && UrgentAfter(issued, head) == UrgentAfter(issued, g)[1..]
            && forall k :: g <= k < head - 1 ==> !issued[k].urgent
    decreases |issued|
  {
    var front, last := issued[..|issued| - 1], issued[|issued| - 1];
    if UrgentAfter(front, g) == [] {
      NoneUrgent(front, g);
    } else {
      UrgentAfterHead(front, g);
    }
  }

  lemma {:induction false} NoneUrgent(issued: seq<Issued>, g: nat)
    requires UrgentAfter(issued, g) == []
    ensures forall k :: g <= k < |issued| ==> !issued[k].urgent
    decreases |issued|
  {
    if g < |issued| { NoneUrgent(issued[..|issued| - 1], g); }
  }

  lemma {:induction false} UrgentAfterNone(issued: seq<Issued>)
    ensures UrgentAfter(issued, |issued|) == []
  {
  }

  /** What one take does to the bookkeeping of waiting and taken reports. */
  lemma TakeOrder(s: Shared, issued: seq<Issued>, taken: seq<nat>)
    requires IssuedOk(s, issued) && WaitingOk(s, issued, LastTaken(taken)) && TakenOk(issued, taken)
    requires s.urgent != [] || s.pending
    ensures var r := Taken(s);
            && 1 <= r.generation <= |issued| && LastTaken(taken) < r.generation && r == issued[r.generation - 1].report
            && WaitingOk(AfterTake(s), issued, r.generation) && TakenOk(issued, taken + [r.generation])
  {
    var t := LastTaken(taken);
    var r := Taken(s);
    UrgentAfterMembers(issued, t);
    assert LastTaken(taken + [r.generation]) == r.generation;
    if s.urgent != [] {
      UrgentAfterHead(issued, t);
      assert r in s.urgent;
    } else {
      NoneUrgent(issued, t);
      UrgentAfterNone(issued);
    }
    TakenGrows(issued, taken, r.generation);
  }

  lemma TakenGrows(issued: seq<Issued>, taken: seq<nat>, g: nat)
    requires TakenOk(issued, taken) && LastTaken(taken) < g <= |issued|
    requires forall k :: LastTaken(taken) <= k < g - 1 ==> !issued[k].urgent
    ensures TakenOk(issued, taken + [g])
  {
    LastTakenRises(taken);
    assert forall t :: t in taken + [g] <==> t in taken || t == g;
  }

  lemma {:induction false} UpToAll(taken: seq<nat>, g: nat)
    requires forall t :: t in taken ==> t <= g
    ensures UpTo(taken, g) == taken
  {
    if taken != [] {
      var front := taken[..|taken| - 1];
      assert forall t :: t in front ==> t in taken;
      UpToAll(front, g);
      assert taken[|taken| - 1] in taken;
      assert taken == front + [taken[|taken| - 1]];
    }
  }

  lemma UpToSkips(taken: seq<nat>, later: nat, g: nat)
    requires later > g
    ensures UpTo(taken + [later], g) == UpTo(taken, g)
  {
    assert (taken + [later])[..|taken|] == taken;
  }

  lemma KeyboardsSurviveTake(log: seq<Post>, issued: seq<Issued>, taken: seq<nat>, g: nat)
    requires KeyboardsOk(log, issued, taken) && LastTaken(taken) < g
    ensures KeyboardsOk(log, issued, taken + [g])
  {
    forall i | 0 <= i < |log|
      ensures KeyboardOk(log, issued, taken + [g], i)
    {
      assert KeyboardOk(log, issued, taken, i);
      if log[i].Keyboard? { UpToSkips(taken, g, log[i].generation); }
    }
  }

  lemma TakeLimiter(start: nat, nextFlush: nat, motions: seq<nat>, now: nat)
    requires LimiterOk(start, nextFlush, motions) && now >= nextFlush
    ensures LimiterOk(start, NextTick(nextFlush, now), motions + [now])
  {
    NextTickIsLeast(nextFlush, now);
    var next := NextTick(nextFlush, now);
    assert (next - start) % FLUSH_INTERVAL == 0;
    forall i | 0 <= i < |motions|
      ensures Cell(start, motions[i]) < Cell(start, now)
    {
      var last := motions[|motions| - 1];
      assert Cell(start, motions[i]) <= Cell(start, last);
      assert Cell(start, last) < Cell(start, nextFlush) <= Cell(start, now);
    }
  }

  lemma AllPostsAppend(issued: seq<Issued>, taken: seq<nat>, g: nat)
    requires 1 <= g <= |issued|
    ensures AllPosts(issued, taken + [g]) == AllPosts(issued, taken) + Posts(issued[g - 1].report)
  {
    hide Posts;
    var longer := taken + [g];
    assert longer[|longer| - 1] == g && longer[..|longer| - 1] == taken;
    assert AllPosts(issued, longer) == AllPosts(issued, longer[..|longer| - 1]) + Posts(issued[g - 1].report);
  }

  lemma TakeLog(m: Machine, now: nat)
    requires LogOk(m) && FlightOk(m) && Enabled(m, Take(now))
    requires var g := Taken(m.shared).generation; 1 <= g <= |m.issued| && m.issued[g - 1].report == Taken(m.shared)
    ensures LogOk(Step(m, Take(now))) && FlightOk(Step(m, Take(now)))
  {
    hide Posts, AllPosts;
    var r := Taken(m.shared);
    assert (m.taken + [r.generation])[..|m.taken|] == m.taken;
    AllPostsAppend(m.issued, m.taken, r.generation);
    assert PointerPosts(m.log) + [] == PointerPosts(m.log);
  }

  lemma TakeKeeps(m: Machine, now: nat)
    requires Inv(m) && Enabled(m, Take(now))
    ensures Inv(Step(m, Take(now)))
  {
    hide Posts, AllPosts, Taken;
    TakeOrder(m.shared, m.issued, m.taken);
    KeyboardsSurviveTake(m.log, m.issued, m.taken, Taken(m.shared).generation);
    TakeLog(m, now);
    if m.shared.urgent == [] { TakeLimiter(m.start, m.nextFlush, m.motions, now); }
  }

  lemma KeyboardsSurvivePost(log: seq<Post>, issued: seq<Issued>, taken: seq<nat>, p: Post)
    requires KeyboardsOk(log, issued, taken)
    requires p.Keyboard? ==> p.generation <= LastTaken(taken) && PointerPosts(log) == AllPosts(issued, UpTo(taken, p.generation))
    ensures KeyboardsOk(log + [p], issued, taken)
  {
    forall i | 0 <= i < |log + [p]|
      ensures KeyboardOk(log + [p], issued, taken, i)
    {
      assert (log + [p])[..|log|] == log;
      if i < |log| {
        assert KeyboardOk(log, issued, taken, i);
        assert (log + [p])[..i] == log[..i];
      }
    }
  }

  lemma PostKeeps(m: Machine)
    requires Inv(m) && Enabled(m, PostNext)
    ensures Inv(Step(m, PostNext))
  {
    hide Posts, AllPosts;
    var left := m.inflight.value.left;
    LeftArePointerPosts(m);
    KeyboardsSurvivePost(m.log, m.issued, m.taken, left[0]);
    PostMoves(m.log, left);
  }

  lemma PostMoves(log: seq<Post>, left: seq<Post>)
    requires left != [] && !left[0].Keyboard?
    ensures PointerPosts(log + [left[0]]) + left[1..] == PointerPosts(log) + left
  {
    assert (log + [left[0]])[..|log|] == log;
  }

  lemma {:induction false} AllPostsArePointer(issued: seq<Issued>, taken: seq<nat>)
    ensures forall p :: p in AllPosts(issued, taken) ==> !p.Keyboard?
  {
    if taken != [] { AllPostsArePointer(issued, taken[..|taken| - 1]); }
  }

  lemma LeftArePointerPosts(m: Machine)
    requires LogOk(m)
    ensures forall p :: p in Left(m) ==> !p.Keyboard?
  {
    AllPostsArePointer(m.issued, m.taken);
    assert forall p :: p in Left(m) ==> p in PointerPosts(m.log) + Left(m);
  }

  lemma {:induction false} LastTakenRises(taken: seq<nat>)
    requires Increasing(taken)
    ensures forall t :: t in taken ==> t <= LastTaken(taken)
    ensures taken != [] ==> LastTaken(taken[..|taken| - 1]) <= LastTaken(taken)
  {
  }

  lemma CompleteKeeps(m: Machine)
    requires Inv(m) && Enabled(m, CompleteReport)
    ensures Inv(Step(m, CompleteReport))
  {
    LastTakenRises(m.taken);
  }

  // ---- the RFB thread ----

  lemma {:induction false} AllPostsStable(issued: seq<Issued>, e: Issued, taken: seq<nat>)
    requires forall g :: g in taken ==> 1 <= g <= |issued|
    ensures AllPosts(issued + [e], taken) == AllPosts(issued, taken)
  {
    if taken != [] {
      var front := taken[..|taken| - 1];
      assert forall g :: g in front ==> g in taken;
      AllPostsStable(issued, e, front);
      assert taken[|taken| - 1] in taken;
    }
  }

  lemma {:induction false} UpToMembers(taken: seq<nat>, g: nat)
    ensures forall t :: t in UpTo(taken, g) ==> t in taken && t <= g
  {
    if taken != [] { UpToMembers(taken[..|taken| - 1], g); }
  }

  lemma KeyboardsSurviveIssue(log: seq<Post>, issued: seq<Issued>, taken: seq<nat>, e: Issued)
    requires KeyboardsOk(log, issued, taken) && forall g :: g in taken ==> 1 <= g <= |issued|
    ensures KeyboardsOk(log, issued + [e], taken)
  {
    forall i | 0 <= i < |log|
      ensures KeyboardOk(log, issued + [e], taken, i)
    {
      assert KeyboardOk(log, issued, taken, i);
      if log[i].Keyboard? {
        UpToMembers(taken, log[i].generation);
        AllPostsStable(issued, e, UpTo(taken, log[i].generation));
      }
    }
  }

  lemma IssueWaiting(s: Shared, issued: seq<Issued>, t: nat, buttons: nat, x: nat, y: nat, wheel: int)
    requires IssuedOk(s, issued) && WaitingOk(s, issued, t)
    ensures var issued' := issued + [Issued(NextReport(s, x, y, buttons, wheel), IsUrgent(s, buttons, wheel))];
            IssuedOk(Issue(s, buttons, x, y, wheel), issued') && WaitingOk(Issue(s, buttons, x, y, wheel), issued', t)
  {
    var issued' := issued + [Issued(NextReport(s, x, y, buttons, wheel), IsUrgent(s, buttons, wheel))];
    assert issued'[..|issued|] == issued;
    if t == |issued| { UrgentAfterNone(issued); }
  }

  lemma IssueKeeps(m: Machine, buttons: nat, x: nat, y: nat, wheel: int)
    requires Inv(m) && (m.call == Idle || m.call.ReleaseWait?)
    ensures Inv(IssueEvent(m, buttons, x, y, wheel).(call := Idle))
  {
    hide Posts, AllPosts, PointerPosts, IssuedOk, WaitingOk, KeyboardsOk, LimiterOk, Increasing;
    var e := Issued(NextReport(m.shared, x, y, buttons, wheel), IsUrgent(m.shared, buttons, wheel));
    IssueWaiting(m.shared, m.issued, LastTaken(m.taken), buttons, x, y, wheel);
    AllPostsStable(m.issued, e, m.taken);
    KeyboardsSurviveIssue(m.log, m.issued, m.taken, e);
  }

  /** A report in flight is newer than everything completed. */
  lemma CompletedBehindFlight(m: Machine)
    requires FlightOk(m) && TakenOk(m.issued, m.taken)
    ensures m.inflight.Some? ==> m.shared.completed < LastTaken(m.taken)
    ensures LastTaken(m.taken) <= |m.issued|
  {
    var n := |m.taken|;
    if n > 0 { assert m.taken[n - 1] in m.taken; }
    if n > 1 { assert m.taken[..n - 1][n - 2] == m.taken[n - 2] < m.taken[n - 1]; }
  }

  /** Once a flush for the newest generation is through, nothing waits and nothing is in flight. */
  lemma FlushedIsQuiet(m: Machine)
    requires Inv(m) && !m.shared.stopping && m.shared.completed >= m.shared.generation
    ensures m.inflight.None? && LastTaken(m.taken) == m.shared.generation && !m.shared.pending && m.shared.urgent == []
    ensures PointerPosts(m.log) == AllPosts(m.issued, m.taken)
  {
    CompletedBehindFlight(m);
    UrgentAfterNone(m.issued);
    assert PointerPosts(m.log) + [] == PointerPosts(m.log);
  }

  lemma PostKeysKeeps(m: Machine, keys: Option<nat>)
    requires Inv(m) && !m.shared.stopping && m.shared.completed >= m.shared.generation
    ensures Inv(PostKeys(m, keys).(call := Idle))
  {
    hide Posts, AllPosts, UpTo, PointerPosts, UrgentAfter, KeyboardsOk, LimiterOk, IssuedOk;
    FlushedIsQuiet(m);
    LastTakenRises(m.taken);
    UpToAll(m.taken, m.shared.generation);
    if keys.Some? {
      var p := Keyboard(m.shared.generation, keys.value);
      KeyboardsSurvivePost(m.log, m.issued, m.taken, p);
      KeyboardIsNoPointerPost(m.log, p);
    }
  }

  lemma KeyboardIsNoPointerPost(log: seq<Post>, p: Post)
    requires p.Keyboard?
    ensures PointerPosts(log + [p]) == PointerPosts(log)
  {
    assert (log + [p])[..|log|] == log;
  }

  lemma ReleaseButtonsKeeps(m: Machine)
    requires Inv(m) && Enabled(m, ReleaseButtonsStep)
    ensures Inv(Step(m, ReleaseButtonsStep))
  {
    hide Posts, AllPosts;
    if m.shared.buttons != 0 { IssueKeeps(m, 0, m.shared.x, m.shared.y, 0); }
  }

  lemma ForegroundKeeps(m: Machine, ev: Event)
    requires Inv(m) && Enabled(m, ev) && !ev.Take? && !ev.PostNext? && !ev.CompleteReport?
    ensures Inv(Step(m, ev))
  {
    hide Posts, AllPosts;
    match ev
    case PointerEvent(buttons, x, y, wheel) => IssueKeeps(m, buttons, x, y, wheel);
    case KeyReturn => PostKeysKeeps(m, m.call.keys);
    case ReleaseButtonsStep => ReleaseButtonsKeeps(m);
    case ReleaseReturn => PostKeysKeeps(m, if m.call.keysHeld then Some(NO_KEYS) else None);
    case _ =>
  }

  lemma StepKeeps(m: Machine, ev: Event)
    requires Inv(m) && Enabled(m, ev)
    ensures Inv(Step(m, ev))
  {
    match ev
    case Take(now) => TakeKeeps(m, now);
    case PostNext => PostKeeps(m);
    case CompleteReport => CompleteKeeps(m);
    case _ => ForegroundKeeps(m, ev);
  }

  // ---- runs ----

  ghost predicate IsRun(run: seq<Machine>, events: seq<Event>) {
    && |run| == |events| + 1 && run[0] == Initial(run[0].start)
    && forall i :: 0 <= i < |events| ==> Enabled(run[i], events[i]) && run[i + 1] == Step(run[i], events[i])
  }

  lemma {:induction false} Reachable(run: seq<Machine>, events: seq<Event>, n: nat)
    requires IsRun(run, events) && n < |run|
    ensures Inv(run[n])
  {
    if n > 0 {
      Reachable(run, events, n - 1);
      StepKeeps(run[n - 1], events[n - 1]);
    }
  }

  // ---- linearization ----

  function Beyond(taken: seq<nat>, g: nat): seq<nat> {
    if taken == [] then []
    else Beyond(taken[..|taken| - 1], g) + (if taken[|taken| - 1] > g then [taken[|taken| - 1]] else [])
  }

  lemma {:induction false} BeyondNone(taken: seq<nat>, g: nat)
    requires forall i :: 0 <= i < |taken| ==> taken[i] <= g
    ensures Beyond(taken, g) == []
  {
    if taken != [] { BeyondNone(taken[..|taken| - 1], g); }
  }

  /** Reports up to a generation and reports beyond it do not mix. */
  lemma {:induction false} AllPostsSplit(issued: seq<Issued>, taken: seq<nat>, g: nat)
    requires Increasing(taken) && forall i :: 0 <= i < |taken| ==> 1 <= taken[i] <= |issued|
    ensures AllPosts(issued, taken) == AllPosts(issued, UpTo(taken, g)) + AllPosts(issued, Beyond(taken, g))
  {
    hide AllPosts;
    AllPostsNone(issued);
    if taken != [] {
      var n := |taken| - 1;
      var front, last := taken[..n], taken[n];
      AllPostsSplit(issued, front, g);
      if last <= g { BeyondNone(front, g); }
      AllPostsSplitLast(issued, front, last, g);
      assert taken == front + [last];
    }
  }

  lemma AllPostsSplitLast(issued: seq<Issued>, front: seq<nat>, last: nat, g: nat)
    requires 1 <= last <= |issued| && (last <= g ==> Beyond(front, g) == [])
    requires AllPosts(issued, front) == AllPosts(issued, UpTo(front, g)) + AllPosts(issued, Beyond(front, g))
    ensures var taken := front + [last];
            AllPosts(issued, taken) == AllPosts(issued, UpTo(taken, g)) + AllPosts(issued, Beyond(taken, g))
  {
    hide Posts, AllPosts, UpTo, Beyond;
    UpToAppend(front, last, g);
    AllPostsAppend(issued, front, last);
    var upTo, beyond := AllPosts(issued, UpTo(front, g)), AllPosts(issued, Beyond(front, g));
    if last <= g {
      AllPostsAppend(issued, UpTo(front, g), last);
      AllPostsNone(issued);
      assert upTo + beyond == upTo;
      assert AllPosts(issued, UpTo(front + [last], g)) + beyond == AllPosts(issued, UpTo(front + [last], g));
    } else {
      AllPostsAppend(issued, Beyond(front, g), last);
      Associate(upTo, beyond, Posts(issued[last - 1].report));
    }
  }

  lemma UpToAppend(front: seq<nat>, last: nat, g: nat)
    ensures UpTo(front + [last], g) == if last <= g then UpTo(front, g) + [last] else UpTo(front, g)
    ensures Beyond(front + [last], g) == if last <= g then Beyond(front, g) else Beyond(front, g) + [last]
  {
    assert (front + [last])[..|front|] == front;
  }

  lemma AllPostsNone(issued: seq<Issued>)
    ensures AllPosts(issued, []) == []
  {
  }

  lemma {:induction false} PointerPostsConcat(a: seq<Post>, b: seq<Post>)
    ensures PointerPosts(a + b) == PointerPosts(a) + PointerPosts(b)
    decreases |b|
  {
    if b == [] {
      assert a + b == a;
    } else {
      var front := b[..|b| - 1];
      PointerPostsConcat(a, front);
      assert (a + b)[..|a + b| - 1] == a + front;
    }
  }

  /** Over every run: the reports taken have strictly increasing generations, their posts make up the
      pointer part of the log, each exactly once and in order; every button change or wheel tick is taken
      or still queued, oldest first, and a motion passed over has a newer report behind it. */
  lemma EveryRunLinearizes(run: seq<Machine>, events: seq<Event>, n: nat, g: nat)
    requires IsRun(run, events) && n < |run| && 1 <= g <= |run[n].issued|
    ensures var m := run[n];
            && PointerPosts(m.log) + Left(m) == AllPosts(m.issued, m.taken) && Increasing(m.taken)
            && m.shared.urgent == UrgentAfter(m.issued, LastTaken(m.taken))
            && (m.issued[g - 1].urgent ==> g in m.taken || m.issued[g - 1].report in m.shared.urgent)
            && (g !in m.taken && !m.issued[g - 1].urgent ==>
                  LastTaken(m.taken) > g || m.shared.pending
                  || exists r :: r in m.shared.urgent && r.generation > g)
  {
    hide Posts, AllPosts;
    Reachable(run, events, n);
    var m := run[n];
    var t := LastTaken(m.taken);
    UrgentWaits(m.issued, t, g);
    if t < g {
      var last := m.issued[|m.issued| - 1];
      UrgentWaits(m.issued, t, |m.issued|);
      if !m.shared.pending { assert last.report in m.shared.urgent && last.report.generation == |m.issued|; }
    } else if t > 0 {
      assert m.taken[|m.taken| - 1] in m.taken;
    }
  }

  lemma {:induction false} UrgentWaits(issued: seq<Issued>, t: nat, g: nat)
    requires 1 <= g <= |issued|
    ensures t < g && issued[g - 1].urgent ==> issued[g - 1].report in UrgentAfter(issued, t)
    decreases |issued|
  {
    if t < g < |issued| { UrgentWaits(issued[..|issued| - 1], t, g); }
  }

  /** A keyboard report splits the pointer work: what was issued before its call and not superseded is
      posted before it, what was issued after comes after it. */
  lemma KeyboardIsABarrier(run: seq<Machine>, events: seq<Event>, n: nat, i: nat)
    requires IsRun(run, events) && n < |run| && i < |run[n].log| && run[n].log[i].Keyboard?
    ensures var m := run[n]; var g := m.log[i].generation;
            && g <= LastTaken(m.taken)
            && PointerPosts(m.log[..i]) == AllPosts(m.issued, UpTo(m.taken, g))
            && PointerPosts(m.log[i + 1..]) + Left(m) == AllPosts(m.issued, Beyond(m.taken, g))
            && (forall u: nat :: 1 <= u <= g && u <= |m.issued| && m.issued[u - 1].urgent ==> u in UpTo(m.taken, g))
  {
    hide Inv, IsRun, Posts, AllPosts, UpTo, Beyond, PointerPosts;
    Reachable(run, events, n);
    BarrierAt(run[n], i);
  }

  lemma BarrierAt(m: Machine, i: nat)
    requires Inv(m) && i < |m.log| && m.log[i].Keyboard?
    ensures var g := m.log[i].generation;
            && g <= LastTaken(m.taken)
            && PointerPosts(m.log[..i]) == AllPosts(m.issued, UpTo(m.taken, g))
            && PointerPosts(m.log[i + 1..]) + Left(m) == AllPosts(m.issued, Beyond(m.taken, g))
            && (forall u: nat :: 1 <= u <= g && u <= |m.issued| && m.issued[u - 1].urgent ==> u in UpTo(m.taken, g))
  {
    hide Posts, AllPosts, UpTo, Beyond, PointerPosts, IssuedOk, WaitingOk, FlightOk, CallOk, LimiterOk;
    var g := m.log[i].generation;
    assert KeyboardOk(m.log, m.issued, m.taken, i);
    assert forall k :: 0 <= k < |m.taken| ==> m.taken[k] in m.taken;
    AllPostsSplit(m.issued, m.taken, g);
    PointerPostsAround(m.log, i);
    SamePrefix(PointerPosts(m.log[..i]), PointerPosts(m.log[i + 1..]), Left(m), AllPosts(m.issued, Beyond(m.taken, g)));
    forall u: nat | 1 <= u <= g && u <= |m.issued| && m.issued[u - 1].urgent
      ensures u in UpTo(m.taken, g)
    {
      InUpTo(m.taken, u, g);
    }
  }

  lemma PointerPostsAround(log: seq<Post>, i: nat)
    requires i < |log| && log[i].Keyboard?
    ensures PointerPosts(log) == PointerPosts(log[..i]) + PointerPosts(log[i + 1..])
  {
    assert log == log[..i + 1] + log[i + 1..];
    PointerPostsConcat(log[..i + 1], log[i + 1..]);
    KeyboardIsSkipped(log, i);
  }

  lemma KeyboardIsSkipped(log: seq<Post>, i: nat)
    requires i < |log| && log[i].Keyboard?
    ensures PointerPosts(log[..i + 1]) == PointerPosts(log[..i])
  {
    assert log[..i + 1][..i] == log[..i];
  }

  lemma SamePrefix(p: seq<Post>, a: seq<Post>, left: seq<Post>, b: seq<Post>)
    requires p + a + left == p + b
    ensures a + left == b
  {
    assert a + left == (p + a + left)[|p|..] && b == (p + b)[|p|..];
  }

  lemma {:induction false} InUpTo(taken: seq<nat>, u: nat, g: nat)
    requires u <= g
    ensures u in taken ==> u in UpTo(taken, g)
  {
    if taken != [] {
      InUpTo(taken[..|taken| - 1], u, g);
      assert u in taken ==> u in taken[..|taken| - 1] || u == taken[|taken| - 1];
    }
  }

  // ---- flushes ----

  function UrgentWork(urgent: seq<Report>): nat {
    if urgent == [] then 0 else |Posts(urgent[0])| + 2 + UrgentWork(urgent[1..])
  }

  /** Steps the report thread has to take before it is idle, if nothing new comes in. */
  function Work(m: Machine): nat {
    UrgentWork(m.shared.urgent)
    + (if m.shared.pending then 3 else 0)
    + (if m.inflight.Some? then |m.inflight.value.left| + 1 else 0)
  }

  predicate ByReportThread(ev: Event) { ev.Take? || ev.PostNext? || ev.CompleteReport? }

  /** Every step of the report thread is progress. */
  lemma ReportThreadProgress(m: Machine, ev: Event)
    requires Enabled(m, ev) && ByReportThread(ev)
    ensures Work(Step(m, ev)) < Work(m)
    ensures Step(m, ev).shared.generation == m.shared.generation && Step(m, ev).call == m.call
    ensures Step(m, ev).shared.stopping == m.shared.stopping
  {
    if ev.Take? && m.shared.urgent == [] { assert |Posts(Taken(m.shared))| == 1; }
  }

  /** No stuck flush: while something issued is not completed, exactly that newest generation is waiting,
      queued last or in flight, and the report thread has a step to take once the deadline has passed. */
  lemma NeverStuck(m: Machine, now: nat) returns (ev: Event)
    requires Inv(m) && !m.shared.stopping && m.shared.completed < m.shared.generation && now >= m.nextFlush
    ensures Enabled(m, ev) && ByReportThread(ev)
    ensures m.shared.pending
            || (m.shared.urgent != [] && m.shared.urgent[|m.shared.urgent| - 1].generation == m.shared.generation)
            || (m.inflight.Some? && m.inflight.value.report.generation == m.shared.generation)
  {
    UrgentAfterMembers(m.issued, LastTaken(m.taken));
    if m.inflight.None? {
      ev := Take(now);
    } else if m.inflight.value.left == [] {
      ev := CompleteReport;
    } else {
      ev := PostNext;
    }
  }

  ghost predicate RunsTo(m: Machine, events: seq<Event>, m': Machine)
    decreases |events|
  {
    if events == [] then m == m'
    else Enabled(m, events[0]) && ByReportThread(events[0]) && RunsTo(Step(m, events[0]), events[1..], m')
  }

  /** Every blocking flush is discharged: from any state, with the RFB thread waiting, a bounded number of
      report-thread steps alone completes the newest generation. */
  lemma {:induction false} FlushIsDischarged(m: Machine) returns (events: seq<Event>, m': Machine)
    requires Inv(m) && !m.shared.stopping
    ensures RunsTo(m, events, m') && |events| <= Work(m)
    ensures m'.call == m.call && m'.shared.completed >= m.shared.generation && Inv(m')
    decreases Work(m)
  {
    if m.shared.completed >= m.shared.generation {
      return [], m;
    }
    var ev := NeverStuck(m, m.nextFlush);
    ReportThreadProgress(m, ev);
    StepKeeps(m, ev);
    var rest;
    rest, m' := FlushIsDischarged(Step(m, ev));
    events := [ev] + rest;
    assert events[1..] == rest;
  }

  /** When Release returns, no button is held in the newest posted pointer report, and held keys have
      been let go. */
  lemma ReleaseLetsGo(run: seq<Machine>, events: seq<Event>, n: nat)
    requires IsRun(run, events) && n < |events| && events[n] == ReleaseReturn
    ensures var m := run[n + 1]; var p := PointerPosts(m.log);
            && m.shared.buttons == 0
            && (p != [] ==> !p[|p| - 1].Keyboard? && p[|p| - 1].buttons == 0)
            && (run[n].call.keysHeld ==> m.log == run[n].log + [Keyboard(m.shared.generation, NO_KEYS)])
  {
    Reachable(run, events, n);
    var m, m' := run[n], run[n + 1];
    hide Posts, AllPosts;
    FlushedIsQuiet(m);
    if m'.log != m.log {
      assert m'.log[..|m.log|] == m.log;
      assert PointerPosts(m'.log) == PointerPosts(m.log);
    }
    LastPostOf(m.shared, m.issued, m.taken);
  }

  /** The newest report taken is the newest issued, so its posts carry the current buttons. */
  lemma LastPostOf(s: Shared, issued: seq<Issued>, taken: seq<nat>)
    requires IssuedOk(s, issued) && TakenOk(issued, taken) && LastTaken(taken) == |issued|
    ensures var p := AllPosts(issued, taken); p != [] ==> !p[|p| - 1].Keyboard? && p[|p| - 1].buttons == s.buttons
  {
    hide Posts, AllPosts, WheelSteps;
    if taken == [] {
      AllPostsNone(issued);
    } else {
      var g := taken[|taken| - 1];
      assert g in taken && taken == taken[..|taken| - 1] + [g];
      AllPostsAppend(issued, taken[..|taken| - 1], g);
      PostsCarryButtons(issued[g - 1].report);
      var posts, p := Posts(issued[g - 1].report), AllPosts(issued, taken);
      assert p[|p| - 1] == posts[|posts| - 1];
    }
  }

  lemma PostsCarryButtons(r: Report)
    ensures Posts(r) != [] && forall p :: p in Posts(r) ==> !p.Keyboard? && p.buttons == r.buttons
  {
    hide WheelSteps;
  }

  // ---- limiter ----

  lemma {:induction false} MotionCells(start: nat, nextFlush: nat, motions: seq<nat>, k: nat)
    requires LimiterOk(start, nextFlush, motions) && k < |motions|
    ensures Cell(start, motions[k]) >= k + 1
  {
    if k > 0 { MotionCells(start, nextFlush, motions, k - 1); }
  }

  /** Over every run: the k-th pure-motion report goes out no earlier than start plus k intervals, no two
      share an interval, the deadline stays on the grid, and urgent reports do not move it. */
  lemma EveryRunIsLimited(run: seq<Machine>, events: seq<Event>, n: nat, k: nat)
    requires IsRun(run, events) && n < |run|
    ensures var m := run[n];
            && (k < |m.motions| ==> m.motions[k] >= m.start + (k + 1) * FLUSH_INTERVAL)
            && (forall i, j :: 0 <= i < j < |m.motions| ==> Cell(m.start, m.motions[i]) < Cell(m.start, m.motions[j]))
            && (m.nextFlush - m.start) % FLUSH_INTERVAL == 0
            && (m.motions != [] ==> m.motions[|m.motions| - 1] < m.nextFlush <= m.motions[|m.motions| - 1] + FLUSH_INTERVAL)
    ensures n < |events| && events[n].Take? && run[n].shared.urgent != [] ==> run[n + 1].nextFlush == run[n].nextFlush
  {
    Reachable(run, events, n);
    var m := run[n];
    if k < |m.motions| { MotionCells(m.start, m.nextFlush, m.motions, k); }
  }
}
