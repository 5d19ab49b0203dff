/** The pacing of direct JPEG rounds: a clock that moves on a grid of frame intervals, with forced rounds
    let through at any time. Times are in nanoseconds. */
module JpegCadence {
  import opened Base

  /** fps as the configuration check admits it. */
  type Rate = n: nat | 1 <= n <= 60 witness 1

  function Interval(fps: Rate): nat { 1_000_000 / fps * 1000 }

  /** How much earlier than one interval a round may come: a tenth, in whole microseconds. */
  function Slack(fps: Rate): nat { 1_000_000 / fps / 10 * 1000 }

  lemma SlackIsSmall(fps: Rate)
    ensures 0 < Slack(fps) < Interval(fps)
  {
    var us := 1_000_000 / fps;
    assert us >= 16_666;
  }

  /** The interval is the time of one frame in whole microseconds. */
  lemma IntervalExactly(fps: Rate)
    ensures Interval(fps) % 1000 == 0 && fps * Interval(fps) <= 1_000_000_000 < fps * (Interval(fps) + 1000)
  {
    var us := 1_000_000 / fps;
    QuotientBounds(1_000_000, fps);
    Thousandfold(fps, us);
    Thousandfold(fps, us + 1);
  }

  /** The slack is a tenth of it, in whole microseconds again. */
  lemma SlackExactly(fps: Rate)
    ensures Slack(fps) % 1000 == 0 && 10 * Slack(fps) <= Interval(fps) < 10 * (Slack(fps) + 1000)
  {
  }

  lemma Thousandfold(a: int, b: int)
    ensures a * (b * 1000) == a * b * 1000
  {
  }

  /** The clock lets an unforced round through. */
  predicate Due(last: Option<int>, now: int, fps: Rate) {
    last == None || now - last.value >= Interval(fps) - Slack(fps)
  }

  /** The clock after a round in which a JPEG was queued: one interval on, and over whole missed intervals. */
  function Advance(last: Option<int>, now: int, fps: Rate): int {
    if last == None then now
    else
      var next := last.value + Interval(fps);
      if next + Interval(fps) <= now then next + Interval(fps) * ((now - next) / Interval(fps)) else next
  }

  // ---- one step, with the interval as a number ----

  /** The multiple of i just below t, counted from next. */
  lemma Skipped(next: int, now: int, i: nat)
    requires i > 0 && next + i <= now
    ensures now - i < next + i * ((now - next) / i) <= now
  {
  }

  lemma AdvanceBounds(last: int, now: int, fps: Rate)
    ensures var t := Advance(Some(last), now, fps);
            && last + Interval(fps) <= t && now - Interval(fps) < t && (t <= now || t == last + Interval(fps))
            && t == last + Interval(fps) * Steps(last, now, fps) && Steps(last, now, fps) >= 1
  {
    SlackIsSmall(fps);
    hide Interval;
    var i := Interval(fps);
    var next := last + i;
    if next + i <= now {
      Skipped(next, now, i);
      assert last + i * (1 + (now - next) / i) == next + i * ((now - next) / i);
      Quotient(now - next, i);
    }
  }

  lemma Quotient(a: int, i: nat)
    requires i > 0 && a >= i
    ensures a / i >= 1 && i * (a / i) >= i
  {
  }

  /** Grid intervals one round moves the clock. */
  function Steps(last: int, now: int, fps: Rate): int {
    SlackIsSmall(fps);
    var next := last + Interval(fps);
    if next + Interval(fps) <= now then 1 + (now - next) / Interval(fps) else 1
  }

  // ---- runs between two resets of the clock ----

  /** The clock after rounds at the given times. */
  function Clock(rounds: seq<int>, fps: Rate): Option<int> {
    if rounds == [] then None
    else Some(Advance(Clock(rounds[..|rounds| - 1], fps), rounds[|rounds| - 1], fps))
  }

  lemma ClockGrows(rounds: seq<int>, now: int, fps: Rate)
    ensures Clock(rounds + [now], fps) == Some(Advance(Clock(rounds, fps), now, fps))
  {
    hide Advance;
    var longer := rounds + [now];
    assert longer[..|longer| - 1] == rounds;
  }

  /** Grid intervals since the first round. */
  function Ticks(rounds: seq<int>, fps: Rate): int {
    if |rounds| <= 1 then 0
    else
      var front := rounds[..|rounds| - 1];
      Ticks(front, fps) + Steps(Clock(front, fps).value, rounds[|rounds| - 1], fps)
  }

  /** The clock stays on the grid through the first round, and every later round moves it on. */
  lemma {:induction false} StaysOnGrid(rounds: seq<int>, fps: Rate)
    requires rounds != []
    ensures Clock(rounds, fps) == Some(rounds[0] + Interval(fps) * Ticks(rounds, fps))
    ensures Ticks(rounds, fps) >= |rounds| - 1
    decreases |rounds|
  {
    if |rounds| > 1 {
      hide Interval, Steps;
      var front, now := rounds[..|rounds| - 1], rounds[|rounds| - 1];
      StaysOnGrid(front, fps);
      var last := Clock(front, fps).value;
      AdvanceBounds(last, now, fps);
      Distribute(Interval(fps), Ticks(front, fps), Steps(last, now, fps));
    }
  }

  /** However many forced rounds there were, at an unforced round at most one frame per interval has gone
      out since the first, up to the slack. */
  lemma FramesAreLimited(rounds: seq<int>, now: int, fps: Rate)
    requires rounds != [] && Due(Clock(rounds, fps), now, fps)
    ensures |rounds + [now]| <= 1 + (now - rounds[0] + Slack(fps)) / Interval(fps)
  {
    SlackIsSmall(fps);
    StaysOnGrid(rounds, fps);
    hide Interval, Slack, Ticks, Clock;
    var i, elapsed := Interval(fps), Clock(rounds, fps).value - rounds[0];
    ProductMonotone(|rounds| - 1, Ticks(rounds, fps), i);
    assert elapsed >= i * (|rounds| - 1);
    Fits(|rounds|, now - rounds[0] + Slack(fps), i);
  }

  lemma Fits(n: nat, span: int, i: nat)
    requires i > 0 && span >= i * (n - 1) + i
    ensures n <= span / i
  {
    assert i * n == i * (n - 1) + i;
    if span / i < n { ProductMonotone(span / i + 1, n, i); }
  }

  /** After any round the clock is less than an interval behind, and it is ahead by no more than the slack
      exactly when the round did not need to be forced. */
  lemma NearExactlyWhenDue(last: Option<int>, now: int, fps: Rate)
    ensures now - Interval(fps) < Advance(last, now, fps)
    ensures Due(last, now, fps) <==> Advance(last, now, fps) <= now + Slack(fps)
  {
    SlackIsSmall(fps);
    match last
    case None => FirstRound(now, fps);
    case Some(t) =>
      AdvanceBounds(t, now, fps);
      if !Due(last, now, fps) { assert Advance(last, now, fps) == t + Interval(fps); }
  }

  lemma FirstRound(now: int, fps: Rate)
    ensures Advance(None, now, fps) == now
  {
  }

  /** So the next unforced round is let through at the latest one interval later. */
  lemma NoStarvation(last: Option<int>, now: int, later: int, fps: Rate)
    requires Due(last, now, fps) && later >= now + Interval(fps)
    ensures Due(Some(Advance(last, now, fps)), later, fps)
  {
    hide Advance;
    NearExactlyWhenDue(last, now, fps);
  }

  /** The bound is about unforced rounds: two forced ones in the same instant put the clock a whole interval
      ahead of the time. */
  lemma ForcedRunsAhead(now: int, fps: Rate)
    ensures Clock([now, now], fps) == Some(now + Interval(fps)) && now + Interval(fps) > now + Slack(fps)
  {
    SlackIsSmall(fps);
    var rounds := [now, now];
    assert rounds[..1] == [now] && [now][..0] == [];
    assert Clock([now], fps) == Some(now);
  }
}
