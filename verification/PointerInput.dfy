/** Pointer coalescing between the RFB thread and the report thread: the state behind the mutex, the posts a
    report becomes, and the object whose methods update it. */
module PointerInput {
  import opened Base

  /** Steady-clock nanoseconds. */
  const FLUSH_INTERVAL := 33_000_000

  datatype Report = Report(buttons: nat, x: nat, y: nat, wheel: int, generation: nat)

  /** What reaches the HID socket. A keyboard report is tagged with the pointer generation at its call. */
  datatype Post =
    | Absolute(generation: nat, buttons: nat, x: nat, y: nat)
    | Wheel(generation: nat, buttons: nat, step: int)
    | Keyboard(generation: nat, keys: nat)

  /** The fields guarded by the pointer mutex. */
  datatype Shared = Shared(stopping: bool, pending: bool, buttons: nat, x: nat, y: nat, urgent: seq<Report>,
                           generation: nat, completed: nat)

  const INIT := Shared(false, false, 0, 0, 0, [], 0, 0)

  // ---- coordinates ----

  function Clamp(v: int, lo: int, hi: int): int
    requires lo <= hi
    ensures lo <= Clamp(v, lo, hi) <= hi
  {
    if v < lo then lo else if v > hi then hi else v
  }

  /** One axis: framebuffer position to the absolute HID range. */
  function ScaleAxis(v: int, size: nat): nat
    requires 1 <= size < 0x1_0000
  {
    if size > 1 then Clamp(v, 0, size - 1) * 32767 / (size - 1) else 0
  }

  /** The scaled position stays in range without overflowing 32 bits, keeps the order of positions and
      maps the screen edges to the ends of the range. */
  lemma ScaleAxisFaithful(v: int, w: int, size: nat)
    requires 1 <= size < 0x1_0000 && v <= w
    ensures 0 <= ScaleAxis(v, size) <= ScaleAxis(w, size) <= 32767
    ensures Clamp(w, 0, size - 1) * 32767 < 0x1_0000_0000
    ensures size > 1 ==> ScaleAxis(0, size) == 0 && ScaleAxis(size - 1, size) == 32767
  {
    if size > 1 {
      var d := size - 1;
      var a, b := Clamp(v, 0, d) * 32767, Clamp(w, 0, d) * 32767;
      DivisionMonotone(a, b, d);
      DivisionMonotone(b, 32767 * d, d);
      ExactDivision(32767, d);
    }
  }

  /** Between the edges the scaled position is the proportional one, rounded down; positions outside the
      framebuffer count as its edge, and an axis of one pixel is always at zero. */
  lemma ScaleAxisProportional(v: int, size: nat)
    requires 1 <= size < 0x1_0000
    ensures var inside := if v < 0 then 0 else if v >= size then size - 1 else v;
            var r := ScaleAxis(v, size);
            if size == 1 then r == 0 else r * (size - 1) <= 32767 * inside < (r + 1) * (size - 1)
  {
    if size > 1 {
      var inside := Clamp(v, 0, size - 1);
      QuotientBounds(inside * 32767, size - 1);
    }
  }

  lemma DivisionMonotone(a: nat, b: nat, d: nat)
    requires d > 0 && a <= b
    ensures a / d <= b / d
  {
    var p, q := a / d, b / d;
    assert p * d <= a && b < q * d + d;
    if q < p {
      assert (q + 1) * d <= p * d by { ProductMonotone(q + 1, p, d); }
    }
  }

  lemma ExactDivision(q: nat, d: nat)
    requires d > 0
    ensures q * d / d == q && d * q / d == q
  {
    var r := q * d / d;
    assert r * d <= q * d < r * d + d;
    if r < q { ProductMonotone(r + 1, q, d); }
    if q < r { ProductMonotone(q + 1, r, d); }
  }

  // ---- posts ----

  /** A wheel movement in steps the HID report can carry. */
  function WheelSteps(wheel: int): seq<int>
    decreases if wheel < 0 then -wheel else wheel
  {
    if wheel == 0 then [] else [Clamp(wheel, -127, 127)] + WheelSteps(wheel - Clamp(wheel, -127, 127))
  }

  function Sum(s: seq<int>): int {
    if s == [] then 0 else s[0] + Sum(s[1..])
  }

  lemma {:induction false} WheelStepsAddUp(wheel: int)
    ensures Sum(WheelSteps(wheel)) == wheel
    ensures forall step :: step in WheelSteps(wheel) ==> -127 <= step <= 127 && step != 0
    decreases if wheel < 0 then -wheel else wheel
  {
    if wheel != 0 {
      WheelStepsAddUp(wheel - Clamp(wheel, -127, 127));
      assert WheelSteps(wheel)[1..] == WheelSteps(wheel - Clamp(wheel, -127, 127));
    }
  }

  function WheelPosts(r: Report, wheel: int): seq<Post> {
    seq(|WheelSteps(wheel)|, i requires 0 <= i < |WheelSteps(wheel)| => Wheel(r.generation, r.buttons, WheelSteps(wheel)[i]))
  }

  /** The absolute position first, then the wheel. */
  function Posts(r: Report): (p: seq<Post>)
    ensures p != []
  {
    [Absolute(r.generation, r.buttons, r.x, r.y)] + WheelPosts(r, r.wheel)
  }

  // ---- critical sections ----

  function NextReport(s: Shared, x: nat, y: nat, buttons: nat, wheel: int): Report {
    Report(buttons, x, y, wheel, s.generation + 1)
  }

  predicate IsUrgent(s: Shared, buttons: nat, wheel: int) {
    buttons != s.buttons || wheel != 0
  }

  function Issue(s: Shared, buttons: nat, x: nat, y: nat, wheel: int): Shared {
    var s' := s.(buttons := buttons, x := x, y := y, generation := s.generation + 1);
    if IsUrgent(s, buttons, wheel)
    then s'.(pending := false, urgent := s.urgent + [NextReport(s, x, y, buttons, wheel)])
    else s'.(pending := true)
  }

  predicate CanTake(s: Shared, nextFlush: nat, now: nat) {
    !s.stopping && (s.urgent != [] || (s.pending && now >= nextFlush))
  }

  function Taken(s: Shared): Report {
    if s.urgent != [] then s.urgent[0] else Report(s.buttons, s.x, s.y, 0, s.generation)
  }

  function AfterTake(s: Shared): Shared {
    if s.urgent != [] then s.(urgent := s.urgent[1..]) else s.(pending := false)
  }

  /** The least point of the interval grid through nextFlush that lies after now. */
  function NextTick(nextFlush: nat, now: nat): nat
    decreases now - nextFlush
  {
    if nextFlush + FLUSH_INTERVAL <= now then NextTick(nextFlush + FLUSH_INTERVAL, now)
    else nextFlush + FLUSH_INTERVAL
  }

  /** Missed ticks are skipped: still on the grid, after now, and no tick after now is passed over. */
  lemma {:induction false} NextTickIsLeast(nextFlush: nat, now: nat)
    requires nextFlush <= now
    ensures var t := NextTick(nextFlush, now);
            t % FLUSH_INTERVAL == nextFlush % FLUSH_INTERVAL && now < t <= now + FLUSH_INTERVAL
    decreases now - nextFlush
  {
    if nextFlush + FLUSH_INTERVAL <= now { NextTickIsLeast(nextFlush + FLUSH_INTERVAL, now); }
  }

  predicate Flushed(s: Shared, generation: nat) {
    s.stopping || s.completed >= generation
  }

  class InputState {
    var stopping: bool
    var pending: bool
    var buttons: nat
    var x: nat
    var y: nat
    var urgent: seq<Report>
    var generation: nat
    var completed: nat
    var width: nat
    var height: nat

    function View(): Shared
      reads this
    {
      Shared(stopping, pending, buttons, x, y, urgent, generation, completed)
    }

    predicate Valid()
      reads this
    {
      1 <= width < 0x1_0000 && 1 <= height < 0x1_0000
    }

    constructor ()
      ensures View() == INIT && Valid()
    {
      stopping, pending, buttons, x, y, urgent, generation, completed := false, false, 0, 0, 0, [], 0, 0;
      width, height := 1, 1;
    }

    method Resize(w: nat, h: nat)
      requires w < 0x1_0000 && h < 0x1_0000
      modifies `width, `height
      ensures Valid() && View() == old(View()) && width == Max(w, 1) && height == Max(h, 1)
    {
      width, height := Max(w, 1), Max(h, 1);
    }

    /** `Pointer`, behind the translation of the button mask. */
    method Pointer(newButtons: nat, px: int, py: int, wheel: int)
      requires Valid()
      modifies this
      ensures Valid() && width == old(width) && height == old(height)
      ensures View() == Issue(old(View()), newButtons, ScaleAxis(px, width), ScaleAxis(py, height), wheel)
    {
      var absoluteX := if width > 1 then Clamp(px, 0, width - 1) * 32767 / (width - 1) else 0;
      var absoluteY := if height > 1 then Clamp(py, 0, height - 1) * 32767 / (height - 1) else 0;
      var buttonChanged := newButtons != buttons;
      buttons := newButtons;
      x := absoluteX;
      y := absoluteY;
      generation := generation + 1;
      if buttonChanged || wheel != 0 {
        pending := false;
        urgent := urgent + [Report(newButtons, absoluteX, absoluteY, wheel, generation)];
      } else {
        pending := true;
      }
    }

    /** One locked round of `PointerLoop`: nothing, the oldest urgent report, or the coalesced motion with
        the deadline moved on. */
    method TakeReport(nextFlush: nat, now: nat) returns (report: Option<Report>, deadline: nat)
      modifies `urgent, `pending
      ensures if CanTake(old(View()), nextFlush, now)
              then report == Some(Taken(old(View()))) && View() == AfterTake(old(View()))
              else report == None && View() == old(View())
      ensures deadline == if report.Some? && old(urgent) == [] then NextTick(nextFlush, now) else nextFlush
    {
      deadline := nextFlush;
      if stopping || (urgent == [] && !pending) || (urgent == [] && now < nextFlush) {
        return None, deadline;
      }
      if urgent != [] {
        report := Some(urgent[0]);
        urgent := urgent[1..];
      } else {
        report := Some(Report(buttons, x, y, 0, generation));
        pending := false;
        deadline := deadline + FLUSH_INTERVAL;
        while deadline <= now
          invariant nextFlush + FLUSH_INTERVAL <= deadline
          invariant NextTick(nextFlush, now) == NextTick(deadline - FLUSH_INTERVAL, now)
          decreases now - deadline
        {
          deadline := deadline + FLUSH_INTERVAL;
        }
      }
    }

    method Complete(report: Report)
      modifies `completed
      ensures View() == old(View()).(completed := Max(old(completed), report.generation))
    {
      completed := Max(completed, report.generation);
    }

    /** The critical section of `Release`. */
    method ReleaseButtons() returns (released: bool)
      modifies this
      ensures released <==> old(buttons) != 0
      ensures View() == if released then Issue(old(View()), 0, old(x), old(y), 0) else old(View())
      ensures buttons == 0 && width == old(width) && height == old(height)
    {
      released := buttons != 0;
      if released {
        buttons := 0;
        generation := generation + 1;
        pending := false;
        urgent := urgent + [Report(0, x, y, 0, generation)];
      }
    }
  }

  /** `SendPointer`: the posts of one report, in order. */
  method SendPointer(r: Report) returns (posts: seq<Post>)
    ensures posts == Posts(r)
  {
    posts := [Absolute(r.generation, r.buttons, r.x, r.y)];
    var wheel := r.wheel;
    while wheel != 0
      invariant posts + WheelPosts(r, wheel) == Posts(r)
      decreases if wheel < 0 then -wheel else wheel
    {
      var step := Clamp(wheel, -127, 127);
      assert WheelPosts(r, wheel) == [Wheel(r.generation, r.buttons, step)] + WheelPosts(r, wheel - step);
      posts := posts + [Wheel(r.generation, r.buttons, step)];
      wheel := wheel - step;
    }
  }
}
