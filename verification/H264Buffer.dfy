/** The bounded H.264 replay buffer of the Go sink, its consumer counters and the per-client cursors. */
module H264Buffer {
  import opened Base
  import NalScanner

  const MAX_FRAMES := 240
  const MAX_BYTES := 0x80_0000
  const MAX_BOOTSTRAP := 4

  type Payload = seq<byte>

  datatype Encoding = NoEncoding | Raw | Jpeg | H264

  datatype Frame = Frame(number: nat, payload: Payload, keyframe: bool)

  /** The state behind the sink's lock, as a value. */
  datatype Buffer = Buffer(frames: seq<Frame>, bytes: nat, last: nat, ready: bool, bootstrap: seq<Payload>)

  datatype Kind = HeldBack | Keyframe | Delta

  /** How WriteVideo classifies an access unit: a reported IDR slice makes a keyframe; without one, a unit
      with a parameter set is held back whole, whatever else it carries; everything else is a delta. */
  function KindOf(p: Payload): Kind {
    var types := NalScanner.NalTypes(p);
    if 5 in types then Keyframe else if 7 in types || 8 in types then HeldBack else Delta
  }

  /** How an access unit in proper NAL units is classified: as a keyframe if it holds an IDR slice (type 5),
      otherwise as held back if it holds a parameter set (type 7 or 8). */
  lemma KindOfUnits(units: seq<NalScanner.Unit>)
    requires NalScanner.AllProper(units)
    ensures var kind := KindOf(NalScanner.Written(units));
            && (kind == Keyframe <==> exists u :: u in units && u.kind == 5)
            && (kind == HeldBack <==> (exists u :: u in units && (u.kind == 7 || u.kind == 8)) && !exists u :: u in units && u.kind == 5)
  {
    NalScanner.UnitsAreReported(units);
    var types := NalScanner.NalTypes(NalScanner.Written(units));
    assert forall i :: 0 <= i < |units| ==> units[i] in units && types[i] in types;
  }

  /** The access unit carries a slice (NAL types 1 to 5), whether or not the scanner reports it. */
  predicate Picture(p: Payload) {
    var types := NalScanner.AllTypes(p);
    1 in types || 2 in types || 3 in types || 4 in types || 5 in types
  }

  /** The units that never become a frame of their own: refused for their size, or held back. */
  predicate Lost(p: Payload) {
    |p| > MAX_BYTES || KindOf(p) == HeldBack
  }

  function TotalBytes(frames: seq<Frame>): nat {
    if frames == [] then 0 else TotalBytes(frames[..|frames| - 1]) + |frames[|frames| - 1].payload|
  }

  function Reset(b: Buffer): Buffer {
    Buffer([], 0, b.last, false, [])
  }

  function Append(b: Buffer, payload: Payload, keyframe: bool): Buffer {
    var grown := b.(last := b.last + 1, frames := b.frames + [Frame(b.last + 1, payload, keyframe)],
                    bytes := b.bytes + |payload|);
    if |grown.frames| > MAX_FRAMES || grown.bytes > MAX_BYTES then Reset(grown) else grown
  }

  /** The bootstrap loop appends in order; a reset in the middle does not stop it. */
  function AppendAll(b: Buffer, payloads: seq<Payload>): Buffer {
    if payloads == [] then b
    else Append(AppendAll(b, payloads[..|payloads| - 1]), payloads[|payloads| - 1], true)
  }

  function KeepLast<T>(s: seq<T>, n: nat): seq<T> {
    if |s| > n then s[|s| - n..] else s
  }

  /** What the locked part of WriteVideo makes of one access unit. */
  function Commit(b: Buffer, p: Payload, kind: Kind): Buffer {
    match kind
    case HeldBack => b.(bootstrap := KeepLast(b.bootstrap + [p], MAX_BOOTSTRAP))
    case Keyframe => Append(Restart(b), p, true)
    case Delta => if b.ready then Append(b, p, false) else b
  }

  /** A keyframe drops what is buffered and replays the parameter sets held back. */
  function Restart(b: Buffer): Buffer {
    AppendAll(b.(frames := [], bytes := 0), b.bootstrap).(bootstrap := [], ready := true)
  }

  /** The first buffered frame behind a cursor. */
  function NextFrame(frames: seq<Frame>, cursor: nat): Option<Frame> {
    if frames == [] then None
    else if frames[0].number > cursor then Some(frames[0])
    else NextFrame(frames[1..], cursor)
  }

  /** The bounds and the bookkeeping every locked operation keeps. */
  ghost predicate Bounded(b: Buffer) {
    && |b.frames| <= MAX_FRAMES
    && b.bytes == TotalBytes(b.frames) <= MAX_BYTES
    && |b.bootstrap| <= MAX_BOOTSTRAP
    && (b.frames != [] ==> b.frames[0].keyframe)
  }

  ghost predicate WellFormed(b: Buffer) {
    Bounded(b) && (b.ready <==> b.frames != [])
  }

  lemma AppendBounded(b: Buffer, p: Payload, keyframe: bool)
    requires Bounded(b) && (b.frames == [] ==> keyframe)
    ensures Bounded(Append(b, p, keyframe))
    ensures Append(b, p, keyframe).frames == [] ==> !Append(b, p, keyframe).ready
  {
    var frames := b.frames + [Frame(b.last + 1, p, keyframe)];
    assert frames[..|frames| - 1] == b.frames;
  }

  lemma {:induction false} AppendAllBounded(b: Buffer, ps: seq<Payload>)
    requires Bounded(b) && b.frames == []
    ensures Bounded(AppendAll(b, ps))
    decreases |ps|
  {
    if ps != [] {
      AppendAllBounded(b, ps[..|ps| - 1]);
      AppendBounded(AppendAll(b, ps[..|ps| - 1]), ps[|ps| - 1], true);
    }
  }

  /** The invariant of the buffer: at most 240 frames and 8 MiB, exact byte count, keyframe first, ready
      exactly when something is buffered. */
  lemma CommitWellFormed(b: Buffer, p: Payload, kind: Kind)
    requires WellFormed(b)
    ensures WellFormed(Commit(b, p, kind))
  {
    match kind
    case HeldBack =>
    case Keyframe =>
      AppendAllBounded(b.(frames := [], bytes := 0), b.bootstrap);
      AppendBounded(Restart(b), p, true);
    case Delta =>
      if b.ready { AppendBounded(b, p, false); }
  }

  function Replay(payloads: seq<Payload>, last: nat): (r: seq<Frame>)
    ensures |r| == |payloads|
  {
    seq(|payloads|, i requires 0 <= i < |payloads| => Frame(last + i + 1, payloads[i], true))
  }

  function Size(payloads: seq<Payload>): nat {
    if payloads == [] then 0 else Size(payloads[..|payloads| - 1]) + |payloads[|payloads| - 1]|
  }

  lemma {:induction false} AppendAllFits(b: Buffer, ps: seq<Payload>)
    requires b.frames == [] && b.bytes == 0 && |ps| <= MAX_FRAMES && Size(ps) <= MAX_BYTES
    ensures AppendAll(b, ps) == b.(frames := Replay(ps, b.last), bytes := Size(ps), last := b.last + |ps|)
    decreases |ps|
  {
    if ps == [] {
      assert Replay(ps, b.last) == [];
    } else {
      var front, p := ps[..|ps| - 1], ps[|ps| - 1];
      AppendAllFits(b, front);
      assert Replay(ps, b.last) == Replay(front, b.last) + [Frame(b.last + |ps|, p, true)];
    }
  }

  /** A keyframe comes with the held-back units in front of it, in order and all flagged as keyframes, and
      nothing else stays buffered, if and only if all of them together fit the limit. */
  lemma KeyframeCommit(b: Buffer, p: Payload)
    requires |b.bootstrap| <= MAX_BOOTSTRAP
    ensures Commit(b, p, Keyframe).frames == Replay(b.bootstrap + [p], b.last) <==> Size(b.bootstrap + [p]) <= 8 * 1024 * 1024
    ensures Commit(b, p, Keyframe).bootstrap == []
  {
    var all := b.bootstrap + [p];
    var empty := b.(frames := [], bytes := 0);
    assert all[..|all| - 1] == b.bootstrap;
    if Size(all) <= MAX_BYTES {
      AppendAllFits(empty, b.bootstrap);
      assert Replay(all, b.last) == Replay(b.bootstrap, b.last) + [Frame(b.last + |all|, p, true)];
    } else {
      AppendAllBounded(empty, b.bootstrap);
      AppendBounded(Restart(b), p, true);
      ReplayBytes(all, b.last);
    }
  }

  lemma {:induction false} ReplayBytes(ps: seq<Payload>, last: nat)
    ensures TotalBytes(Replay(ps, last)) == Size(ps)
    decreases |ps|
  {
    if ps != [] {
      var front := ps[..|ps| - 1];
      ReplayBytes(front, last);
      assert Replay(ps, last)[..|ps| - 1] == Replay(front, last);
    }
  }

  /** The sink itself: the fields that the Go methods update under its lock. */
  class Sink {
    var h264Frames: seq<Frame>
    var h264Bytes: nat
    var h264Seq: nat
    var h264Ready: bool
    var h264Bootstrap: seq<Payload>
    var rawConsumers: int
    var jpegConsumers: int
    var h264Consumers: int

    function View(): Buffer
      reads this
    {
      Buffer(h264Frames, h264Bytes, h264Seq, h264Ready, h264Bootstrap)
    }

    function Consumers(e: Encoding): int
      reads this
    {
      match e
      case NoEncoding => 0
      case Raw => rawConsumers
      case Jpeg => jpegConsumers
      case H264 => h264Consumers
    }

    constructor ()
      ensures View() == Buffer([], 0, 0, false, []) && WellFormed(View())
      ensures forall e :: Consumers(e) == 0
    {
      h264Frames, h264Bytes, h264Seq, h264Ready, h264Bootstrap := [], 0, 0, false, [];
      rawConsumers, jpegConsumers, h264Consumers := 0, 0, 0;
    }

    method ResetH264BufferLocked()
      modifies `h264Frames, `h264Bytes, `h264Ready, `h264Bootstrap
      ensures View() == Reset(old(View()))
    {
      h264Frames, h264Bytes, h264Ready, h264Bootstrap := [], 0, false, [];
    }

    method AppendH264FrameLocked(payload: Payload, keyframe: bool)
      modifies `h264Frames, `h264Bytes, `h264Seq, `h264Ready, `h264Bootstrap
      ensures View() == Append(old(View()), payload, keyframe)
    {
      h264Seq := h264Seq + 1;
      h264Frames := h264Frames + [Frame(h264Seq, payload, keyframe)];
      h264Bytes := h264Bytes + |payload|;
      if |h264Frames| > MAX_FRAMES || h264Bytes > MAX_BYTES {
        ResetH264BufferLocked();
      }
    }

    method AppendBootstraps(bootstraps: seq<Payload>)
      modifies `h264Frames, `h264Bytes, `h264Seq, `h264Ready, `h264Bootstrap
      ensures View() == AppendAll(old(View()), bootstraps)
    {
      for i := 0 to |bootstraps|
        invariant View() == AppendAll(old(View()), bootstraps[..i])
      {
        assert bootstraps[..i + 1][..i] == bootstraps[..i];
        AppendH264FrameLocked(bootstraps[i], true);
      }
      assert bootstraps[..|bootstraps|] == bootstraps;
    }

    /** The locked half of `WriteVideo`; the unlocked half is Offer in the machine below. */
    method WriteVideoLocked(payload: Payload)
      requires WellFormed(View())
      modifies `h264Frames, `h264Bytes, `h264Seq, `h264Ready, `h264Bootstrap
      ensures View() == Commit(old(View()), payload, KindOf(payload)) && WellFormed(View())
    {
      CommitWellFormed(View(), payload, KindOf(payload));
      var nalTypes := NalScanner.H264NALTypes(payload);
      var keyframe := 5 in nalTypes;
      var parameterSet := 7 in nalTypes || 8 in nalTypes;
      if parameterSet && !keyframe {
        h264Bootstrap := h264Bootstrap + [payload];
        if |h264Bootstrap| > MAX_BOOTSTRAP {
          h264Bootstrap := h264Bootstrap[|h264Bootstrap| - MAX_BOOTSTRAP..];
        }
        return;
      }
      if keyframe {
        h264Frames, h264Bytes := [], 0;
        AppendBootstraps(h264Bootstrap);
        h264Bootstrap := [];
        h264Ready := true;
      }
      if !h264Ready {
        return;
      }
      AppendH264FrameLocked(payload, keyframe);
    }

    method IncrementEncodingLocked(encoding: Encoding)
      modifies this
      ensures forall e :: Consumers(e) == old(Consumers(e)) + (if e == encoding && e != NoEncoding then 1 else 0)
      ensures View() == if encoding == H264 && old(h264Consumers) == 0 then Reset(old(View())) else old(View())
    {
      match encoding
      case Raw => rawConsumers := rawConsumers + 1;
      case Jpeg => jpegConsumers := jpegConsumers + 1;
      case H264 =>
        if h264Consumers == 0 {
          ResetH264BufferLocked();
        }
        h264Consumers := h264Consumers + 1;
      case NoEncoding =>
    }

    method DecrementEncodingLocked(encoding: Encoding)
      modifies this
      ensures forall e :: Consumers(e) == old(Consumers(e)) - (if e == encoding && e != NoEncoding then 1 else 0)
      ensures View() == if encoding == H264 && old(h264Consumers) == 1 then Reset(old(View())) else old(View())
    {
      match encoding
      case Raw => rawConsumers := rawConsumers - 1;
      case Jpeg => jpegConsumers := jpegConsumers - 1;
      case H264 =>
        h264Consumers := h264Consumers - 1;
        if h264Consumers == 0 {
          ResetH264BufferLocked();
        }
      case NoEncoding =>
    }

    /** `switchClientEncoding`; encoderReady is whether a JPEG encoder exists or could be created. */
    method SwitchClientEncoding(from: Encoding, to: Encoding, encoderReady: bool) returns (ok: bool)
      modifies this
      ensures ok == (from == to || to != Jpeg || encoderReady)
      ensures View() == (if ok then Switched(old(View()), old(h264Consumers), from, to) else old(View()))
      ensures forall e :: Consumers(e) == old(Consumers(e)) + (if ok && e != NoEncoding then Change(e, from, to) else 0)
    {
      if from == to {
        return true;
      }
      if to == Jpeg && !encoderReady {
        return false;
      }
      DecrementEncodingLocked(from);
      assert h264Consumers == Consumers(H264);
      IncrementEncodingLocked(to);
      return true;
    }

    /** The lookup of `writeH264Framebuffer`. */
    method SelectFrame(cursor: nat) returns (frame: Option<Frame>)
      ensures frame == NextFrame(h264Frames, cursor)
    {
      frame := None;
      for i := 0 to |h264Frames|
        invariant NextFrame(h264Frames, cursor) == NextFrame(h264Frames[i..], cursor)
      {
        var candidate := h264Frames[i];
        assert h264Frames[i..][1..] == h264Frames[i + 1..];
        if candidate.number > cursor {
          return Some(candidate);
        }
      }
    }
  }

  function Change(e: Encoding, from: Encoding, to: Encoding): int {
    (if e == to then 1 else 0) - (if e == from then 1 else 0)
  }

  /** Both counter transitions of a switch: leaving as the last viewer and joining as the first one
      each empty the buffer. */
  function Switched(b: Buffer, consumers: int, from: Encoding, to: Encoding): Buffer {
    if from == to then b
    else if (from == H264 && consumers == 1) || (to == H264 && consumers == 0) then Reset(b)
    else b
  }
}
