/** Runs of the H.264 path: one writer whose check and commit are separate critical sections, viewers that
    come, switch encodings, fetch frames at their own pace and leave. */
module H264Viewers {
  import opened Base
  import opened H264Buffer
  import NalScanner

  /** History of one buffered frame number; origin is the offered access unit it carries, None for a
      replayed unit that had been held back. */
  datatype Entry = Entry(payload: Payload, keyframe: bool, origin: Option<nat>)

  datatype Viewer = Viewer(encoding: Encoding, cursor: nat, delivered: seq<nat>)

  datatype Machine = Machine(
    buffer: Buffer, h264Consumers: int, consumers: map<Encoding, int>,
    offered: seq<Payload>, inflight: bool, log: seq<Entry>, viewers: map<nat, Viewer>)

  datatype Event =
    | Connect(id: nat)
    | Switch(id: nat, to: Encoding, encoderReady: bool)
    | Leave(id: nat)
    | Offer(unit: Payload)
    | CommitOffered
    | Deliver(id: nat)

  const INIT := Machine(Buffer([], 0, 0, false, []), 0, map[Raw := 0, Jpeg := 0, H264 := 0], [], false, [], map[])

  predicate Enabled(m: Machine, ev: Event) {
    match ev
    case Connect(id) => id !in m.viewers
    case Switch(id, to, _) => id in m.viewers && to != NoEncoding
    case Leave(id) => id in m.viewers
    case Offer(_) => !m.inflight
    case CommitOffered => m.inflight && m.offered != []
    case Deliver(id) => id in m.viewers && m.viewers[id].encoding == H264
  }

  function Recount(m: Machine, from: Encoding, to: Encoding): Machine {
    m.(buffer := Switched(m.buffer, m.h264Consumers, from, to),
       h264Consumers := m.h264Consumers + Change(H264, from, to),
       consumers := map e | e in m.consumers :: m.consumers[e] + Change(e, from, to))
  }

  function Replayed(payloads: seq<Payload>): seq<Entry> {
    seq(|payloads|, i requires 0 <= i < |payloads| => Entry(payloads[i], true, None))
  }

  /** The frame numbers one commit hands out. */
  function NewEntries(b: Buffer, u: Payload, origin: nat): seq<Entry> {
    match KindOf(u)
    case HeldBack => []
    case Keyframe => Replayed(b.bootstrap) + [Entry(u, true, Some(origin))]
    case Delta => if b.ready then [Entry(u, false, Some(origin))] else []
  }

  function Step(m: Machine, ev: Event): Machine
    requires Enabled(m, ev)
  {
    match ev
    case Connect(id) =>
      Recount(m, NoEncoding, Raw).(viewers := m.viewers[id := Viewer(Raw, 0, [])])
    case Switch(id, to, encoderReady) =>
      var from := m.viewers[id].encoding;
      if from == to || (to == Jpeg && !encoderReady) then m
      else Recount(m, from, to).(viewers := m.viewers[id := Viewer(to, 0, [])])
    case Leave(id) =>
      Recount(m, m.viewers[id].encoding, NoEncoding).(viewers := m.viewers - {id})
    case Offer(u) =>
      m.(offered := m.offered + [u], inflight := u != [] && |u| <= MAX_BYTES && m.h264Consumers > 0)
    case CommitOffered =>
      var u, origin := m.offered[|m.offered| - 1], |m.offered| - 1;
      m.(buffer := Commit(m.buffer, u, KindOf(u)), log := m.log + NewEntries(m.buffer, u, origin),
         inflight := false)
    case Deliver(id) =>
      var v := m.viewers[id];
      match NextFrame(m.buffer.frames, v.cursor)
      case None => m
      case Some(f) => m.(viewers := m.viewers[id := v.(cursor := f.number, delivered := v.delivered + [f.number])])
  }

  // ---- what is to hold in every reachable state ----

  /** The buffered frames are the latest history entries, numbered without a gap. */
  ghost predicate Tracks(b: Buffer, log: seq<Entry>) {
    && |log| == b.last && |b.frames| <= |log|
    && forall i :: 0 <= i < |b.frames| ==>
         b.frames[i] == Frame(|log| - |b.frames| + i + 1, log[|log| - |b.frames| + i].payload,
                              log[|log| - |b.frames| + i].keyframe)
  }

  /** An offered unit no viewer can get as a frame of its own. */
  predicate Skipped(u: Payload) {
    u == [] || Lost(u)
  }

  /** A frame carries the very unit that was offered, flagged by its kind; only held-back units are
      replayed, and they are flagged as keyframes. */
  ghost predicate EntryOk(e: Entry, offered: seq<Payload>) {
    match e.origin
    case None => e.keyframe && KindOf(e.payload) == HeldBack
    case Some(k) =>
      && k < |offered| && offered[k] == e.payload && !Skipped(e.payload)
      && KindOf(e.payload) == if e.keyframe then Keyframe else Delta
  }

  ghost predicate HistoryOk(log: seq<Entry>, offered: seq<Payload>) {
    forall a :: 0 <= a < |log| ==> EntryOk(log[a], offered)
  }

  ghost predicate BootstrapOk(bootstrap: seq<Payload>) {
    forall p :: p in bootstrap ==> KindOf(p) == HeldBack
  }

  ghost predicate OnlySkipped(offered: seq<Payload>, from: int, to: int) {
    forall k :: from < k < to && 0 <= k < |offered| ==> Skipped(offered[k])
  }

  /** Frame a + 1 carries the next frame-bearing access unit after the one of frame a. */
  ghost predicate Adjacent(log: seq<Entry>, offered: seq<Payload>, a: nat) {
    && 0 < a < |log| && log[a - 1].origin.Some? && log[a].origin.Some?
    && log[a - 1].origin.value < log[a].origin.value < |offered|
    && OnlySkipped(offered, log[a - 1].origin.value, log[a].origin.value)
  }

  ghost predicate Continues(log: seq<Entry>, offered: seq<Payload>, a: nat) {
    0 < a < |log| && (log[a].keyframe || Adjacent(log, offered, a))
  }

  /** What a decoder needs from the frame numbers it was handed. */
  ghost predicate Decodable(log: seq<Entry>, offered: seq<Payload>, delivered: seq<nat>) {
    && (forall i :: 0 <= i < |delivered| ==> 0 < delivered[i] <= |log|)
    && (delivered != [] ==> log[delivered[0] - 1].keyframe)
    && forall i :: 0 < i < |delivered| ==> Follows(log, offered, delivered, i)
  }

  ghost predicate Follows(log: seq<Entry>, offered: seq<Payload>, delivered: seq<nat>, i: int) {
    && 0 < i < |delivered| && delivered[i - 1] < delivered[i] <= |log|
    && (log[delivered[i] - 1].keyframe
        || (delivered[i] == delivered[i - 1] + 1 && Adjacent(log, offered, delivered[i - 1])))
  }

  ghost predicate ViewerOk(log: seq<Entry>, offered: seq<Payload>, v: Viewer) {
    && Decodable(log, offered, v.delivered)
    && v.cursor == (if v.delivered == [] then 0 else v.delivered[|v.delivered| - 1])
  }

  /** The newest history entry is the last frame-bearing unit before the horizon. */
  ghost predicate TailOk(log: seq<Entry>, offered: seq<Payload>, horizon: int) {
    && log != [] && log[|log| - 1].origin.Some? && log[|log| - 1].origin.value < horizon <= |offered|
    && OnlySkipped(offered, log[|log| - 1].origin.value, horizon)
  }

  /** Every buffered frame but the first continues the one before it. */
  ghost predicate ChainOk(log: seq<Entry>, offered: seq<Payload>, buffered: nat) {
    forall a: nat :: |log| - buffered < a < |log| && 0 < a ==> Continues(log, offered, a)
  }

  ghost function Users(viewers: map<nat, Viewer>, e: Encoding): set<nat> {
    set id | id in viewers && viewers[id].encoding == e
  }

  ghost predicate CountsOk(consumers: map<Encoding, int>, viewers: map<nat, Viewer>) {
    && consumers.Keys == {Raw, Jpeg, H264}
    && (forall id :: id in viewers ==> viewers[id].encoding != NoEncoding)
    && forall e :: e in consumers ==> consumers[e] == |Users(viewers, e)|
  }

  ghost predicate ViewersOk(m: Machine) {
    forall id :: id in m.viewers ==> ViewerOk(m.log, m.offered, m.viewers[id])
  }

  function Latest(m: Machine): Payload
    requires m.offered != []
  {
    m.offered[|m.offered| - 1]
  }

  /** Offers up to here are settled: committed, refused or ignored. */
  function Horizon(m: Machine): int {
    if m.inflight then |m.offered| - 1 else |m.offered|
  }

  ghost predicate Inv(m: Machine) {
    && WellFormed(m.buffer) && Tracks(m.buffer, m.log)
    && CountsOk(m.consumers, m.viewers) && m.h264Consumers == m.consumers[H264]
    && (m.inflight ==> m.offered != [] && Latest(m) != [] && |Latest(m)| <= MAX_BYTES)
    && HistoryOk(m.log, m.offered) && BootstrapOk(m.buffer.bootstrap)
    && (m.buffer.ready && (m.h264Consumers > 0 || m.inflight) ==> TailOk(m.log, m.offered, Horizon(m)))
    && ChainOk(m.log, m.offered, |m.buffer.frames|)
    && ViewersOk(m)
  }

  // ---- frames and history ----

  lemma AppendTracks(b: Buffer, log: seq<Entry>, e: Entry)
    requires Tracks(b, log)
    ensures Tracks(Append(b, e.payload, e.keyframe), log + [e])
  {
  }

  lemma {:induction false} AppendAllTracks(b: Buffer, log: seq<Entry>, ps: seq<Payload>)
    requires Tracks(b, log)
    ensures Tracks(AppendAll(b, ps), log + Replayed(ps))
    decreases |ps|
  {
    if ps == [] {
      assert log + Replayed(ps) == log;
    } else {
      var front, last := ps[..|ps| - 1], ps[|ps| - 1];
      AppendAllTracks(b, log, front);
      AppendTracks(AppendAll(b, front), log + Replayed(front), Entry(last, true, None));
      assert log + Replayed(ps) == (log + Replayed(front)) + [Entry(last, true, None)];
    }
  }

  lemma CommitTracks(b: Buffer, log: seq<Entry>, u: Payload, origin: nat)
    requires Tracks(b, log)
    ensures Tracks(Commit(b, u, KindOf(u)), log + NewEntries(b, u, origin))
  {
    match KindOf(u)
    case HeldBack =>
      assert log + [] == log;
    case Keyframe =>
      AppendAllTracks(b.(frames := [], bytes := 0), log, b.bootstrap);
      AppendTracks(Restart(b), log + Replayed(b.bootstrap), Entry(u, true, Some(origin)));
      assert log + NewEntries(b, u, origin) == (log + Replayed(b.bootstrap)) + [Entry(u, true, Some(origin))];
    case Delta =>
      if b.ready {
        AppendTracks(b, log, Entry(u, false, Some(origin)));
      } else {
        assert log + [] == log;
      }
  }

  /** Everything said about history survives more history. */
  lemma HistoryGrows(log: seq<Entry>, offered: seq<Payload>, log': seq<Entry>, offered': seq<Payload>, a: nat)
    requires log <= log' && offered <= offered'
    ensures Continues(log, offered, a) ==> Continues(log', offered', a)
    ensures Adjacent(log, offered, a) ==> Adjacent(log', offered', a)
  {
  }

  lemma ViewerKeeps(log: seq<Entry>, offered: seq<Payload>, log': seq<Entry>, offered': seq<Payload>, v: Viewer)
    requires ViewerOk(log, offered, v) && log <= log' && offered <= offered'
    ensures ViewerOk(log', offered', v)
  {
    forall i | 0 < i < |v.delivered|
      ensures Follows(log', offered', v.delivered, i)
    {
      assert Follows(log, offered, v.delivered, i);
      HistoryGrows(log, offered, log', offered', v.delivered[i - 1]);
    }
  }

  lemma ViewersKeep(m: Machine, m': Machine)
    requires ViewersOk(m) && m.log <= m'.log && m.offered <= m'.offered && m'.viewers == m.viewers
    ensures ViewersOk(m')
  {
    forall id | id in m'.viewers
      ensures ViewerOk(m'.log, m'.offered, m'.viewers[id])
    {
      ViewerKeeps(m.log, m.offered, m'.log, m'.offered, m.viewers[id]);
    }
  }

  // ---- the writer ----

  lemma OfferKeeps(m: Machine, u: Payload)
    requires Inv(m) && Enabled(m, Offer(u))
    ensures Inv(Step(m, Offer(u)))
  {
    hide KindOf, ViewerOk, CountsOk, WellFormed;
    var m' := Step(m, Offer(u));
    ViewersKeep(m, m');
    EntriesKeep(m.log, m.offered, m'.offered);
    forall a: nat | |m.log| - |m.buffer.frames| < a < |m.log| && 0 < a
      ensures Continues(m'.log, m'.offered, a)
    {
      HistoryGrows(m.log, m.offered, m'.log, m'.offered, a);
    }
  }

  lemma EntriesKeep(log: seq<Entry>, offered: seq<Payload>, offered': seq<Payload>)
    requires HistoryOk(log, offered) && offered <= offered'
    ensures HistoryOk(log, offered')
  {
    hide KindOf, Skipped;
    forall a | 0 <= a < |log|
      ensures EntryOk(log[a], offered')
    {
      assert EntryOk(log[a], offered);
    }
  }

  /** A commit logs what was offered, replays what was held back, and holds back only what it must. */
  lemma CommitHistory(b: Buffer, log: seq<Entry>, offered: seq<Payload>, u: Payload)
    requires HistoryOk(log, offered) && BootstrapOk(b.bootstrap)
    requires offered != [] && offered[|offered| - 1] == u && u != [] && |u| <= MAX_BYTES
    ensures HistoryOk(log + NewEntries(b, u, |offered| - 1), offered)
    ensures BootstrapOk(Commit(b, u, KindOf(u)).bootstrap)
  {
    hide KindOf, AppendAll;
    var added := NewEntries(b, u, |offered| - 1);
    forall a | 0 <= a < |log + added|
      ensures EntryOk((log + added)[a], offered)
    {
      if a < |log| {
        assert EntryOk(log[a], offered);
      } else if KindOf(u) == Keyframe && a - |log| < |b.bootstrap| {
        assert b.bootstrap[a - |log|] in b.bootstrap;
      }
    }
    forall p | p in Commit(b, u, KindOf(u)).bootstrap
      ensures KindOf(p) == HeldBack
    {
      if KindOf(u) == HeldBack { assert p in b.bootstrap + [u]; }
    }
  }

  /** A delta behind a good tail is adjacent to it. */
  lemma DeltaAdjacent(log: seq<Entry>, offered: seq<Payload>, e: Entry)
    requires offered != [] && TailOk(log, offered, |offered| - 1) && e.origin == Some(|offered| - 1)
    ensures Adjacent(log + [e], offered, |log|) && TailOk(log + [e], offered, |offered|)
  {
  }

  /** Frames newer than everything in the old history are all replayed or real keyframes. */
  lemma RestartChain(b: Buffer, log: seq<Entry>, offered: seq<Payload>, u: Payload)
    requires Tracks(b, log) && offered != [] && KindOf(u) == Keyframe
    ensures var log' := log + NewEntries(b, u, |offered| - 1);
            && ChainOk(log', offered, |Commit(b, u, Keyframe).frames|)
            && TailOk(log', offered, |offered|)
  {
    KeyframeFramesAreNew(b, u);
  }

  lemma ExtendedChain(log: seq<Entry>, offered: seq<Payload>, e: Entry, buffered: nat)
    requires ChainOk(log, offered, buffered) && Adjacent(log + [e], offered, |log|)
    ensures ChainOk(log + [e], offered, buffered + 1)
  {
    forall a: nat | |log| - buffered < a < |log| + 1 && 0 < a
      ensures Continues(log + [e], offered, a)
    {
      if a < |log| {
        assert Continues(log, offered, a);
        HistoryGrows(log, offered, log + [e], offered, a);
      }
    }
  }

  lemma DeltaChain(b: Buffer, log: seq<Entry>, offered: seq<Payload>, u: Payload)
    requires offered != [] && KindOf(u) == Delta && b.ready && Tracks(b, log)
    requires ChainOk(log, offered, |b.frames|) && TailOk(log, offered, |offered| - 1)
    ensures var log' := log + NewEntries(b, u, |offered| - 1);
            && ChainOk(log', offered, |Commit(b, u, Delta).frames|)
            && TailOk(log', offered, |offered|)
  {
    var e := Entry(u, false, Some(|offered| - 1));
    DeltaAdjacent(log, offered, e);
    ExtendedChain(log, offered, e, |b.frames|);
  }

  lemma CommitChain(m: Machine)
    requires Inv(m) && m.inflight
    ensures var m' := Step(m, CommitOffered);
            && ChainOk(m'.log, m'.offered, |m'.buffer.frames|)
            && (m'.buffer.ready ==> TailOk(m'.log, m'.offered, |m'.offered|))
  {
    hide Tracks, ChainOk, TailOk, ViewersOk, CountsOk, AppendAll, Append;
    var u := Latest(m);
    if KindOf(u) == Keyframe {
      RestartChain(m.buffer, m.log, m.offered, u);
    } else if KindOf(u) == Delta && m.buffer.ready {
      DeltaChain(m.buffer, m.log, m.offered, u);
    } else {
      assert m.log + [] == m.log;
      TailExtends(m);
    }
  }

  lemma TailExtends(m: Machine)
    requires m.inflight && m.offered != []
    requires m.buffer.ready ==> TailOk(m.log, m.offered, |m.offered| - 1) && KindOf(Latest(m)) == HeldBack
    ensures m.buffer.ready ==> TailOk(m.log, m.offered, |m.offered|)
  {
  }

  /** Committing a keyframe leaves nothing from before it in the buffer. */
  lemma KeyframeFramesAreNew(b: Buffer, p: Payload)
    ensures |Commit(b, p, Keyframe).frames| <= Commit(b, p, Keyframe).last - b.last == |b.bootstrap| + 1
  {
    AppendAllGrowth(b.(frames := [], bytes := 0), b.bootstrap);
  }

  lemma {:induction false} AppendAllGrowth(b: Buffer, ps: seq<Payload>)
    ensures AppendAll(b, ps).last == b.last + |ps|
    ensures |AppendAll(b, ps).frames| <= |b.frames| + |ps|
    decreases |ps|
  {
    if ps != [] {
      AppendAllGrowth(b, ps[..|ps| - 1]);
    }
  }

  lemma CommitKeeps(m: Machine)
    requires Inv(m) && m.inflight
    ensures Inv(Step(m, CommitOffered))
  {
    hide Tracks, ChainOk, TailOk, ViewersOk, CountsOk, WellFormed, Commit, NewEntries, HistoryOk, BootstrapOk, KindOf;
    var u := Latest(m);
    CommitHistory(m.buffer, m.log, m.offered, u);
    CommitTracks(m.buffer, m.log, u, |m.offered| - 1);
    CommitWellFormed(m.buffer, u, KindOf(u));
    CommitChain(m);
    ViewersKeep(m, Step(m, CommitOffered));
  }

  // ---- the viewers ----

  /** The lookup finds the first buffered frame beyond the cursor. */
  lemma {:induction false} NextFrameIsFirst(frames: seq<Frame>, cursor: nat) returns (i: nat)
    ensures NextFrame(frames, cursor).None? ==> forall f :: f in frames ==> f.number <= cursor
    ensures NextFrame(frames, cursor).Some? ==> i < |frames| && NextFrame(frames, cursor).value == frames[i]
    ensures NextFrame(frames, cursor).Some? ==> frames[i].number > cursor
    ensures NextFrame(frames, cursor).Some? && 0 < i ==> frames[i - 1].number <= cursor
  {
    i := 0;
    if frames != [] && frames[0].number <= cursor {
      var j := NextFrameIsFirst(frames[1..], cursor);
      i := j + 1;
      assert forall f :: f in frames ==> f == frames[0] || f in frames[1..];
    }
  }

  /** Handing out the next frame keeps the viewer decodable. */
  lemma NextFrameContinues(b: Buffer, log: seq<Entry>, offered: seq<Payload>, v: Viewer)
    requires WellFormed(b) && Tracks(b, log) && ChainOk(log, offered, |b.frames|)
    requires ViewerOk(log, offered, v) && NextFrame(b.frames, v.cursor).Some?
    ensures var f := NextFrame(b.frames, v.cursor).value;
            ViewerOk(log, offered, v.(cursor := f.number, delivered := v.delivered + [f.number]))
  {
    var i := NextFrameIsFirst(b.frames, v.cursor);
    var f := b.frames[i];
    assert f.number == |log| - |b.frames| + i + 1;
    if 0 < i {
      assert b.frames[i - 1].number == f.number - 1 == v.cursor;
      assert Continues(log, offered, v.cursor);
    }
    var delivered := v.delivered + [f.number];
    forall j | 0 < j < |delivered|
      ensures Follows(log, offered, delivered, j)
    {
      if j < |v.delivered| { assert Follows(log, offered, v.delivered, j); }
    }
  }

  lemma DeliverKeeps(m: Machine, id: nat)
    requires Inv(m) && Enabled(m, Deliver(id))
    ensures Inv(Step(m, Deliver(id)))
  {
    hide Tracks, ChainOk, TailOk, WellFormed, ViewerOk, NextFrame;
    var v := m.viewers[id];
    assert ViewerOk(m.log, m.offered, v);
    if NextFrame(m.buffer.frames, v.cursor).Some? {
      NextFrameContinues(m.buffer, m.log, m.offered, v);
      var f := NextFrame(m.buffer.frames, v.cursor).value;
      var v' := v.(cursor := f.number, delivered := v.delivered + [f.number]);
      CountsSame(m.consumers, m.viewers, id, v');
    }
  }

  lemma CountsSame(consumers: map<Encoding, int>, viewers: map<nat, Viewer>, id: nat, v: Viewer)
    requires CountsOk(consumers, viewers) && id in viewers && viewers[id].encoding == v.encoding
    ensures CountsOk(consumers, viewers[id := v])
  {
    UsersSame(viewers, id, v);
  }

  lemma UsersSame(viewers: map<nat, Viewer>, id: nat, v: Viewer)
    requires id in viewers && viewers[id].encoding == v.encoding
    ensures forall e :: Users(viewers[id := v], e) == Users(viewers, e)
  {
    forall e ensures Users(viewers[id := v], e) == Users(viewers, e) {}
  }

  /** The users apart from one viewer, who is counted by his own encoding. */
  lemma UsersSplit(viewers: map<nat, Viewer>, id: nat, e: Encoding)
    ensures Users(viewers, e) ==
            Users(viewers - {id}, e) + (if id in viewers && viewers[id].encoding == e then {id} else {})
    ensures id !in Users(viewers - {id}, e)
  {
  }

  lemma UsersCount(viewers: map<nat, Viewer>, id: nat, e: Encoding)
    ensures |Users(viewers, e)| ==
            |Users(viewers - {id}, e)| + (if id in viewers && viewers[id].encoding == e then 1 else 0)
  {
    UsersSplit(viewers, id, e);
  }

  /** The viewers after a join or switch (to some encoding) or a departure (to none). */
  function Moved(viewers: map<nat, Viewer>, id: nat, to: Encoding): map<nat, Viewer> {
    if to == NoEncoding then viewers - {id} else viewers[id := Viewer(to, 0, [])]
  }

  function EncodingOf(viewers: map<nat, Viewer>, id: nat): Encoding {
    if id in viewers then viewers[id].encoding else NoEncoding
  }

  lemma UsersChange(viewers: map<nat, Viewer>, id: nat, to: Encoding, e: Encoding)
    requires e != NoEncoding
    ensures |Users(Moved(viewers, id, to), e)| == |Users(viewers, e)| + Change(e, EncodingOf(viewers, id), to)
  {
    UsersCount(viewers, id, e);
    UsersCount(Moved(viewers, id, to), id, e);
    assert Moved(viewers, id, to) - {id} == viewers - {id};
  }

  lemma RecountOk(m: Machine, id: nat, to: Encoding)
    requires CountsOk(m.consumers, m.viewers)
    ensures CountsOk(Recount(m, EncodingOf(m.viewers, id), to).consumers, Moved(m.viewers, id, to))
  {
    forall e | e in {Raw, Jpeg, H264} {
      UsersChange(m.viewers, id, to, e);
    }
  }

  lemma FreshViewerOk(log: seq<Entry>, offered: seq<Payload>, e: Encoding)
    ensures ViewerOk(log, offered, Viewer(e, 0, []))
  {
  }

  /** Joining, switching and leaving: the counters follow, and whenever the H.264 users appear or vanish
      the buffer is emptied. */
  lemma RecountKeeps(m: Machine, id: nat, to: Encoding)
    requires Inv(m) && EncodingOf(m.viewers, id) != to
    ensures Inv(Recount(m, EncodingOf(m.viewers, id), to).(viewers := Moved(m.viewers, id, to)))
  {
    hide ViewerOk;
    RecountOk(m, id, to);
    assert m.h264Consumers == |Users(m.viewers, H264)|;
    forall other | other in Moved(m.viewers, id, to)
      ensures ViewerOk(m.log, m.offered, Moved(m.viewers, id, to)[other])
    {
      if other != id {
        assert ViewerOk(m.log, m.offered, m.viewers[other]);
      } else {
        FreshViewerOk(m.log, m.offered, to);
      }
    }
  }

  lemma ViewerEventKeeps(m: Machine, ev: Event)
    requires Inv(m) && Enabled(m, ev) && (ev.Connect? || ev.Switch? || ev.Leave?)
    ensures Inv(Step(m, ev))
  {
    var to := if ev.Connect? then Raw else if ev.Switch? then ev.to else NoEncoding;
    if EncodingOf(m.viewers, ev.id) != to {
      RecountKeeps(m, ev.id, to);
    }
  }

  // ---- runs ----

  lemma StepKeeps(m: Machine, ev: Event)
    requires Inv(m) && Enabled(m, ev)
    ensures Inv(Step(m, ev))
  {
    match ev
    case Offer(u) => OfferKeeps(m, u);
    case CommitOffered => CommitKeeps(m);
    case Deliver(id) => DeliverKeeps(m, id);
    case _ => ViewerEventKeeps(m, ev);
  }

  ghost predicate IsRun(run: seq<Machine>, events: seq<Event>) {
    && |run| == |events| + 1 && run[0] == INIT
    && forall i :: 0 <= i < |events| ==> Enabled(run[i], events[i]) && run[i + 1] == Step(run[i], events[i])
  }

  lemma {:induction false} Reachable(run: seq<Machine>, events: seq<Event>, n: nat)
    requires IsRun(run, events) && n < |run|
    ensures Inv(run[n])
  {
    if n == 0 {
      assert forall e :: Users(map[], e) == {};
    } else {
      Reachable(run, events, n - 1);
      StepKeeps(run[n - 1], events[n - 1]);
    }
  }

  /** Frame numbers a and a + 1 carry offered units with a picture between them that no frame carries. */
  ghost predicate SkipsPicture(log: seq<Entry>, offered: seq<Payload>, a: nat) {
    && 0 < a < |log| && log[a - 1].origin.Some? && log[a].origin.Some?
    && exists k :: log[a - 1].origin.value < k < log[a].origin.value && k < |offered| && Picture(offered[k])
  }

  /** A picture was offered between the two that had to be refused or held back. */
  ghost predicate LosesPicture(log: seq<Entry>, offered: seq<Payload>, a: nat) {
    && 0 < a < |log| && log[a - 1].origin.Some? && log[a].origin.Some?
    && exists k :: log[a - 1].origin.value < k < log[a].origin.value && k < |offered|
                   && Picture(offered[k]) && Lost(offered[k])
  }

  /** Over every run, a viewer starts at a frame flagged as keyframe, and each later frame is so flagged or
      has the very next number; in the second case both carry offered units in order, and a picture is
      missing between them if and only if one was offered there that is over the limit or carries a
      parameter set without a reported IDR slice. */
  lemma EveryRunIsDecodable(run: seq<Machine>, events: seq<Event>, n: nat, id: nat, i: nat)
    requires IsRun(run, events) && n < |run| && id in run[n].viewers && i < |run[n].viewers[id].delivered|
    ensures var m := run[n]; var d := m.viewers[id].delivered;
            && 0 < d[i] <= |m.log| && EntryOk(m.log[d[i] - 1], m.offered)
            && (i == 0 ==> m.log[d[0] - 1].keyframe)
            && (0 < i && !m.log[d[i] - 1].keyframe ==>
                  && d[i] == d[i - 1] + 1 && Adjacent(m.log, m.offered, d[i - 1])
                  && (SkipsPicture(m.log, m.offered, d[i - 1]) <==> LosesPicture(m.log, m.offered, d[i - 1])))
  {
    hide KindOf, Picture, WellFormed, Tracks, CountsOk, ChainOk, TailOk;
    Reachable(run, events, n);
    var m := run[n];
    var d := m.viewers[id].delivered;
    assert ViewerOk(m.log, m.offered, m.viewers[id]);
    if 0 < i {
      assert Follows(m.log, m.offered, d, i);
      if !m.log[d[i] - 1].keyframe { OnlyLostAreSkipped(m.log, m.offered, d[i - 1]); }
    }
  }

  lemma OnlyLostAreSkipped(log: seq<Entry>, offered: seq<Payload>, a: nat)
    requires Adjacent(log, offered, a)
    ensures SkipsPicture(log, offered, a) <==> LosesPicture(log, offered, a)
  {
    hide KindOf;
    if SkipsPicture(log, offered, a) {
      var k :| log[a - 1].origin.value < k < log[a].origin.value && k < |offered| && Picture(offered[k]);
      assert Skipped(offered[k]);
      EmptyIsNoPicture();
    }
  }

  lemma EmptyIsNoPicture()
    ensures !Picture([])
  {
  }

  /** Bounds and counters in every reachable state. */
  lemma EveryRunIsBounded(run: seq<Machine>, events: seq<Event>, n: nat)
    requires IsRun(run, events) && n < |run|
    ensures var b := run[n].buffer;
            && |b.frames| <= 240 && TotalBytes(b.frames) == b.bytes <= 8 * 1024 * 1024
            && (forall j :: 0 < j < |b.frames| ==> b.frames[j].number == b.frames[j - 1].number + 1)
            && (b.frames != [] ==> b.frames[0].keyframe && b.frames[|b.frames| - 1].number == b.last)
            && run[n].h264Consumers == |Users(run[n].viewers, H264)|
  {
    Reachable(run, events, n);
  }

  // ---- parameter sets in front of a keyframe ----

  /** The event empties the buffer: a delta beyond one of the limits, the first H.264 viewer or the last. */
  predicate Empties(m: Machine, ev: Event)
    requires Enabled(m, ev)
  {
    match ev
    case CommitOffered =>
      KindOf(Latest(m)) == Delta && m.buffer.ready
      && (|m.buffer.frames| >= 240 || m.buffer.bytes + |Latest(m)| > 8 * 1024 * 1024)
    case Switch(id, to, encoderReady) =>
      m.viewers[id].encoding != to && !(to == Jpeg && !encoderReady)
      && ((to == H264 && m.h264Consumers == 0) || (m.viewers[id].encoding == H264 && m.h264Consumers == 1))
    case Leave(id) => m.viewers[id].encoding == H264 && m.h264Consumers == 1
    case _ => false
  }

  /** The held-back units committed since the last keyframe or reset. */
  ghost function HeldSince(run: seq<Machine>, events: seq<Event>, n: nat): seq<Payload>
    requires IsRun(run, events) && n < |run|
  {
    if n == 0 then []
    else
      var m, ev := run[n - 1], events[n - 1];
      if Empties(m, ev) || (ev.CommitOffered? && KindOf(Latest(m)) == Keyframe) then []
      else HeldSince(run, events, n - 1) + (if ev.CommitOffered? && KindOf(Latest(m)) == HeldBack then [Latest(m)] else [])
  }

  /** What one event does to the units held back. */
  lemma BootstrapStep(m: Machine, ev: Event)
    requires Enabled(m, ev)
    ensures var b := m.buffer.bootstrap;
            Step(m, ev).buffer.bootstrap ==
            if Empties(m, ev) || (ev.CommitOffered? && KindOf(Latest(m)) == Keyframe) then []
            else if ev.CommitOffered? && KindOf(Latest(m)) == HeldBack then KeepLast(b + [Latest(m)], MAX_BOOTSTRAP)
            else b
  {
    hide KindOf, AppendAll, NextFrame, NewEntries;
  }

  lemma KeepLastGrows(held: seq<Payload>, p: Payload, n: nat)
    requires n > 0
    ensures KeepLast(KeepLast(held, n) + [p], n) == KeepLast(held + [p], n)
  {
  }

  /** In every run the units held back are the newest four of those committed since the last keyframe or
      reset; an older one, or one from before, is gone. */
  lemma {:induction false} BootstrapIsHeldSince(run: seq<Machine>, events: seq<Event>, n: nat)
    requires IsRun(run, events) && n < |run|
    ensures run[n].buffer.bootstrap == KeepLast(HeldSince(run, events, n), 4)
  {
    hide KindOf, Step, Empties;
    if n > 0 {
      BootstrapIsHeldSince(run, events, n - 1);
      BootstrapStep(run[n - 1], events[n - 1]);
      var held := HeldSince(run, events, n - 1);
      KeepLastGrows(held, if events[n - 1].CommitOffered? then Latest(run[n - 1]) else [], MAX_BOOTSTRAP);
      assert held + [] == held;
    }
  }

  /** So in every run a committed keyframe has exactly those units in front of it, and nothing else is
      buffered, if and only if they fit the limit together. */
  lemma EveryKeyframeIsIntroduced(run: seq<Machine>, events: seq<Event>, n: nat)
    requires IsRun(run, events) && n < |events| && events[n].CommitOffered? && KindOf(Latest(run[n])) == Keyframe
    ensures var all := KeepLast(HeldSince(run, events, n), 4) + [Latest(run[n])];
            run[n + 1].buffer.frames == Replay(all, run[n].buffer.last) <==> Size(all) <= 8 * 1024 * 1024
  {
    hide KindOf, Commit, HeldSince;
    BootstrapIsHeldSince(run, events, n);
    KeyframeCommit(run[n].buffer, Latest(run[n]));
    assert run[n + 1] == Step(run[n], events[n]);
  }

  /** The units a late viewer is to be handed: those in front of the last keyframe, the keyframe, and every
      delta committed since; None from a keyframe that does not fit on until the buffer is emptied. */
  ghost function StreamSince(run: seq<Machine>, events: seq<Event>, n: nat): Option<seq<Payload>>
    requires IsRun(run, events) && n < |run|
  {
    if n == 0 then Some([])
    else
      var m, ev, s := run[n - 1], events[n - 1], StreamSince(run, events, n - 1);
      if Empties(m, ev) then Some([])
      else if ev.CommitOffered? && KindOf(Latest(m)) == Keyframe then
        var all := KeepLast(HeldSince(run, events, n - 1), 4) + [Latest(m)];
        if Size(all) <= 8 * 1024 * 1024 then Some(all) else None
      else if ev.CommitOffered? && KindOf(Latest(m)) == Delta && s.Some? && s.value != [] then
        Some(s.value + [Latest(m)])
      else s
  }

  ghost predicate Holds(frames: seq<Frame>, units: seq<Payload>) {
    |frames| == |units| && forall i :: 0 <= i < |units| ==> frames[i].payload == units[i]
  }

  /** What one event that neither empties the buffer nor commits a keyframe does to the frames. */
  lemma FramesStep(m: Machine, ev: Event)
    requires Enabled(m, ev) && !Empties(m, ev) && !(ev.CommitOffered? && KindOf(Latest(m)) == Keyframe)
    ensures Step(m, ev).buffer.frames == m.buffer.frames +
            (if ev.CommitOffered? && KindOf(Latest(m)) == Delta && m.buffer.ready
             then [Frame(m.buffer.last + 1, Latest(m), false)] else [])
  {
    hide KindOf, AppendAll, NextFrame, NewEntries;
    assert m.buffer.frames + [] == m.buffer.frames;
  }

  lemma EmptiedFrames(m: Machine, ev: Event)
    requires Enabled(m, ev) && Empties(m, ev)
    ensures Step(m, ev).buffer.frames == []
  {
    hide KindOf, AppendAll, NextFrame, NewEntries;
  }

  /** In every run the buffer holds exactly that stream: nothing is lost or reordered, and every viewer that
      comes before the next keyframe can be served from the last one. */
  lemma {:induction false} EveryRunBuffersTheStream(run: seq<Machine>, events: seq<Event>, n: nat)
    requires IsRun(run, events) && n < |run|
    ensures StreamSince(run, events, n).Some? ==> Holds(run[n].buffer.frames, StreamSince(run, events, n).value)
  {
    hide KindOf, Step, Empties, HeldSince, Commit, Replay;
    if n > 0 {
      var m, ev := run[n - 1], events[n - 1];
      assert Enabled(m, ev) && run[n] == Step(m, ev);
      EveryRunBuffersTheStream(run, events, n - 1);
      if Empties(m, ev) {
        EmptiedFrames(m, ev);
      } else if ev.CommitOffered? && KindOf(Latest(m)) == Keyframe {
        EveryKeyframeIsIntroduced(run, events, n - 1);
        ReplayHolds(KeepLast(HeldSince(run, events, n - 1), 4) + [Latest(m)], m.buffer.last);
      } else {
        ReadyWithFrames(run, events, n - 1);
        FramesStep(m, ev);
      }
    }
  }

  lemma ReplayHolds(units: seq<Payload>, last: nat)
    ensures Holds(Replay(units, last), units)
  {
  }

  lemma ReadyWithFrames(run: seq<Machine>, events: seq<Event>, n: nat)
    requires IsRun(run, events) && n < |run|
    ensures run[n].buffer.ready <==> run[n].buffer.frames != []
  {
    hide IsRun;
    Reachable(run, events, n);
  }

  const SET: Payload := [0, 0, 1, 0x67]

  lemma SetIsHeldBack()
    ensures KindOf(SET) == HeldBack
  {
    assert NalScanner.Scan(SET, 0) == [7] + NalScanner.Scan(SET, 4) == [7];
  }

  /** A keyframe uses the parameter sets up: with the stream sending them once, a viewer that comes after a
      second keyframe starts at an IDR slice with no parameter set in front, although one was offered. */
  lemma LateViewerGetsNoSet() returns (run: seq<Machine>, events: seq<Event>)
    ensures IsRun(run, events)
    ensures var m := run[|events|];
            && m.offered == [SET, IDR, IDR] && 1 in m.viewers && m.viewers[1].delivered == [3]
            && |m.log| == 3 && m.log[2] == Entry(IDR, true, Some(2)) && m.log[0] == Entry(SET, true, None)
  {
    hide KindOf, Recount, IsRun, Commit, NewEntries;
    SetIsHeldBack();
    ConcreteKinds();
    CommitSet(SET);
    CommitBehindSet(SET, IDR);
    CommitSecond(SET, IDR);
    var m: Machine;
    run, events := JoinOne();
    run, events, m := OfferAndCommit(run, events, SET);
    run, events, m := OfferAndCommit(run, events, IDR);
    run, events, m := OfferAndCommit(run, events, IDR);
    assert m.offered == [SET, IDR, IDR];
    run, events, m := SecondViewer(run, events);
    run, events, m := Continue(run, events, Deliver(1));
    assert m.viewers[1].delivered == [3];
  }

  /** The three commits of that run. */
  lemma CommitSet(held: Payload)
    requires KindOf(held) == HeldBack
    ensures Commit(INIT.buffer, held, HeldBack) == Buffer([], 0, 0, false, [held])
    ensures [] + NewEntries(INIT.buffer, held, 0) == []
  {
    hide KindOf;
    assert [] + [held] == [held];
  }

  lemma CommitBehindSet(held: Payload, key: Payload)
    requires KindOf(key) == Keyframe && |held| + |key| <= MAX_BYTES
    ensures var b := Buffer([], 0, 0, false, [held]);
            && Commit(b, key, Keyframe) == Buffer([Frame(1, held, true), Frame(2, key, true)], |held| + |key|, 2, true, [])
            && [] + NewEntries(b, key, 1) == [Entry(held, true, None), Entry(key, true, Some(1))]
  {
    hide KindOf;
    var b := Buffer([], 0, 0, false, [held]);
    assert [held][..0] == [] && Size([held]) == |held|;
    AppendAllFits(b, [held]);
    assert Replay([held], 0) == [Frame(1, held, true)];
  }

  lemma CommitSecond(held: Payload, key: Payload)
    requires KindOf(key) == Keyframe && |key| <= MAX_BYTES
    ensures var b := Buffer([Frame(1, held, true), Frame(2, key, true)], |held| + |key|, 2, true, []);
            var log := [Entry(held, true, None), Entry(key, true, Some(1))];
            && Commit(b, key, Keyframe) == Buffer([Frame(3, key, true)], |key|, 3, true, [])
            && log + NewEntries(b, key, 2) == log + [Entry(key, true, Some(2))]
  {
    hide KindOf;
  }

  lemma OfferAndCommit(run: seq<Machine>, events: seq<Event>, p: Payload)
    returns (run': seq<Machine>, events': seq<Event>, m: Machine)
    requires IsRun(run, events) && !run[|events|].inflight && run[|events|].h264Consumers > 0
    requires p != [] && |p| <= MAX_BYTES
    ensures IsRun(run', events') && run'[|events'|] == m
    ensures var before := run[|events|];
            m == before.(offered := before.offered + [p], buffer := Commit(before.buffer, p, KindOf(p)),
                         log := before.log + NewEntries(before.buffer, p, |before.offered|))
  {
    hide KindOf, Commit, NewEntries, IsRun;
    run', events', m := Continue(run, events, Offer(p));
    run', events', m := Continue(run', events', CommitOffered);
  }

  /** Another viewer comes and asks for H.264; the buffer stays. */
  lemma SecondViewer(run: seq<Machine>, events: seq<Event>)
    returns (run': seq<Machine>, events': seq<Event>, m: Machine)
    requires IsRun(run, events) && 1 !in run[|events|].viewers && run[|events|].h264Consumers == 1
    ensures IsRun(run', events') && run'[|events'|] == m
    ensures var before := run[|events|];
            && m.buffer == before.buffer && m.log == before.log && m.offered == before.offered
            && m.viewers == before.viewers[1 := Viewer(H264, 0, [])]
  {
    hide KindOf, IsRun;
    run', events', m := Continue(run, events, Connect(1));
    run', events', m := Continue(run', events', Switch(1, H264, false));
  }

  /** One viewer, one buffered keyframe, nothing delivered yet. */
  function Watching(key: Payload): Machine {
    Machine(Buffer([Frame(1, key, true)], |key|, 1, true, []), 1,
            map[Raw := 0, Jpeg := 0, H264 := 1], [key], false, [Entry(key, true, Some(0))],
            map[0 := Viewer(H264, 0, [])])
  }

  const CONNECTED := INIT.(consumers := map[Raw := 1, Jpeg := 0, H264 := 0], viewers := map[0 := Viewer(Raw, 0, [])])

  /** One H.264 viewer, nothing offered yet. */
  const JOINED := INIT.(h264Consumers := 1, consumers := map[Raw := 0, Jpeg := 0, H264 := 1],
                        viewers := map[0 := Viewer(H264, 0, [])])

  lemma ConnectOne()
    ensures Step(INIT, Connect(0)) == CONNECTED
  {
    hide Commit, NextFrame, NewEntries, Recount;
    RecountOne(INIT, NoEncoding, Raw, CONNECTED.consumers);
  }

  /** Recounting on explicit counters, with an empty buffer. */
  lemma RecountOne(m: Machine, from: Encoding, to: Encoding, consumers: map<Encoding, int>)
    requires m.buffer == INIT.buffer && m.consumers.Keys == {Raw, Jpeg, H264} == consumers.Keys
    requires forall e :: e in consumers ==> consumers[e] == m.consumers[e] + Change(e, from, to)
    ensures Recount(m, from, to) == m.(consumers := consumers, h264Consumers := m.h264Consumers + Change(H264, from, to))
  {
    assert Recount(m, from, to).consumers == consumers;
  }

  lemma SwitchOne()
    ensures Step(CONNECTED, Switch(0, H264, false)) == JOINED
  {
    hide Commit, NextFrame, NewEntries, Recount;
    RecountOne(CONNECTED, Raw, H264, JOINED.consumers);
  }

  lemma JoinOne() returns (run: seq<Machine>, events: seq<Event>)
    ensures IsRun(run, events) && run[|events|] == JOINED
  {
    ConnectOne();
    SwitchOne();
    hide Step;
    run, events := [INIT, CONNECTED, JOINED], [Connect(0), Switch(0, H264, false)];
  }

  lemma StartWatching(key: Payload) returns (run: seq<Machine>, events: seq<Event>)
    requires KindOf(key) == Keyframe && 0 < |key| <= MAX_BYTES
    ensures IsRun(run, events) && run[|events|] == Watching(key)
  {
    hide Commit, KindOf;
    var m: Machine;
    run, events := JoinOne();
    run, events, m := Continue(run, events, Offer(key));
    CommitFirst(m.buffer, key);
    run, events, m := Continue(run, events, CommitOffered);
  }

  lemma CommitFirst(b: Buffer, p: Payload)
    requires b == Buffer([], 0, 0, false, []) && |p| <= MAX_BYTES
    ensures Commit(b, p, Keyframe) == Buffer([Frame(1, p, true)], |p|, 1, true, [])
  {
  }

  /** The unit is offered and, when it is small enough, committed: nothing reaches the buffered frames. */
  lemma OfferLost(run: seq<Machine>, events: seq<Event>, key: Payload, lost: Payload)
    returns (run': seq<Machine>, events': seq<Event>, m: Machine)
    requires IsRun(run, events) && run[|events|] == Watching(key) && lost != [] && Lost(lost)
    ensures IsRun(run', events') && run'[|events'|] == m
    ensures m == Watching(key).(offered := [key, lost], buffer := m.buffer)
    ensures m.buffer == Watching(key).buffer.(bootstrap := if |lost| > MAX_BYTES then [] else [lost])
  {
    hide KindOf;
    run', events', m := Continue(run, events, Offer(lost));
    assert m.offered == [key, lost];
    if |lost| <= MAX_BYTES {
      assert KeepLast([] + [lost], MAX_BOOTSTRAP) == [lost];
      assert m.log + [] == m.log;
      run', events', m := Continue(run', events', CommitOffered);
    }
  }

  /** Every picture that is lost can be missed: behind a keyframe, the viewer's next frame is a delta with
      the next number whose predecessor it never got. */
  lemma LostPictureLeavesGap(key: Payload, lost: Payload, small: Payload)
    returns (run: seq<Machine>, events: seq<Event>)
    requires KindOf(key) == Keyframe && 0 < |key| <= MAX_BYTES
    requires Picture(lost) && Lost(lost)
    requires KindOf(small) == Delta && 0 < |small| <= MAX_BYTES - |key|
    ensures IsRun(run, events)
    ensures var m := run[|events|];
            && 0 in m.viewers && m.viewers[0].delivered == [1, 2] && |m.log| == 2 && !m.log[1].keyframe
            && m.offered == [key, lost, small] && m.log[0].origin == Some(0) && m.log[1].origin == Some(2)
            && SkipsPicture(m.log, m.offered, 1)
  {
    hide KindOf, Picture;
    EmptyIsNoPicture();
    var m: Machine;
    run, events := StartWatching(key);
    run, events, m := OfferLost(run, events, key, lost);
    run, events, m := Continue(run, events, Offer(small));
    run, events, m := Continue(run, events, CommitOffered);
    assert m.buffer.frames == [Frame(1, key, true), Frame(2, small, false)];
    run, events, m := Continue(run, events, Deliver(0));
    assert m.viewers[0].delivered == [1];
    assert m.buffer.frames[1..] == [Frame(2, small, false)];
    assert NextFrame(m.buffer.frames, 1) == NextFrame(m.buffer.frames[1..], 1) == Some(Frame(2, small, false));
    run, events, m := Continue(run, events, Deliver(0));
    assert m.viewers[0].delivered == [1] + [2];
    assert Picture(m.offered[1]);
  }

  /** Small units for concrete runs: an IDR slice, a parameter set with a slice behind it, and a slice. */
  const IDR: Payload := [0, 0, 1, 0x65]
  const SET_AND_SLICE: Payload := [0, 0, 1, 0x67, 0, 0, 1, 0x41, 0xff]
  const SLICE: Payload := [0, 0, 1, 0x41]

  /** A parameter set in front of a non-IDR slice takes the slice with it. */
  lemma SliceIsHeldBack()
    ensures NalScanner.NalTypes(SET_AND_SLICE) == [7, 1]
    ensures KindOf(SET_AND_SLICE) == HeldBack && Picture(SET_AND_SLICE) && Lost(SET_AND_SLICE)
  {
    var p := SET_AND_SLICE;
    assert NalScanner.Scan(p, 8) == [];
    assert NalScanner.Scan(p, 4) == [1];
    assert NalScanner.Scan(p, 0) == [7] + [1];
    assert NalScanner.StartCode(p, 4);
    NalScanner.TypesAreStartCodes(p, 0, 1);
    assert NalScanner.Carries(p, 4, 1);
  }

  lemma ConcreteKinds()
    ensures KindOf(IDR) == Keyframe && KindOf(SLICE) == Delta
  {
    assert NalScanner.Scan(IDR, 0) == [5] + NalScanner.Scan(IDR, 4) == [5];
    assert NalScanner.Scan(SLICE, 0) == [1] + NalScanner.Scan(SLICE, 4) == [1];
  }

  /** The concrete case: a 9-byte access unit in a run of three. */
  lemma HeldBackSliceLeavesGap() returns (run: seq<Machine>, events: seq<Event>)
    ensures IsRun(run, events)
    ensures var m := run[|events|];
            && 0 in m.viewers && m.viewers[0].delivered == [1, 2] && |m.log| == 2 && !m.log[1].keyframe
            && m.offered == [IDR, SET_AND_SLICE, SLICE] && SkipsPicture(m.log, m.offered, 1)
  {
    hide KindOf, Picture, IsRun, SkipsPicture;
    SliceIsHeldBack();
    ConcreteKinds();
    run, events := LostPictureLeavesGap(IDR, SET_AND_SLICE, SLICE);
  }

  /** A delta over 8 MiB is refused. */
  lemma OversizedPictureLeavesGap(big: Payload) returns (run: seq<Machine>, events: seq<Event>)
    requires Picture(big) && |big| > MAX_BYTES
    ensures IsRun(run, events)
    ensures var m := run[|events|];
            && 0 in m.viewers && m.viewers[0].delivered == [1, 2] && |m.log| == 2 && !m.log[1].keyframe
            && m.offered == [IDR, big, SLICE] && SkipsPicture(m.log, m.offered, 1)
  {
    hide KindOf, Picture, IsRun, SkipsPicture;
    ConcreteKinds();
    run, events := LostPictureLeavesGap(IDR, big, SLICE);
  }

  lemma Continue(run: seq<Machine>, events: seq<Event>, ev: Event) returns (run': seq<Machine>, events': seq<Event>, m: Machine)
    requires IsRun(run, events) && Enabled(run[|events|], ev)
    ensures m == Step(run[|events|], ev)
    ensures IsRun(run', events') && run'[|events'|] == m
  {
    m := Step(run[|events|], ev);
    run', events' := run + [m], events + [ev];
  }
}
