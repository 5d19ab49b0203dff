/** Every run of one client's output: whole messages on the wire, a bracketed audio session, and no audio
    lost, repeated or drifting. */
module RfbRuns {
  import opened Base
  import opened RfbMessages
  import opened AudioConvert
  import opened RfbOutput

  // ---- framing ----

  function FlattenLog(log: seq<Entry>): seq<byte> {
    if log == [] then [] else FlattenLog(log[..|log| - 1]) + Bytes(log[|log| - 1].message)
  }

  function InFlight(flight: Option<Flight>): seq<byte>
    requires flight.Some? ==> flight.value.written <= |Total(flight.value)|
  {
    if flight == None then [] else Total(flight.value)[..flight.value.written]
  }

  predicate FlightOk(f: Flight) {
    f.message.Jpeg? && Acceptable(f.message.encoding, f.message.payload) && f.written < |Total(f)|
  }

  /** Whole messages, then exactly the written part of the JPEG in flight. */
  ghost predicate Framed(wire: seq<byte>, log: seq<Entry>, flight: Option<Flight>) {
    (flight.Some? ==> FlightOk(flight.value)) && wire == FlattenLog(log) + InFlight(flight)
  }

  ghost predicate Truncated(wire: seq<byte>, log: seq<Entry>) { FlattenLog(log) <= wire }

  // ---- audio grammar ----

  datatype Session = Session(announced: bool, playing: Option<Format>) | Broken

  /** One more message in a session: a capability rectangle, then Begin Data* End over and over, every Data
      in the format of its Begin. */
  function Heard(s: Session, e: Entry): Session {
    if s.Broken? then s
    else match e.message
      case AudioCapability(_, _) => s.(announced := true)
      case AudioBegin => if s.announced && s.playing == None then s.(playing := Some(e.format)) else Broken
      case AudioData(_) => if s.playing == Some(e.format) then s else Broken
      case AudioEnd => if s.playing.Some? then s.(playing := None) else Broken
      case _ => s
  }

  function SessionOf(log: seq<Entry>): Session {
    if log == [] then Session(false, None) else Heard(SessionOf(log[..|log| - 1]), log[|log| - 1])
  }

  ghost predicate Bracketed(log: seq<Entry>, a: Audio) {
    var s := SessionOf(log);
    && s.Session? && s.playing == (if a.started then Some(a.format) else None)
    && (a.supported && !a.capabilityPending ==> s.announced)
    && (a.enabled ==> a.supported) && (a.started ==> a.enabled)
  }

  // ---- audio conservation ----

  function Chunks(run: seq<Conversion>): seq<Chunk> {
    if run == [] then [] else Chunks(run[..|run| - 1]) + [run[|run| - 1].chunk]
  }

  /** Payload and format of the Data messages of a log. */
  function DataOf(log: seq<Entry>): seq<(seq<byte>, Format)> {
    if log == [] then []
    else
      var e := log[|log| - 1];
      DataOf(log[..|log| - 1]) + (if e.message.AudioData? then [(e.message.pcm, e.format)] else [])
  }

  /** What conversions put on the wire: one Data message each, none for an empty result. */
  function Emitted(run: seq<Conversion>): seq<(seq<byte>, Format)> {
    if run == [] then [] else Emitted(run[..|run| - 1]) + Emission(run[|run| - 1])
  }

  function Emission(v: Conversion): seq<(seq<byte>, Format)> {
    if Pcm(v) == [] then [] else [(Pcm(v), v.format)]
  }

  ghost predicate Conserved(log: seq<Entry>, a: Audio) {
    a.accepted == Chunks(a.older) + Chunks(a.run) + a.deferred && DataOf(log) == Emitted(a.older) + Emitted(a.run)
  }

  ghost predicate Bounded(a: Audio) {
    a.deferredSamples == Samples(a.deferred) <= MAX_DEFERRED_SAMPLES && (!a.enabled ==> a.deferred == [])
  }

  // ---- audio continuity ----

  function Stream(run: seq<Conversion>): seq<seq<Stereo>> {
    if run == [] then [] else Stream(run[..|run| - 1]) + [Frames(run[|run| - 1].chunk)]
  }

  /** Each conversion starts at the phase the ones before it left. */
  ghost predicate Chained(run: seq<Conversion>, f: SupportedFormat) {
    run == [] ||
    var front, last := run[..|run| - 1], run[|run| - 1];
    Chained(front, f) && last.format == f && last.phase == Streamed(Stream(front), f.frequency).1
  }

  ghost predicate Continuous(a: Audio) {
    Chained(a.run, a.format) && a.phase == Streamed(Stream(a.run), a.format.frequency).1
  }

  ghost predicate Live(c: Client) {
    Framed(c.wire, c.log, c.flight) && Bracketed(c.log, c.audio) && Conserved(c.log, c.audio)
    && Bounded(c.audio) && Continuous(c.audio)
  }

  ghost predicate Inv(c: Client) {
    if c.open then Live(c) else Truncated(c.wire, c.log)
  }

  // ---- single writes ----

  lemma LogGrows(log: seq<Entry>, e: Entry)
    ensures FlattenLog(log + [e]) == FlattenLog(log) + Bytes(e.message)
    ensures SessionOf(log + [e]) == Heard(SessionOf(log), e)
    ensures DataOf(log + [e]) == DataOf(log) + (if e.message.AudioData? then [(e.message.pcm, e.format)] else [])
  {
    hide Bytes, Heard;
    var longer := log + [e];
    assert longer[..|longer| - 1] == log && longer[|longer| - 1] == e;
  }

  /** What a blocking write does to the three views of the log. */
  lemma PutKeeps(c: Client, m: Message, room: nat)
    requires c.open && c.flight == None && Framed(c.wire, c.log, None)
    ensures var w := Put(c, m, room); var e := Entry(m, c.audio.format);
            && w.client.open && w.client.flight == None && w.client.audio == c.audio && w.client.request == c.request
            && Truncated(w.client.wire, w.client.log)
            && (w.ok ==> Framed(w.client.wire, w.client.log, None) && SessionOf(w.client.log) == Heard(SessionOf(c.log), e)
                         && DataOf(w.client.log) == DataOf(c.log) + (if m.AudioData? then [(m.pcm, c.audio.format)] else []))
  {
    hide Bytes, Heard, SessionOf, DataOf, FlattenLog;
    LogGrows(c.log, Entry(m, c.audio.format));
    assert FlattenLog(c.log) + [] == FlattenLog(c.log);
    var w := Put(c, m, room);
    assert FlattenLog(w.client.log) + [] == FlattenLog(w.client.log);
  }

  /** Library messages do not concern the audio session. */
  lemma LibraryPut(c: Client, bytes: seq<byte>, room: nat)
    requires c.open && c.flight == None && Live(c)
    ensures var w := Put(c, Library(bytes), room);
            w.client.open && w.client.flight == None && w.client.audio == c.audio && w.client.request == c.request
            && Truncated(w.client.wire, w.client.log) && (w.ok ==> Live(w.client))
  {
    hide Framed, SessionOf, DataOf, Emitted, Chunks, Continuous, Bounded, Truncated;
    PutKeeps(c, Library(bytes), room);
  }

  lemma LiveIsTruncated(c: Client)
    requires Framed(c.wire, c.log, c.flight)
    ensures Truncated(c.wire, c.log)
  {
  }

  // ---- JPEG ----

  lemma AdvancedKeeps(c: Client, count: nat)
    requires c.open && Live(c) && c.flight.Some?
    ensures Live(Advanced(c, count)) && Advanced(c, count).open
  {
    hide Bytes, Acceptable, FlattenLog, SessionOf, DataOf, Emitted, Chunks, Continuous, Bounded;
    var f := c.flight.value;
    var from, to := f.written, Min(f.written + count, |Total(f)|);
    assert Total(f)[..from] + Total(f)[from..to] == Total(f)[..to];
    Associate(FlattenLog(c.log), Total(f)[..from], Total(f)[from..to]);
    LogGrows(c.log, Entry(f.message, c.audio.format));
    if to == |Total(f)| {
      JpegDone(c, f);
    }
  }

  lemma JpegDone(c: Client, f: Flight)
    requires FlightOk(f)
    ensures var log := c.log + [Entry(f.message, c.audio.format)];
            && FlattenLog(log) + [] == FlattenLog(c.log) + Total(f)[..|Total(f)|]
            && SessionOf(log) == SessionOf(c.log) && DataOf(log) == DataOf(c.log)
  {
    hide Bytes, FlattenLog, SessionOf, DataOf;
    LogGrows(c.log, Entry(f.message, c.audio.format));
    assert Total(f)[..|Total(f)|] == Total(f);
  }

  lemma FlushKeeps(c: Client, now: int, o: Outcome)
    requires Inv(c)
    ensures Inv(Flushed(c, now, o))
  {
    hide Live, Advanced, Framed, Truncated;
    if c.open && c.flight.Some? {
      FlightLive(c);
      if o.Sent? { AdvancedKeeps(c, o.count); }
    }
  }

  lemma FlightLive(c: Client)
    requires c.open && Live(c)
    ensures Truncated(c.wire, c.log) && Framed(c.wire, c.log, c.flight)
  {
  }

  lemma QueueKeeps(c: Client, e: Encoding, frame: Frame, now: int, sequence: nat)
    requires Inv(c) && CanQueue(c, 0, e, frame)
    ensures Inv(Served(Queue(c, e, frame, now), sequence))
  {
    hide Bracketed, Conserved, Continuous, Bounded, FlattenLog, Acceptable;
    var f := Flight(Jpeg(e, frame.width, frame.height, frame.data), 0, now);
    assert |Total(f)| > 0;
    assert Total(f)[..0] == [];
  }

  lemma FrameKeeps(c: Client, frame: Frame, sequence: nat, now: int, due: bool, decoded: bool, p: Plan)
    requires Inv(c)
    ensures Inv(FrameTurn(c, frame, sequence, now, due, decoded, p))
  {
    hide Live, CanQueue, Queue, Served;
    if c.open { FlightLive(c); }
    if Turn(c, sequence, due) {
      match p.wants
      case WantsJpeg(e) => if CanQueue(c, p.buffered, e, frame) { QueueTurn(c, frame, sequence, now, e, p.buffered); }
      case WantsFramebuffer => UpdateKeeps(c, sequence, p);
    }
  }

  lemma QueueTurn(c: Client, frame: Frame, sequence: nat, now: int, e: Encoding, buffered: nat)
    requires Inv(c) && CanQueue(c, buffered, e, frame)
    ensures Inv(Served(Queue(c, e, frame, now), sequence))
  {
    hide Inv, Queue;
    QueueKeeps(c, e, frame, now, sequence);
  }

  lemma ServedKeeps(c: Client, sequence: nat)
    requires Inv(c)
    ensures Inv(Served(c, sequence))
  {
    hide Framed, Bracketed, Conserved, Continuous, Bounded, Truncated;
  }

  lemma UpdateKeeps(c: Client, sequence: nat, p: Plan)
    requires Inv(c) && c.flight == None
    ensures Inv(Update(c, sequence, p))
  {
    hide Live, Truncated, Served;
    if c.open && p.update.Some? {
      LibraryPut(c, p.update.value, p.room);
    }
    if p.update.Some? {
      var w := Put(c, Library(p.update.value), p.room);
      if w.ok { ServedKeeps(w.client, sequence); }
    }
  }

  lemma ResizeKeeps(c: Client, understands: bool, bytes: seq<byte>, room: nat)
    requires Inv(c) && (c.open ==> c.flight == None)
    ensures Inv(ResizeTurn(c, understands, bytes, room))
  {
    hide Framed, Bracketed, Conserved, Continuous, Bounded, Truncated, Put;
    if c.open {
      FlightLive(c);
      LibraryPut(c, bytes, room);
    } else {
      ClosedPut(c, Library(bytes), room);
    }
  }

  lemma ClosedPut(c: Client, m: Message, room: nat)
    requires !c.open
    ensures Put(c, m, room) == Written(c, false, room)
  {
  }

  /** Flushes in time, one after the other. */
  function FlushAll(c: Client, now: int, counts: seq<nat>): Client {
    if counts == [] then c else Flushed(FlushAll(c, now, counts[..|counts| - 1]), now, Sent(counts[|counts| - 1]))
  }

  function Sum(counts: seq<nat>): nat {
    if counts == [] then 0 else Sum(counts[..|counts| - 1]) + counts[|counts| - 1]
  }

  /** However the kernel cuts a JPEG up, the pieces add up to it: so many bytes of the rest are out as were
      taken in all, and it is complete exactly when that is all of them. */
  lemma {:induction false} PiecesAddUp(c: Client, now: int, counts: seq<nat>)
    requires c.open && c.flight.Some? && FlightOk(c.flight.value) && now - c.flight.value.started <= FLUSH_TIMEOUT
    ensures var f, c' := c.flight.value, FlushAll(c, now, counts);
            var rest := Total(f)[f.written..];
            && c'.open && c'.audio == c.audio && c'.request == c.request
            && if Sum(counts) < |rest|
               then c' == c.(wire := c.wire + rest[..Sum(counts)], flight := Some(f.(written := f.written + Sum(counts))))
               else c' == c.(wire := c.wire + rest, flight := None, log := c.log + [Entry(f.message, c.audio.format)])
    decreases |counts|
  {
    hide Bytes, Acceptable;
    var f := c.flight.value;
    var rest := Total(f)[f.written..];
    if counts == [] {
      assert c.wire + rest[..0] == c.wire;
    } else {
      var front, count := counts[..|counts| - 1], counts[|counts| - 1];
      PiecesAddUp(c, now, front);
      if Sum(front) < |rest| { NextPiece(c, now, Sum(front), count); }
    }
  }

  lemma NextPiece(c: Client, now: int, n: nat, count: nat)
    requires c.open && c.flight.Some? && FlightOk(c.flight.value) && now - c.flight.value.started <= FLUSH_TIMEOUT
    requires c.flight.value.written + n < |Total(c.flight.value)|
    ensures var f := c.flight.value; var rest := Total(f)[f.written..];
            Flushed(c.(wire := c.wire + rest[..n], flight := Some(f.(written := f.written + n))), now, Sent(count)) ==
            if n + count < |rest|
            then c.(wire := c.wire + rest[..n + count], flight := Some(f.(written := f.written + n + count)))
            else c.(wire := c.wire + rest, flight := None, log := c.log + [Entry(f.message, c.audio.format)])
  {
    hide Bytes, Acceptable;
    var f := c.flight.value;
    var rest := Total(f)[f.written..];
    var m := Min(n + count, |rest|);
    assert Total(f)[f.written + n..f.written + m] == rest[n..m];
    assert (c.wire + rest[..n]) + rest[n..m] == c.wire + rest[..m];
    assert rest[..|rest|] == rest;
  }

  /** A client that got a frame is not offered the same one again unless it asks for it. */
  lemma FrameOnlyOnce(c: Client, frame: Frame, sequence: nat, now: int, due: bool, decoded: bool, p: Plan,
                      frame': Frame, now': int, due': bool, decoded': bool, p': Plan)
    requires c.open && Inv(c)
    ensures var c' := FrameTurn(c, frame, sequence, now, due, decoded, p);
            c'.open && c' != c ==> FrameTurn(c', frame', sequence, now', due', decoded', p') == c'
  {
    hide Bytes, Inv;
  }

  // ---- audio requests ----

  /** What a viewer sends behind message type 255. */
  function FormatRequest(f: Format): seq<byte>
    requires f.sample < 0x100 && f.channels < 0x100 && f.frequency < 0x1_0000_0000
  {
    [1, 0, 2, f.sample, f.channels] + BE32(f.frequency)
  }

  /** Each request does what it says, for every client that was offered audio; an unsupported format, an
      unknown operation and a message cut short end the connection. */
  lemma RequestsAreUnderstood(c: Client, f: Format, rest: seq<byte>, room: nat)
    requires c.audio.supported && f.sample < 0x100 && f.channels < 0x100 && f.frequency < 0x1_0000_0000
    ensures Requested(c, FormatRequest(f) + rest, room) == Reformatted(c, f, room)
    ensures !Supported(f) ==> Requested(c, FormatRequest(f) + rest, room) == Close(c)
    ensures Requested(c, [1, 0, 0] + rest, room) == Enabled(c)
    ensures Requested(c, [1, 0, 1] + rest, room) == Disabled(c, room)
    ensures forall k | 0 < k < 9 :: Requested(c, FormatRequest(f)[..k], room) == Close(c)
  {
    hide Reformatted, Enabled, Disabled, BE32, ReadBE32;
    var s := FormatRequest(f) + rest;
    FrequencyField(f, rest);
    ReadAfterWriteBE(f.frequency, rest);
    assert ReadBE16(s[1..]) == 2;
    var enable, disable := [1, 0, 0] + rest, [1, 0, 1] + rest;
    assert ReadBE16(enable[1..]) == 0 && ReadBE16(disable[1..]) == 1;
    if !Supported(f) { UnsupportedCloses(c, f, room); }
    forall k | 0 < k < 9
      ensures Requested(c, FormatRequest(f)[..k], room) == Close(c)
    {
      var cut := FormatRequest(f)[..k];
      if 3 <= k { assert ReadBE16(cut[1..]) == 2; }
    }
  }

  lemma FrequencyField(f: Format, rest: seq<byte>)
    requires f.sample < 0x100 && f.channels < 0x100 && f.frequency < 0x1_0000_0000
    ensures var s := FormatRequest(f) + rest; s[5..] == BE32(f.frequency) + rest && |FormatRequest(f)| == 9
  {
  }

  lemma UnsupportedCloses(c: Client, f: Format, room: nat)
    requires !Supported(f)
    ensures Reformatted(c, f, room) == Close(c)
  {
  }

  lemma {:induction false} ChunksAppend(a: seq<Conversion>, b: seq<Conversion>)
    ensures Chunks(a + b) == Chunks(a) + Chunks(b)
  {
    if b == [] {
      assert a + b == a;
    } else {
      ChunksAppend(a, b[..|b| - 1]);
      SplitLast(a, b);
    }
  }

  lemma {:induction false} EmittedAppend(a: seq<Conversion>, b: seq<Conversion>)
    ensures Emitted(a + b) == Emitted(a) + Emitted(b)
  {
    hide Emission;
    if b == [] {
      assert a + b == a;
    } else {
      EmittedAppend(a, b[..|b| - 1]);
      SplitLast(a, b);
    }
  }

  lemma SplitLast(a: seq<Conversion>, b: seq<Conversion>)
    requires b != []
    ensures (a + b)[..|a + b| - 1] == a + b[..|b| - 1] && (a + b)[|a + b| - 1] == b[|b| - 1]
  {
  }

  lemma EmptyRun(f: SupportedFormat)
    ensures Chunks([]) == [] && Emitted([]) == []
    ensures Chained([], f) && Streamed(Stream([]), f.frequency).1 == 0
  {
  }

  /** Starting a new run keeps everything but the continuity of the old one. */
  lemma RewindKeeps(log: seq<Entry>, a: Audio)
    requires Conserved(log, a)
    ensures Conserved(log, Rewound(a)) && Continuous(Rewound(a))
  {
    hide DataOf, Chunks, Emitted, Chained, Stream, Streamed;
    ChunksAppend(a.older, a.run);
    EmittedAppend(a.older, a.run);
    EmptyRun(a.format);
    assert Chunks(a.older + a.run) + [] == Chunks(a.older + a.run);
    assert Emitted(a.older + a.run) + [] == Emitted(a.older + a.run);
  }

  lemma DiscardKeeps(log: seq<Entry>, a: Audio)
    requires Conserved(log, a)
    ensures Conserved(log, Discarded(a))
  {
    hide DataOf, Chunks, Emitted;
    var kept := Chunks(a.older) + Chunks(a.run);
    assert a.accepted[..|a.accepted| - |a.deferred|] == kept;
    assert kept + [] == kept;
  }

  lemma EnabledKeeps(c: Client)
    requires c.open && Live(c) && c.audio.supported
    ensures Live(Enabled(c))
  {
    hide Framed, Conserved, Continuous, SessionOf;
    ConservedFields(c.log, c.audio, c.audio.(enabled := true));
    RewindKeeps(c.log, c.audio.(enabled := true));
  }

  lemma ConservedFields(log: seq<Entry>, a: Audio, b: Audio)
    requires Conserved(log, a) && b.accepted == a.accepted && b.older == a.older && b.run == a.run && b.deferred == a.deferred
    ensures Conserved(log, b)
  {
  }

  /** End is written when a session is open. */
  function EndIfStarted(c: Client, room: nat): Written {
    if c.audio.started then Put(c, AudioEnd, room) else Written(c, true, room)
  }

  lemma EndKeeps(c: Client, room: nat)
    requires c.open && c.flight == None && Live(c)
    ensures var w := EndIfStarted(c, room);
            && w.client.open && w.client.flight == None && w.client.audio == c.audio && w.client.request == c.request
            && Truncated(w.client.wire, w.client.log)
            && (w.ok ==> Framed(w.client.wire, w.client.log, None) && Conserved(w.client.log, c.audio)
                         && SessionOf(w.client.log).Session? && SessionOf(w.client.log).playing == None
                         && SessionOf(w.client.log).announced == SessionOf(c.log).announced)
  {
    hide Chunks, Emitted, Continuous, Framed, DataOf, SessionOf, Truncated;
    FlightLive(c);
    if c.audio.started { PutKeeps(c, AudioEnd, room); }
  }

  lemma DisabledKeeps(c: Client, room: nat)
    requires c.open && c.flight == None && Live(c)
    ensures Inv(Disabled(c, room))
  {
    hide Framed, Conserved, Continuous, SessionOf, Truncated, Put;
    var w := EndIfStarted(c, room);
    EndKeeps(c, room);
    if w.ok {
      var a := c.audio.(enabled := false, started := false);
      ConservedFields(w.client.log, c.audio, a);
      DiscardKeeps(w.client.log, a);
      RewindKeeps(w.client.log, Discarded(a));
    }
  }

  lemma ReformattedKeeps(c: Client, f: Format, room: nat)
    requires c.open && c.flight == None && Live(c)
    ensures Inv(Reformatted(c, f, room))
  {
    hide Framed, Conserved, Continuous, SessionOf, Truncated, Put;
    FlightLive(c);
    var w := EndIfStarted(c, room);
    EndKeeps(c, room);
    if w.ok && Supported(f) {
      var a := c.audio.(started := false, format := f);
      ConservedFields(w.client.log, c.audio, a);
      RewindKeeps(w.client.log, a);
    }
  }

  lemma RequestedKeeps(c: Client, input: seq<byte>, room: nat)
    requires c.open && c.flight == None && Live(c)
    ensures Inv(Requested(c, input, room))
  {
    hide Live, Truncated, Enabled, Disabled, Reformatted, ReadBE16, ReadBE32;
    FlightLive(c);
    if 3 <= |input| && c.audio.supported {
      EnabledOpen(c);
      DisabledKeeps(c, room);
      if |input| >= 9 { ReformattedKeeps(c, Format(input[3], input[4], ReadBE32(input[5..])), room); }
    }
  }

  lemma EnabledOpen(c: Client)
    requires c.open && Live(c) && c.audio.supported
    ensures Inv(Enabled(c))
  {
    hide Live;
    EnabledKeeps(c);
  }

  lemma AdvertisedKeeps(c: Client)
    requires c.open && Live(c)
    ensures Live(Advertised(c))
  {
    hide Framed, SessionOf, DataOf, Emitted, Chunks, Chained, Stream, Streamed;
  }

  lemma HandledKeeps(c: Client, i: Input)
    requires c.open && c.flight == None && Live(c)
    ensures Inv(Handled(c, i))
  {
    hide Bracketed, Conserved, Continuous, Bounded, Framed, Truncated, Requested, Advertised, Put;
    FlightLive(c);
    match i
    case Reply(bytes, room) => LibraryPut(c, bytes, room);
    case AudioMessage(bytes, room) => RequestedKeeps(c, bytes, room);
    case AudioEncoding => AdvertisedOpen(c);
    case _ =>
  }

  lemma AdvertisedOpen(c: Client)
    requires c.open && Live(c)
    ensures Inv(Advertised(c))
  {
    hide Live;
    AdvertisedKeeps(c);
  }

  /** A closed client's wire and log are final, whatever is still done to its other fields. */
  lemma ClosedHandled(c: Client, i: Input)
    requires !c.open
    ensures var c' := Handled(c, i); !c'.open && c'.wire == c.wire && c'.log == c.log
  {
    hide Supported, ReadBE16, ReadBE32;
  }

  // ---- audio output ----

  /** What holds of an open client in the middle of an audio round, its JPEG done. */
  ghost predicate Playing(c: Client) {
    c.open && c.flight == None && Framed(c.wire, c.log, None) && Bracketed(c.log, c.audio)
    && Conserved(c.log, c.audio) && Continuous(c.audio)
  }

  lemma {:induction false} SamplesAppend(a: seq<Chunk>, b: seq<Chunk>)
    ensures Samples(a + b) == Samples(a) + Samples(b)
  {
    if b == [] {
      assert a + b == a;
    } else {
      SamplesAppend(a, b[..|b| - 1]);
      assert (a + b)[..|a + b| - 1] == a + b[..|b| - 1];
    }
  }

  lemma AcceptKeeps(c: Client, chunks: seq<Chunk>)
    requires c.open && Live(c) && c.audio.enabled
    ensures var a := Accept(c, chunks);
            && Framed(a.wire, a.log, a.flight) && Bracketed(a.log, a.audio) && Conserved(a.log, a.audio) && Continuous(a.audio)
            && a.audio.deferredSamples == Samples(a.audio.deferred)
  {
    hide Framed, SessionOf, DataOf, Emitted, Chunks, Chained, Stream, Streamed, Samples;
    SamplesAppend(c.audio.deferred, chunks);
    var done := Chunks(c.audio.older) + Chunks(c.audio.run);
    assert (done + c.audio.deferred) + chunks == done + (c.audio.deferred + chunks);
  }

  lemma AnnouncedKeeps(c: Client, width: uint16, height: uint16, room: nat)
    requires Playing(c)
    ensures var w := Announced(c, width, height, room);
            && w.client.open && Truncated(w.client.wire, w.client.log)
            && (w.ok ==> Playing(w.client) && !w.client.audio.capabilityPending
                         && w.client.audio == c.audio.(capabilityPending := false))
  {
    hide Framed, Chunks, Emitted, Chained, Stream, Streamed, SessionOf, DataOf, Truncated, Put;
    PutKeeps(c, AudioCapability(width, height), room);
  }

  lemma BegunKeeps(c: Client, room: nat)
    requires Playing(c) && c.audio.enabled && !c.audio.capabilityPending && !c.audio.started
    ensures var w := Begun(c, room);
            && w.client.open && Truncated(w.client.wire, w.client.log)
            && (w.ok ==> Playing(w.client) && w.client.audio == c.audio.(started := true))
  {
    hide Framed, Chunks, Emitted, Chained, Stream, Streamed, SessionOf, DataOf, Truncated, Put;
    PutKeeps(c, AudioBegin, room);
  }

  lemma RunGrows(run: seq<Conversion>, v: Conversion)
    ensures Chunks(run + [v]) == Chunks(run) + [v.chunk]
    ensures Emitted(run + [v]) == Emitted(run) + Emission(v)
    ensures Stream(run + [v]) == Stream(run) + [Frames(v.chunk)]
    ensures Chained(run + [v], v.format) <==> Chained(run, v.format) && v.phase == Streamed(Stream(run), v.format.frequency).1
  {
    hide Emission, Streamed, Frames;
    var longer := run + [v];
    assert longer[..|longer| - 1] == run && longer[|longer| - 1] == v;
  }

  lemma StreamedGrows(chunks: seq<seq<Stereo>>, chunk: seq<Stereo>, f: nat)
    requires f > 0
    ensures var (out, phase) := Streamed(chunks, f);
            Streamed(chunks + [chunk], f) == (out + Resample(chunk, f, phase), Carry(|chunk|, f, phase))
  {
    hide Resample, Carry;
    var longer := chunks + [chunk];
    assert longer[..|longer| - 1] == chunks && longer[|longer| - 1] == chunk;
  }

  /** The popped chunk moves from the queue to the conversions, continuing the stream. */
  lemma PoppedContinues(a: Audio, v: Conversion)
    requires Continuous(a) && v.format == a.format && v.phase == a.phase
    ensures Chained(a.run + [v], a.format)
    ensures Converted(v.chunk, v.format, v.phase).1 == Streamed(Stream(a.run + [v]), a.format.frequency).1
  {
    hide Chained, Stream, Streamed, EncodeFrames, Resample, Carry;
    RunGrows(a.run, v);
    StreamedGrows(Stream(a.run), Frames(v.chunk), a.format.frequency);
  }

  lemma ConservedPop(a: Audio, v: Conversion, log: seq<Entry>, log': seq<Entry>)
    requires Conserved(log, a) && a.deferred != [] && v.chunk == a.deferred[0]
    requires DataOf(log') == DataOf(log) + Emission(v)
    ensures a.accepted == Chunks(a.older) + Chunks(a.run + [v]) + a.deferred[1..]
    ensures DataOf(log') == Emitted(a.older) + Emitted(a.run + [v])
  {
    hide Chunks, Emitted, DataOf, Emission;
    RunGrows(a.run, v);
    var done := Chunks(a.older) + Chunks(a.run);
    assert done + a.deferred == (done + [a.deferred[0]]) + a.deferred[1..];
    assert done + [v.chunk] == Chunks(a.older) + (Chunks(a.run) + [v.chunk]);
    assert (Emitted(a.older) + Emitted(a.run)) + Emission(v) == Emitted(a.older) + (Emitted(a.run) + Emission(v));
  }

  lemma PacketKeeps(c: Client, room: nat)
    requires Playing(c) && c.audio.deferred != [] && c.audio.started
    ensures var w := Packet(Popped(c), Pcm(Next(c)), room);
            && w.client.open && Truncated(w.client.wire, w.client.log)
            && w.client.audio == Popped(c).audio
            && (w.ok ==> Playing(w.client))
  {
    hide Framed, Chunks, Emitted, Chained, Stream, Streamed, SessionOf, DataOf, Truncated, Converted, Put, Samples;
    var v, m, p := Next(c), AudioData(Pcm(Next(c))), Popped(c);
    PutKeeps(p, m, room);
    FramedTruncated(c.wire, c.log);
    PoppedContinues(c.audio, v);
    var w := Packet(p, Pcm(v), room);
    if w.ok { 
      assert Emission(v) == if Pcm(v) == [] then [] else [(Pcm(v), c.audio.format)];
      assert DataOf(c.log) + [] == DataOf(c.log);
      ConservedPop(c.audio, v, c.log, w.client.log); 
    }
  }

  lemma FramedTruncated(wire: seq<byte>, log: seq<Entry>)
    requires Framed(wire, log, None)
    ensures Truncated(wire, log)
  {
  }

  /** The loop over the deferred chunks: all of them, in order, or the connection is gone. */
  lemma {:induction false} SendDeferredKeeps(c: Client, room: nat)
    requires Playing(c) && c.audio.started && c.audio.enabled && c.audio.deferredSamples == Samples(c.audio.deferred)
    ensures Inv(SendDeferred(c, room))
    ensures SendDeferred(c, room).open ==> SendDeferred(c, room).audio.deferred == [] && SendDeferred(c, room).flight == None
    decreases |c.audio.deferred|
  {
    hide Framed, Bracketed, Conserved, Continuous, Converted, Packet, Truncated, Samples;
    if c.audio.deferred == [] {
      NoSamples();
    } else {
      PacketKeeps(c, room);
      var w := Packet(Popped(c), Pcm(Next(c)), room);
      if w.ok { SendDeferredKeeps(w.client, w.room); }
    }
  }

  lemma NoSamples()
    ensures Samples([]) == 0
  {
  }

  lemma PlayedKeeps(c: Client, room: nat)
    requires Playing(c) && !c.audio.capabilityPending && Bounded(c.audio)
    ensures Inv(Played(c, room))
    ensures Played(c, room).open ==> Played(c, room).audio.deferred == [] && Played(c, room).flight == None
  {
    hide Framed, Bracketed, Conserved, Continuous, Truncated, Samples, Put, SendDeferred;
    if c.audio.enabled && c.audio.deferred != [] {
      var w := if c.audio.started then Written(c, true, room) else Begun(c, room);
      if !c.audio.started { BegunKeeps(c, room); }
      if w.ok { SendDeferredKeeps(w.client, w.room); }
    }
  }

  lemma AudioRoundKeeps(c: Client, chunks: seq<Chunk>, width: uint16, height: uint16, room: nat)
    requires c.open && Live(c)
    ensures Inv(AudioRound(c, chunks, width, height, room))
    ensures var c' := AudioRound(c, chunks, width, height, room);
            c'.open && c.flight == None ==> c'.audio.deferred == [] && c'.flight == None
  {
    hide Framed, Bracketed, Conserved, Continuous, Truncated, Samples, Played, Announced;
    var a := if c.audio.enabled then Accept(c, chunks) else c;
    if c.audio.enabled { AcceptKeeps(c, chunks); }
    LiveIsTruncated(a);
    if a.flight == None && a.audio.deferredSamples <= MAX_DEFERRED_SAMPLES {
      var w := if a.audio.capabilityPending then Announced(a, width, height, room) else Written(a, true, room);
      if a.audio.capabilityPending { AnnouncedKeeps(a, width, height, room); }
      if w.ok { PlayedKeeps(w.client, w.room); }
    }
  }

  // ---- closed clients ----

  /** Nothing reaches a closed client any more, whatever is still done to its record. */
  lemma ClosedStep(c: Client, ev: Event)
    requires !c.open
    ensures var c' := Step(c, ev); !c'.open && c'.wire == c.wire && c'.log == c.log
  {
    hide AudioRound, Handled;
    match ev
    case Receive(input) => ClosedHandled(c, input);
    case Play(chunks, width, height, room) => ClosedRound(c, chunks, width, height, room);
    case _ =>
  }

  lemma ClosedRound(c: Client, chunks: seq<Chunk>, width: uint16, height: uint16, room: nat)
    requires !c.open
    ensures var c' := AudioRound(c, chunks, width, height, room); !c'.open && c'.wire == c.wire && c'.log == c.log
  {
    hide SendDeferred, Samples;
    var a := if c.audio.enabled then Accept(c, chunks) else c;
    if a.audio.started { ClosedDeferred(a, room); }
  }

  lemma {:induction false} ClosedDeferred(c: Client, room: nat)
    requires !c.open
    ensures var c' := SendDeferred(c, room); !c'.open && c'.wire == c.wire && c'.log == c.log
    decreases |c.audio.deferred|
  {
    hide Converted, Samples;
    if c.audio.deferred != [] {
      var w := Packet(Popped(c), Pcm(Next(c)), room);
      if w.ok { ClosedDeferred(w.client, w.room); }
    }
  }

  // ---- runs ----

  lemma StepKeeps(c: Client, ev: Event)
    requires Inv(c) && Possible(c, ev)
    ensures Inv(Step(c, ev))
  {
    hide Live, Truncated, AudioRound, Handled, FrameTurn, ResizeTurn, Flushed;
    if !c.open {
      ClosedStep(c, ev);
      TruncatedCopy(c, Step(c, ev));
    } else {
      match ev
      case Flush(now, outcome) => FlushKeeps(c, now, outcome);
      case Receive(input) => HandledKeeps(c, input);
      case Play(chunks, width, height, room) => AudioRoundKeeps(c, chunks, width, height, room);
      case Offer(frame, sequence, now, due, decoded, plan) => FrameKeeps(c, frame, sequence, now, due, decoded, plan);
      case NewSize(understands, bytes, room) => ResizeKeeps(c, understands, bytes, room);
      case Drop => FlightLive(c);
    }
  }

  lemma TruncatedCopy(c: Client, d: Client)
    requires Truncated(c.wire, c.log) && c.wire == d.wire && c.log == d.log
    ensures Truncated(d.wire, d.log)
  {
  }

  lemma NewClientOk()
    ensures Inv(NewClient())
  {
    assert Chunks([]) + Chunks([]) + [] == [] && Emitted([]) + Emitted([]) == [];
  }

  /** The states of one connection from its start, one event after the other. */
  ghost predicate IsRun(run: seq<Client>, events: seq<Event>) {
    && |run| == |events| + 1 && run[0] == NewClient()
    && forall i :: 0 <= i < |events| ==> Possible(run[i], events[i]) && run[i + 1] == Step(run[i], events[i])
  }

  lemma {:induction false} Reachable(run: seq<Client>, events: seq<Event>, n: nat)
    requires IsRun(run, events) && n < |run|
    ensures Inv(run[n])
  {
    hide Inv, Step, Possible;
    if n == 0 {
      NewClientOk();
    } else {
      Reachable(run, events, n - 1);
      StepKeeps(run[n - 1], events[n - 1]);
    }
  }

  function Messages(log: seq<Entry>): seq<Message> {
    seq(|log|, i requires 0 <= i < |log| => log[i].message)
  }

  lemma {:induction false} FlattenMessages(log: seq<Entry>)
    ensures FlattenLog(log) == Flatten(Messages(log))
  {
    if log != [] {
      var front := log[..|log| - 1];
      FlattenMessages(front);
      assert Messages(log)[..|log| - 1] == Messages(front);
    }
  }

  /** The framing that the invariant gives every client at any time. */
  ghost predicate WholeMessages(c: Client) {
    if !c.open then Flatten(Messages(c.log)) <= c.wire
    else match c.flight
      case None => c.wire == Flatten(Messages(c.log))
      case Some(f) => f.written < |Bytes(f.message)| && c.wire == Flatten(Messages(c.log)) + Bytes(f.message)[..f.written]
  }

  lemma InvIsWholeMessages(c: Client)
    requires Inv(c)
    ensures WholeMessages(c)
  {
    FlattenMessages(c.log);
  }

  /** Whatever short writes, timeouts, replies, audio and size changes come together: the wire of an open
      client is its completed messages followed by exactly the written part of its one JPEG in flight, and
      a closed client was cut off behind them. */
  lemma EveryRunIsFramed(run: seq<Client>, events: seq<Event>, n: nat)
    requires IsRun(run, events) && n < |run|
    ensures WholeMessages(run[n])
  {
    hide Inv;
    Reachable(run, events, n);
    InvIsWholeMessages(run[n]);
  }

  /** Why incoming messages have to wait: a reply written behind part of a JPEG leaves a wire that is not
      whole messages, unless it happens to commute with that part; a JPEG starts with byte 0. */
  lemma ReplyWouldInterleave(c: Client, bytes: seq<byte>, room: nat)
    requires c.open && Inv(c) && c.flight.Some? && |bytes| <= room
    ensures var out := InFlight(c.flight);
            WholeMessages(Replied(c, bytes, room)) <==> out + bytes == bytes + out
    ensures 0 < c.flight.value.written && bytes != [] && bytes[0] != 0 ==> !WholeMessages(Replied(c, bytes, room))
  {
    hide Bytes, FlattenLog, Flatten, Bracketed, Conserved, Bounded, Continuous;
    FlightLive(c);
    var out, e := InFlight(c.flight), Entry(Library(bytes), c.audio.format);
    var c' := Replied(c, bytes, room);
    LibraryBytes(bytes);
    LogGrows(c.log, e);
    FlattenMessages(c.log);
    FlattenMessages(c'.log);
    Associate(FlattenLog(c.log), out, bytes);
    Associate(FlattenLog(c.log), bytes, out);
    SameTail(FlattenLog(c.log), out + bytes, bytes + out);
    if 0 < c.flight.value.written && bytes != [] {
      FirstByte(c.flight.value);
      assert (out + bytes)[0] == out[0] && (bytes + out)[0] == bytes[0];
    }
  }

  lemma LibraryBytes(bytes: seq<byte>)
    ensures Bytes(Library(bytes)) == bytes
  {
  }

  lemma SameTail(a: seq<byte>, b: seq<byte>, c: seq<byte>)
    ensures a + b == a + c <==> b == c
  {
    assert (a + b)[|a|..] == b && (a + c)[|a|..] == c;
  }

  lemma FirstByte(f: Flight)
    requires FlightOk(f) && f.written > 0
    ensures Total(f)[..f.written][0] == 0
  {
  }

  /** So a viewer that knows the message formats, and is told the sizes of the messages that do not carry
      one (the library's own and native JPEG frames), reads exactly the log in every run, and is left with
      the part of the JPEG in flight, which it does not mistake for a message. */
  lemma ViewerReadsTheLog(run: seq<Client>, events: seq<Event>, n: nat)
    requires IsRun(run, events) && n < |run| && run[n].open
    ensures run[n].flight.Some? ==> run[n].flight.value.written <= |Total(run[n].flight.value)|
    ensures ReadAll(Hints(Messages(run[n].log)), run[n].wire) == (AllAsRead(Messages(run[n].log)), InFlight(run[n].flight))
    ensures run[n].flight.Some? && SelfDelimiting(run[n].flight.value.message) ==> Parse(InFlight(run[n].flight)) == None
  {
    hide IsRun, Flatten, Bytes, Parse, ReadAll, Hints, AllAsRead, SelfDelimiting;
    var c := run[n];
    EveryRunIsFramed(run, events, n);
    match c.flight
    case Some(f) =>
      ReadAllBack(Messages(c.log), InFlight(c.flight));
      if SelfDelimiting(f.message) { ParseCut(f.message, f.written); }
    case None =>
      ReadAllBack(Messages(c.log), []);
      assert c.wire + [] == c.wire;
  }

  /** Tight frames and audio alone need no hints: the viewer parses until nothing is whole any more. */
  lemma ViewerParsesTheLog(run: seq<Client>, events: seq<Event>, n: nat)
    requires IsRun(run, events) && n < |run| && run[n].open
    requires forall e :: e in run[n].log ==> SelfDelimiting(e.message)
    requires run[n].flight.Some? ==> SelfDelimiting(run[n].flight.value.message)
    ensures run[n].flight.Some? ==> run[n].flight.value.written <= |Total(run[n].flight.value)|
    ensures ParseAll(run[n].wire) == (Messages(run[n].log), InFlight(run[n].flight))
  {
    hide IsRun, Flatten, Bytes, ParseAll, SelfDelimiting;
    var c := run[n];
    EveryRunIsFramed(run, events, n);
    LogIsSelfDelimiting(c.log);
    match c.flight
    case Some(f) => ParseAllBack(Messages(c.log), f.message, f.written);
    case None =>
      EndIsSelfDelimiting();
      ParseAllBack(Messages(c.log), AudioEnd, 0);
      assert Bytes(AudioEnd)[..0] == [];
      assert c.wire + [] == c.wire;
  }

  lemma LogIsSelfDelimiting(log: seq<Entry>)
    requires forall e :: e in log ==> SelfDelimiting(e.message)
    ensures forall i :: 0 <= i < |Messages(log)| ==> SelfDelimiting(Messages(log)[i])
  {
    hide SelfDelimiting;
    forall i | 0 <= i < |log|
      ensures SelfDelimiting(Messages(log)[i])
    {
      assert log[i] in log;
    }
  }

  lemma EndIsSelfDelimiting()
    ensures SelfDelimiting(AudioEnd) && |Bytes(AudioEnd)| == 4
  {
  }

  /** Once closed, a client receives nothing more. */
  lemma {:induction false} ClosedForGood(run: seq<Client>, events: seq<Event>, n: nat, later: nat)
    requires IsRun(run, events) && n <= later < |run| && !run[n].open
    ensures !run[later].open && run[later].wire == run[n].wire && run[later].log == run[n].log
  {
    hide Step, Possible;
    if n < later {
      ClosedForGood(run, events, n, later - 1);
      ClosedStep(run[later - 1], events[later - 1]);
    }
  }

  /** Nothing already written is ever taken back: the wire and the log only grow. */
  lemma {:induction false} WireOnlyGrows(run: seq<Client>, events: seq<Event>, n: nat, later: nat)
    requires IsRun(run, events) && n <= later < |run|
    ensures run[n].wire <= run[later].wire && run[n].log <= run[later].log
  {
    hide Step, Possible;
    if n < later {
      WireOnlyGrows(run, events, n, later - 1);
      StepGrows(run[later - 1], events[later - 1]);
    }
  }

  lemma StepGrows(c: Client, ev: Event)
    ensures c.wire <= Step(c, ev).wire && c.log <= Step(c, ev).log
  {
    hide AudioRound, Bytes, Supported, ReadBE16, ReadBE32, CanQueue;
    if ev.Play? { RoundGrows(c, ev.chunks, ev.width, ev.height, ev.room); }
  }

  lemma RoundGrows(c: Client, chunks: seq<Chunk>, width: uint16, height: uint16, room: nat)
    ensures var c' := AudioRound(c, chunks, width, height, room); c.wire <= c'.wire && c.log <= c'.log
  {
    hide Samples, Bytes, SendDeferred;
    var a := if c.audio.enabled then Accept(c, chunks) else c;
    var w := if a.audio.capabilityPending then Announced(a, width, height, room) else Written(a, true, room);
    var b := if w.client.audio.started then Written(w.client, true, w.room) else Begun(w.client, w.room);
    DeferredGrows(b.client, b.room);
  }

  lemma {:induction false} DeferredGrows(c: Client, room: nat)
    ensures c.wire <= SendDeferred(c, room).wire && c.log <= SendDeferred(c, room).log
    decreases |c.audio.deferred|
  {
    hide Converted, Samples, Bytes;
    if c.audio.deferred != [] {
      var w := Packet(Popped(c), Pcm(Next(c)), room);
      if w.ok { DeferredGrows(w.client, w.room); }
    }
  }

  // ---- audio theorems ----

  /** Position of a Data message's Begin: the capability came earlier, and nothing from the Begin up to the
      Data starts, ends or changes the format of the session. */
  ghost predicate BegunAt(log: seq<Entry>, begin: nat, announced: nat, format: Format) {
    && announced < begin < |log|
    && log[announced].message.AudioCapability? && log[begin].message.AudioBegin? && log[begin].format == format
    && forall k :: begin < k < |log| ==> Inside(log[k], format)
  }

  predicate Inside(e: Entry, format: Format) {
    !e.message.AudioBegin? && !e.message.AudioEnd? && (e.message.AudioData? ==> e.format == format)
  }

  lemma {:induction false} WasAnnounced(log: seq<Entry>) returns (announced: nat)
    requires SessionOf(log).Session? && SessionOf(log).announced
    ensures announced < |log| && log[announced].message.AudioCapability?
  {
    if log[|log| - 1].message.AudioCapability? { announced := |log| - 1; }
    else { announced := WasAnnounced(log[..|log| - 1]); }
  }

  lemma {:induction false} WasBegun(log: seq<Entry>) returns (begin: nat, announced: nat)
    requires SessionOf(log).Session? && SessionOf(log).playing.Some?
    ensures BegunAt(log, begin, announced, SessionOf(log).playing.value)
  {
    var front, last := log[..|log| - 1], log[|log| - 1];
    if last.message.AudioBegin? {
      begin := |log| - 1;
      announced := WasAnnounced(front);
    } else {
      begin, announced := WasBegun(front);
      forall k | begin < k < |log|
        ensures Inside(log[k], SessionOf(log).playing.value)
      {
        if k < |front| { assert Inside(front[k], SessionOf(log).playing.value); }
      }
    }
  }

  lemma {:induction false} PrefixSession(log: seq<Entry>, j: nat)
    requires j <= |log| && SessionOf(log).Session?
    ensures SessionOf(log[..j]).Session?
    decreases |log|
  {
    if j < |log| {
      PrefixSession(log[..|log| - 1], j);
      assert log[..|log| - 1][..j] == log[..j];
    } else {
      assert log[..j] == log;
    }
  }

  /** In every run the audio of a client follows the grammar: no Begin before the capability or inside
      another session, no End or Data outside one; it is inside one exactly when the record says so. */
  lemma EveryRunFollowsGrammar(run: seq<Client>, events: seq<Event>, n: nat)
    requires IsRun(run, events) && n < |run| && run[n].open
    ensures SessionOf(run[n].log).Session?
    ensures SessionOf(run[n].log).playing == if run[n].audio.started then Some(run[n].audio.format) else None
  {
    hide IsRun, SessionOf;
    Reachable(run, events, n);
  }

  /** And every packet lies behind a Begin of its own format, with no End in between, and the capability
      rectangle came before that Begin. */
  lemma EveryRunBracketsAudio(run: seq<Client>, events: seq<Event>, n: nat, j: nat) returns (begin: nat, announced: nat)
    requires IsRun(run, events) && n < |run| && run[n].open
    requires j < |run[n].log| && run[n].log[j].message.AudioData?
    ensures SessionOf(run[n].log).Session?
    ensures BegunAt(run[n].log[..j], begin, announced, run[n].log[j].format)
  {
    hide IsRun, Inv, BegunAt, SessionOf;
    EveryRunFollowsGrammar(run, events, n);
    begin, announced := DataIsBracketed(run[n].log, j);
  }

  lemma DataIsBracketed(log: seq<Entry>, j: nat) returns (begin: nat, announced: nat)
    requires SessionOf(log).Session? && j < |log| && log[j].message.AudioData?
    ensures BegunAt(log[..j], begin, announced, log[j].format)
  {
    hide BegunAt;
    PrefixSession(log, j + 1);
    assert log[..j + 1][..j] == log[..j] && log[..j + 1][j] == log[j];
    begin, announced := WasBegun(log[..j]);
  }

  /** Nothing is lost, repeated or reordered: what was dequeued for a client is what was converted followed by
      what still waits, and the Data messages on its wire are those conversions, in order. The queue is
      measured correctly, never exceeds its limit, and waits only behind a JPEG. */
  lemma EveryRunConservesAudio(run: seq<Client>, events: seq<Event>, n: nat)
    requires IsRun(run, events) && n < |run| && run[n].open
    ensures var c := run[n]; var a := c.audio;
            && a.accepted == Chunks(a.older + a.run) + a.deferred
            && DataOf(c.log) == Emitted(a.older + a.run)
            && a.deferredSamples == Samples(a.deferred) <= MAX_DEFERRED_SAMPLES
            && (!a.enabled ==> a.deferred == [])
  {
    hide IsRun, Framed, Bracketed, Continuous;
    Reachable(run, events, n);
    var a := run[n].audio;
    ChunksAppend(a.older, a.run);
    EmittedAppend(a.older, a.run);
  }

  function Payloads(data: seq<(seq<byte>, Format)>): seq<byte> {
    if data == [] then [] else Payloads(data[..|data| - 1]) + data[|data| - 1].0
  }

  lemma {:induction false} PayloadsAppend(data: seq<(seq<byte>, Format)>, v: Conversion)
    ensures Payloads(data + Emission(v)) == Payloads(data) + Pcm(v)
  {
    hide Pcm;
    if Pcm(v) == [] {
      assert data + [] == data;
    } else {
      var longer := data + [(Pcm(v), v.format)];
      assert longer[..|longer| - 1] == data;
    }
  }

  lemma {:induction false} EncodeAppend(a: seq<Stereo>, b: seq<Stereo>, f: SupportedFormat)
    ensures EncodeFrames(a + b, f) == EncodeFrames(a, f) + EncodeFrames(b, f)
  {
    hide EncodeFrame;
    if a == [] {
      assert a + b == b;
    } else {
      EncodeAppend(a[1..], b, f);
      assert (a + b)[1..] == a[1..] + b && (a + b)[0] == a[0];
      Associate(EncodeFrame(a[0], f), EncodeFrames(a[1..], f), EncodeFrames(b, f));
    }
  }

  /** The payloads of a run are the encoding of one uninterrupted resampled stream. */
  lemma {:induction false} RunIsStream(run: seq<Conversion>, f: SupportedFormat)
    requires Chained(run, f)
    ensures Payloads(Emitted(run)) == EncodeFrames(Streamed(Stream(run), f.frequency).0, f)
    decreases |run|
  {
    hide EncodeFrames, Emission, Resample, Carry, Frames;
    if run == [] {
      EncodeNothing(f);
    } else {
      var front, v := run[..|run| - 1], run[|run| - 1];
      RunIsStream(front, f);
      PayloadsAppend(Emitted(front), v);
      PcmIs(v);
      StreamedGrows(Stream(front), Frames(v.chunk), f.frequency);
      EncodeAppend(Streamed(Stream(front), f.frequency).0, Resample(Frames(v.chunk), f.frequency, v.phase), f);
    }
  }

  lemma EncodeNothing(f: SupportedFormat)
    ensures EncodeFrames([], f) == []
  {
  }

  lemma PcmIs(v: Conversion)
    ensures Pcm(v) == EncodeFrames(Resample(Frames(v.chunk), v.format.frequency, v.phase), v.format)
  {
  }

  /** Since the last enable or format request, a client has received the encoding of one stream resampled
      without a seam: for n source frames exactly n times rate / 48000 frames, rounded up. */
  lemma EveryRunStreams(run: seq<Client>, events: seq<Event>, n: nat)
    requires IsRun(run, events) && n < |run| && run[n].open
    ensures var a := run[n].audio; var frames := |Concat(Stream(a.run))|;
            && Payloads(Emitted(a.run)) == EncodeFrames(Streamed(Stream(a.run), a.format.frequency).0, a.format)
            && |Payloads(Emitted(a.run))| == (a.format.frequency * frames + SOURCE_RATE - 1) / SOURCE_RATE * FrameBytes(a.format)
  {
    hide IsRun, Inv, Concat, Stream, Streamed, Payloads, Emitted, EncodeFrames;
    Reachable(run, events, n);
    LiveStream(run[n]);
    RunLength(run[n].audio.run, run[n].audio.format);
  }

  lemma LiveStream(c: Client)
    requires c.open && Inv(c)
    ensures Chained(c.audio.run, c.audio.format)
  {
  }

  lemma RunLength(run: seq<Conversion>, f: SupportedFormat)
    requires Chained(run, f)
    ensures Payloads(Emitted(run)) == EncodeFrames(Streamed(Stream(run), f.frequency).0, f)
    ensures |Payloads(Emitted(run))| == (f.frequency * |Concat(Stream(run))| + SOURCE_RATE - 1) / SOURCE_RATE * FrameBytes(f)
  {
    hide Chained, Concat, Stream, Streamed, Payloads, Emitted, EncodeFrames, FrameBytes;
    RunIsStream(run, f);
    var (out, phase) := Streamed(Stream(run), f.frequency);
    EncodedLength(out, f);
    StreamNoDrift(Stream(run), f.frequency);
  }

  /** A round behind a JPEG closes the client exactly when its backlog would pass the limit, and otherwise
      keeps every chunk; a round with the JPEG done leaves nothing waiting. */
  lemma RoundDefersOrDrains(c: Client, chunks: seq<Chunk>, width: uint16, height: uint16, room: nat)
    requires c.open && Live(c) && c.audio.enabled
    ensures var c' := AudioRound(c, chunks, width, height, room);
            && (c.flight.Some? ==> (c'.open <==> Samples(c.audio.deferred + chunks) <= MAX_DEFERRED_SAMPLES))
            && (c.flight.Some? && c'.open ==> c'.audio.deferred == c.audio.deferred + chunks && c'.wire == c.wire)
            && (c.flight == None && c'.open ==> c'.audio.deferred == [])
  {
    AudioRoundKeeps(c, chunks, width, height, room);
    SamplesAppend(c.audio.deferred, chunks);
  }
}
