/** What one client's socket receives. JPEG frames go out piecemeal whenever the socket has room; audio,
    library replies and size changes compete for the same socket with blocking whole-message writes. */
module RfbOutput {
  import opened Base
  import opened RfbMessages
  import opened AudioConvert
  import TightLength

  type Chunk = seq<int16>

  /** Two seconds, in microseconds. */
  const FLUSH_TIMEOUT := 2_000_000
  const MAX_DEFERRED_SAMPLES := 48000
  const INT_MAX := 0x7fff_ffff

  datatype Frame = Frame(width: uint16, height: uint16, data: seq<byte>)

  /** The JPEG being written: how much of it is out, and since when. */
  datatype Flight = Flight(message: Message, written: nat, started: int)

  /** A completed message with the audio format in force when it was completed. */
  datatype Entry = Entry(message: Message, format: Format)

  /** One call of ConvertAudio. */
  datatype Conversion = Conversion(chunk: Chunk, format: SupportedFormat, phase: nat)

  /** accepted, older and run are history: the chunks dequeued for this client and not dropped by a
      disable request, and the conversions made before and since the resampler phase was last reset. */
  datatype Audio = Audio(supported: bool, capabilityPending: bool, enabled: bool, started: bool,
                         format: SupportedFormat, phase: nat, deferred: seq<Chunk>, deferredSamples: nat,
                         accepted: seq<Chunk>, older: seq<Conversion>, run: seq<Conversion>)

  datatype Request = Request(needUpdate: bool, forceUpdate: bool, continuousSupported: bool,
                             continuous: bool, lastSequence: nat)

  /** wire is every byte the socket took, log the messages completed. */
  datatype Client = Client(open: bool, wire: seq<byte>, log: seq<Entry>, flight: Option<Flight>,
                           audio: Audio, request: Request)

  const SILENT := Audio(false, false, false, false, Format(3, 2, 44100), 0, [], 0, [], [], [])

  function NewClient(): Client {
    Client(true, [], [], None, SILENT, Request(false, false, false, false, 0))
  }

  function Close(c: Client): Client { c.(open := false) }

  function Total(f: Flight): seq<byte> { Bytes(f.message) }

  // ---- blocking writes ----

  datatype Written = Written(client: Client, ok: bool, room: nat)

  /** rfbWriteExact: room is how many bytes the socket takes before a write fails. */
  function Put(c: Client, m: Message, room: nat): Written {
    if !c.open then Written(c, false, room)
    else if |Bytes(m)| <= room
    then Written(c.(wire := c.wire + Bytes(m), log := c.log + [Entry(m, c.audio.format)]), true, room - |Bytes(m)|)
    else Written(c.(wire := c.wire + Bytes(m)[..room]), false, 0)
  }

  function Replied(c: Client, bytes: seq<byte>, room: nat): Client {
    var w := Put(c, Library(bytes), room);
    if w.ok then w.client else Close(w.client)
  }

  // ---- JPEG frames ----

  /** SendJPEG and SendNativeJPEG refuse everything else. */
  predicate Acceptable(e: Encoding, data: seq<byte>) {
    match e
    case Tight => 0 < |data| <= TightLength.MAX_TIGHT_LENGTH
    case Native =>
      4 <= |data| <= INT_MAX && data[0] == 0xff && data[1] == 0xd8
      && data[|data| - 2] == 0xff && data[|data| - 1] == 0xd9
  }

  predicate CanQueue(c: Client, buffered: nat, e: Encoding, frame: Frame) {
    Acceptable(e, frame.data) && c.flight == None && buffered == 0
  }

  function Queue(c: Client, e: Encoding, frame: Frame, now: int): Client {
    c.(flight := Some(Flight(Jpeg(e, frame.width, frame.height, frame.data), 0, now)))
  }

  datatype Outcome = Sent(count: nat) | Again | Failed

  function Dropped(c: Client): Client { Close(c.(flight := None)) }

  /** FlushJPEGWrites for one client; a kernel that takes count bytes takes at most what it is offered. */
  function Flushed(c: Client, now: int, o: Outcome): Client {
    if !c.open || c.flight == None then c
    else if now - c.flight.value.started > FLUSH_TIMEOUT then Dropped(c)
    else match o
      case Failed => Dropped(c)
      case Again => c
      case Sent(count) => Advanced(c, count)
  }

  function Advanced(c: Client, count: nat): Client
    requires c.flight.Some?
  {
    var f := c.flight.value;
    var from := Min(f.written, |Total(f)|);
    var to := Min(from + count, |Total(f)|);
    var c' := c.(wire := c.wire + Total(f)[from..to]);
    if to == |Total(f)|
    then c'.(flight := None, log := c.log + [Entry(f.message, c.audio.format)])
    else c'.(flight := Some(f.(written := to)))
  }

  // ---- audio requests ----

  /** AudioEnableEncoding. */
  function Advertised(c: Client): Client {
    c.(audio := c.audio.(supported := true, capabilityPending := true))
  }

  /** The resampler starts a new run at phase zero. */
  function Rewound(a: Audio): Audio {
    a.(phase := 0, older := a.older + a.run, run := [])
  }

  /** Deferred chunks are thrown away. */
  function Discarded(a: Audio): Audio {
    a.(deferred := [], deferredSamples := 0, accepted := a.accepted[..Max(0, |a.accepted| - |a.deferred|)])
  }

  function Enabled(c: Client): Client {
    c.(audio := Rewound(c.audio.(enabled := true)))
  }

  function Disabled(c: Client, room: nat): Client {
    var w := if c.audio.started then Put(c, AudioEnd, room) else Written(c, true, room);
    var c' := if w.ok then w.client else Close(w.client);
    c'.(audio := Rewound(Discarded(c'.audio.(enabled := false, started := false))))
  }

  function Reformatted(c: Client, f: Format, room: nat): Client {
    if !Supported(f) then Close(c)
    else
      var w := if c.audio.started then Put(c, AudioEnd, room) else Written(c, true, room);
      if !w.ok then Close(w.client)
      else w.client.(audio := Rewound(c.audio.(started := false, format := f)))
  }

  /** AudioHandleMessage on the bytes that follow message type 255; a read beyond them fails. */
  function Requested(c: Client, input: seq<byte>, room: nat): Client {
    if |input| == 0 then Close(c)
    else if input[0] != 1 then c
    else if |input| < 3 || !c.audio.supported then Close(c)
    else
      var operation := ReadBE16(input[1..]);
      if operation == 0 then Enabled(c)
      else if operation == 1 then Disabled(c, room)
      else if operation == 2 && |input| >= 9 then Reformatted(c, Format(input[3], input[4], ReadBE32(input[5..])), room)
      else Close(c)
  }

  // ---- audio output ----

  function Samples(chunks: seq<Chunk>): nat {
    if chunks == [] then 0 else Samples(chunks[..|chunks| - 1]) + |chunks[|chunks| - 1]|
  }

  function Accept(c: Client, chunks: seq<Chunk>): Client {
    var a := c.audio;
    c.(audio := a.(deferred := a.deferred + chunks, deferredSamples := a.deferredSamples + Samples(chunks),
                   accepted := a.accepted + chunks))
  }

  function Announced(c: Client, width: uint16, height: uint16, room: nat): Written {
    var w := Put(c, AudioCapability(width, height), room);
    if w.ok then w.(client := w.client.(audio := c.audio.(capabilityPending := false))) else w
  }

  function Begun(c: Client, room: nat): Written {
    var w := Put(c, AudioBegin, room);
    if w.ok then w.(client := w.client.(audio := c.audio.(started := true))) else w
  }

  function Pcm(v: Conversion): seq<byte> { Converted(v.chunk, v.format, v.phase).0 }

  function Next(c: Client): Conversion
    requires c.audio.deferred != []
  {
    Conversion(c.audio.deferred[0], c.audio.format, c.audio.phase)
  }

  /** Converting the oldest deferred chunk. */
  function Popped(c: Client): Client
    requires c.audio.deferred != []
  {
    var a, rest := c.audio, c.audio.deferred[1..];
    c.(audio := a.(phase := Converted(a.deferred[0], a.format, a.phase).1, run := a.run + [Next(c)],
                   deferred := rest, deferredSamples := Samples(rest)))
  }

  /** SendAudioData: nothing to write for an empty packet, and no packet beyond the size field's range. */
  function Packet(c: Client, pcm: seq<byte>, room: nat): Written {
    if pcm == [] then Written(c, true, room)
    else if |pcm| > INT_MAX - 8 then Written(c, false, room)
    else Put(c, AudioData(pcm), room)
  }

  function SendDeferred(c: Client, room: nat): Client
    decreases |c.audio.deferred|
  {
    if c.audio.deferred == [] then c
    else
      var w := Packet(Popped(c), Pcm(Next(c)), room);
      if w.ok then SendDeferred(w.client, w.room)
      else Close(w.client.(audio := Discarded(w.client.audio)))
  }

  function Played(c: Client, room: nat): Client {
    if !c.audio.enabled || c.audio.deferred == [] then c
    else
      var w := if c.audio.started then Written(c, true, room) else Begun(c, room);
      if w.ok then SendDeferred(w.client, w.room) else Close(w.client)
  }

  /** ProcessAudio for one client. */
  function AudioRound(c: Client, chunks: seq<Chunk>, width: uint16, height: uint16, room: nat): Client {
    var a := if c.audio.enabled then Accept(c, chunks) else c;
    if a.audio.enabled && a.audio.deferredSamples > MAX_DEFERRED_SAMPLES then Close(a)
    else if a.flight.Some? then a
    else
      var w := if a.audio.capabilityPending then Announced(a, width, height, room) else Written(a, true, room);
      if w.ok then Played(w.client, w.room) else Close(w.client)
  }

  // ---- frame rounds ----

  datatype Wants = WantsJpeg(encoding: Encoding) | WantsFramebuffer

  /** What a frame round meets at one client: its choice of encoding, the library's unsent bytes, whether
      decoding works if tried, the library's update if any pixels are pending, and the room for it. */
  datatype Plan = Plan(wants: Wants, buffered: nat, decodes: bool, update: Option<seq<byte>>, room: nat)

  predicate Skips(c: Client, sequence: nat) {
    c.flight.Some? || !c.request.needUpdate || (!c.request.forceUpdate && c.request.lastSequence == sequence)
  }

  function Served(c: Client, sequence: nat): Client {
    c.(request := c.request.(needUpdate := c.request.continuous, forceUpdate := false, lastSequence := sequence))
  }

  /** The client is looked at in this round. */
  predicate Turn(c: Client, sequence: nat, due: bool) {
    !Skips(c, sequence) && (due || c.request.forceUpdate)
  }

  function Update(c: Client, sequence: nat, p: Plan): Client {
    if p.update == None then c
    else
      var w := Put(c, Library(p.update.value), p.room);
      if w.ok then Served(w.client, sequence) else Close(w.client)
  }

  /** ProcessFrame for one client; due tells whether the pacing of its encoding lets it through, decoded
      whether the round has decoded the frame already. */
  function FrameTurn(c: Client, frame: Frame, sequence: nat, now: int, due: bool, decoded: bool, p: Plan): Client {
    if !Turn(c, sequence, due) then c
    else match p.wants
      case WantsFramebuffer => if decoded || p.decodes then Update(c, sequence, p) else Close(c)
      case WantsJpeg(e) =>
        if CanQueue(c, p.buffered, e, frame) then Served(Queue(c, e, frame, now), sequence) else Close(c)
  }

  /** Resize for one client: the library's size message, or the end for clients that know no such thing. */
  function ResizeTurn(c: Client, understands: bool, bytes: seq<byte>, room: nat): Client {
    if !understands then Close(c)
    else
      var w := Put(c, Library(bytes), room);
      if w.ok
      then w.client.(request := c.request.(needUpdate := c.request.continuous, forceUpdate := false, lastSequence := 0))
      else Close(w.client)
  }

  // ---- one client as a state machine ----

  /** What the library does with one incoming message. */
  datatype Input =
    | Reply(bytes: seq<byte>, room: nat)
    | AudioMessage(bytes: seq<byte>, room: nat)
    | AudioEncoding
    | ContinuousEncoding
    | Continuous(payload: seq<byte>)
    | UpdateRequest(incremental: bool)
    | Hangup

  function Handled(c: Client, i: Input): Client {
    match i
    case Reply(bytes, room) => Replied(c, bytes, room)
    case AudioMessage(bytes, room) => Requested(c, bytes, room)
    case AudioEncoding => Advertised(c)
    case ContinuousEncoding => c.(request := c.request.(continuousSupported := true))
    case Continuous(payload) => Continued(c, payload)
    case UpdateRequest(incremental) =>
      c.(request := c.request.(needUpdate := true, forceUpdate := c.request.forceUpdate || !incremental))
    case Hangup => Close(c)
  }

  /** ContinuousHandleMessage on the nine payload bytes. */
  function Continued(c: Client, payload: seq<byte>): Client {
    if !c.request.continuousSupported then c
    else if |payload| < 9 then Close(c)
    else
      var on := payload[0] != 0;
      c.(request := c.request.(continuous := on, needUpdate := on, forceUpdate := on))
  }

  datatype Event =
    | Flush(now: int, outcome: Outcome)
    | Receive(input: Input)
    | Play(chunks: seq<Chunk>, width: uint16, height: uint16, room: nat)
    | Offer(frame: Frame, sequence: nat, now: int, due: bool, decoded: bool, plan: Plan)
    | NewSize(understands: bool, bytes: seq<byte>, room: nat)
    | Drop

  /** Incoming messages and size changes wait while a JPEG is being written. */
  predicate Possible(c: Client, ev: Event) {
    (ev.Receive? || ev.NewSize?) && c.open ==> c.flight == None
  }

  function Step(c: Client, ev: Event): Client {
    match ev
    case Flush(now, outcome) => Flushed(c, now, outcome)
    case Receive(input) => Handled(c, input)
    case Play(chunks, width, height, room) => AudioRound(c, chunks, width, height, room)
    case Offer(frame, sequence, now, due, decoded, plan) => FrameTurn(c, frame, sequence, now, due, decoded, plan)
    case NewSize(understands, bytes, room) => ResizeTurn(c, understands, bytes, room)
    case Drop => Close(c)
  }
}
