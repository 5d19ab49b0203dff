/** One client's record, updated in place. What the socket, the clock, the decoder and the library do arrives
    as parameters; every method is tied to the single-client machine of RfbOutput. */
module RfbClient {
  import opened Base
  import opened RfbMessages
  import opened AudioConvert
  import opened RfbOutput
  import opened RfbRuns
  import TightLength

  class ClientData {
    var sock: bool
    var request: Request
    var audio: Audio
    var pendingJpeg: Option<Frame>
    var jpegHeader: seq<byte>
    var jpegWritten: nat
    var jpegEncoding: Encoding
    var jpegStarted: int

    ghost var wire: seq<byte>
    ghost var log: seq<Entry>

    ghost function ViewFlight(): Option<Flight>
      reads this
    {
      match pendingJpeg
      case None => None
      case Some(frame) => Some(Flight(Jpeg(jpegEncoding, frame.width, frame.height, frame.data), jpegWritten, jpegStarted))
    }

    ghost function View(): Client
      reads this
    {
      Client(sock, wire, log, ViewFlight(), audio, request)
    }

    /** The header buffer belongs to the pending frame. */
    ghost predicate HeaderValid()
      reads this
    {
      pendingJpeg.Some? ==> HeaderOk(pendingJpeg.value, jpegHeader, jpegEncoding, jpegWritten)
    }

    ghost predicate Valid()
      reads this
    {
      Inv(View()) && HeaderValid()
    }

    constructor ()
      ensures View() == NewClient() && Valid()
    {
      sock, wire, log := true, [], [];
      request, audio := Request(false, false, false, false, 0), SILENT;
      pendingJpeg, jpegHeader, jpegWritten, jpegEncoding, jpegStarted := None, [], 0, Native, 0;
      new;
      NewClientOk();
    }

    method Close()
      modifies `sock
      ensures View() == RfbOutput.Close(old(View()))
    {
      sock := false;
    }

    /** rfbWriteExact. */
    method WriteExact(bytes: seq<byte>, ghost m: Message, room: nat) returns (ok: bool, left: nat)
      requires bytes == Bytes(m)
      modifies `wire, `log
      ensures Written(View(), ok, left) == Put(old(View()), m, room)
    {
      if !sock {
        return false, room;
      }
      if |bytes| <= room {
        wire := wire + bytes;
        log := log + [Entry(m, audio.format)];
        return true, room - |bytes|;
      }
      wire := wire + bytes[..room];
      return false, 0;
    }

    method SendAudioCapability(width: uint16, height: uint16, room: nat) returns (ok: bool, left: nat)
      modifies `wire, `log
      ensures Written(View(), ok, left) == Put(old(View()), AudioCapability(width, height), room)
    {
      var update: seq<byte> := [0, 0, 0, 1];
      var rectangle: seq<byte> := [0, 0, 0, 0] + BE16(width) + BE16(height) + [255, 255, 254, 253];
      assert update + rectangle == Bytes(AudioCapability(width, height));
      ok, left := WriteExact(update + rectangle, AudioCapability(width, height), room);
    }

    method SendAudioControl(begin: bool, room: nat) returns (ok: bool, left: nat)
      modifies `wire, `log
      ensures Written(View(), ok, left) == Put(old(View()), if begin then AudioBegin else AudioEnd, room)
    {
      var operation: byte := if begin then 1 else 0;
      ok, left := WriteExact([255, 1, 0, operation], if begin then AudioBegin else AudioEnd, room);
    }

    method SendAudioData(pcm: seq<byte>, room: nat) returns (ok: bool, left: nat)
      modifies `wire, `log
      ensures Written(View(), ok, left) == Packet(old(View()), pcm, room)
    {
      if pcm == [] {
        return true, room;
      }
      if |pcm| > INT_MAX - 8 {
        return false, room;
      }
      var size := |pcm| % 0x1_0000_0000;
      var message: seq<byte> := [255, 1, 0, 2];
      message := message + [size / 0x100_0000, size / 0x1_0000 % 0x100, size / 0x100 % 0x100, size % 0x100];
      SizeBytes(size);
      assert message + pcm == Bytes(AudioData(pcm));
      ok, left := WriteExact(message + pcm, AudioData(pcm), room);
    }

    /** `AudioHandleMessage`: the bytes behind message type 255, a peek first. */
    method AudioHandleMessage(input: seq<byte>, room: nat) returns (handled: bool)
      modifies `sock, `audio, `wire, `log
      ensures View() == Requested(old(View()), input, room)
      ensures !handled <==> |input| > 0 && input[0] != 1
    {
      hide Disabled, Reformatted, Rewound, ReadBE32;
      if |input| == 0 {
        Close();
        return true;
      }
      if input[0] != 1 {
        return false;
      }
      handled := true;
      if |input| < 3 || !audio.supported {
        Close();
        return;
      }
      var operation := input[1] as int * 0x100 + input[2] as int;
      assert ReadBE16(input[1..]) == operation;
      if operation == 0 {
        audio := audio.(enabled := true);
        Rewind();
      } else if operation == 1 {
        Disable(room);
      } else if operation == 2 && |input| >= 9 {
        SetFormat(Format(input[3], input[4], ReadBE32(input[5..])), room);
      } else {
        Close();
      }
    }

    method Disable(room: nat)
      modifies `sock, `audio, `wire, `log
      ensures View() == Disabled(old(View()), room)
    {
      hide Put, Rewound, Discarded;
      if audio.started {
        var ok, _ := SendAudioControl(false, room);
        if !ok {
          Close();
        }
      }
      audio := audio.(enabled := false, started := false);
      Discard();
      Rewind();
    }

    method SetFormat(f: Format, room: nat)
      modifies `sock, `audio, `wire, `log
      ensures View() == Reformatted(old(View()), f, room)
    {
      hide Put, Rewound;
      if f.sample > 5 || (f.channels != 1 && f.channels != 2) || f.frequency == 0 || f.frequency > SOURCE_RATE {
        Close();
        return;
      }
      if audio.started {
        var ok, _ := SendAudioControl(false, room);
        if !ok {
          Close();
          return;
        }
        audio := audio.(started := false);
      }
      audio := audio.(format := f);
      Rewind();
    }

    method Rewind()
      modifies `audio
      ensures audio == Rewound(old(audio))
    {
      audio := audio.(phase := 0, older := audio.older + audio.run, run := []);
    }

    method Discard()
      modifies `audio
      ensures audio == Discarded(old(audio))
    {
      audio := audio.(accepted := audio.accepted[..Max(0, |audio.accepted| - |audio.deferred|)],
                      deferred := [], deferredSamples := 0);
    }

    // ---- audio output ----

    method DeferAudio(shared: seq<Chunk>)
      modifies `audio
      ensures View() == Accept(old(View()), shared)
    {
      hide Samples;
      NoSamples();
      assert View() == Accept(old(View()), shared[..0]);
      for k := 0 to |shared|
        invariant View() == Accept(old(View()), shared[..k])
      {
        NextSource(old(View()), shared, k);
        audio := audio.(deferred := audio.deferred + [shared[k]], accepted := audio.accepted + [shared[k]],
                        deferredSamples := audio.deferredSamples + |shared[k]|);
      }
      assert shared[..|shared|] == shared;
    }

    method SendSource(source: Chunk, room: nat) returns (ok: bool, left: nat)
      modifies `audio, `wire, `log
      ensures var c, v := old(View()), Conversion(source, old(audio).format, old(audio).phase);
              Written(View(), ok, left) == Packet(Consumed(c, v), Pcm(v), room)
    {
      hide Converted, Packet;
      var v := Conversion(source, audio.format, audio.phase);
      var pcm, phase := ConvertSupported(source, audio.format, audio.phase);
      audio := audio.(phase := phase, run := audio.run + [v]);
      ok, left := SendAudioData(pcm, room);
    }

    method SendSources(sources: seq<Chunk>, room: nat) returns (ok: bool, sent: nat, ghost left: nat)
      modifies `audio, `wire, `log
      ensures sent <= |sources| && (ok ==> sent == |sources|)
      ensures SendDeferred(Remaining(old(View()), sources), room) ==
              if ok then SendDeferred(Remaining(View(), []), left) else GivenUp(Remaining(View(), sources[sent..]))
    {
      hide Samples, Converted, Packet, SendDeferred, Consumed, Remaining, GivenUp;
      var available := room;
      ok, sent := true, 0;
      assert sources[0..] == sources;
      while ok && sent < |sources|
        invariant sent <= |sources|
        invariant SendDeferred(Remaining(old(View()), sources), room) ==
                  if ok then SendDeferred(Remaining(View(), sources[sent..]), available)
                  else GivenUp(Remaining(View(), sources[sent..]))
        decreases |sources| - sent
      {
        SendDeferredOne(View(), sources[sent..], available);
        assert sources[sent..][1..] == sources[sent + 1..];
        ok, available := SendSource(sources[sent], available);
        sent := sent + 1;
      }
      assert ok ==> sources[sent..] == [];
      left := available;
    }

    /** The deferred chunks are converted and sent in order, then the queue is cleared, also when a write
        fails half way. */
    method SendDeferredAudio(room: nat) returns (ok: bool)
      requires audio.deferred != []
      modifies `audio, `wire, `log
      ensures (if ok then View() else RfbOutput.Close(View())) == SendDeferred(old(View()), room)
    {
      hide Samples, SendDeferred;
      var sources := audio.deferred;
      QueueIsMeasured(View(), room);
      var sent;
      ghost var left;
      ok, sent, left := SendSources(sources, room);
      NothingRemains(View(), left);
      assert audio.accepted[..|audio.accepted|] == audio.accepted;
      audio := audio.(accepted := audio.accepted[..Max(0, |audio.accepted| - (|sources| - sent))],
                      deferred := [], deferredSamples := 0);
    }

    /** The body of ProcessAudio for one client; false asks for the connection to be closed. */
    method ProcessAudio(shared: seq<Chunk>, width: uint16, height: uint16, room: nat) returns (keep: bool)
      modifies `audio, `wire, `log
      ensures (if keep then View() else RfbOutput.Close(View())) == AudioRound(old(View()), shared, width, height, room)
      ensures old(HeaderValid()) ==> HeaderValid()
    {
      hide Put, SendDeferred, Samples;
      if audio.enabled {
        DeferAudio(shared);
        if audio.deferredSamples > MAX_DEFERRED_SAMPLES {
          return false;
        }
      }
      if pendingJpeg.Some? {
        return true;
      }
      var left := room;
      if audio.capabilityPending {
        keep, left := SendAudioCapability(width, height, left);
        if !keep {
          return;
        }
        audio := audio.(capabilityPending := false);
      }
      if !audio.enabled || audio.deferred == [] {
        return true;
      }
      keep := StartAudio(left);
    }

    /** Begin if necessary, then the deferred chunks. */
    method StartAudio(room: nat) returns (keep: bool)
      requires audio.enabled && audio.deferred != []
      modifies `audio, `wire, `log
      ensures (if keep then View() else RfbOutput.Close(View())) == Played(old(View()), room)
    {
      hide Put, SendDeferred, Samples;
      var left := room;
      if !audio.started {
        keep, left := SendAudioControl(true, left);
        if !keep {
          return;
        }
        audio := audio.(started := true);
      }
      keep := SendDeferredAudio(left);
    }

    // ---- JPEG frames ----

    /** `QueueJPEG`; buffered is the library's own unsent output. */
    method QueueJPEG(frame: Frame, encoding: Encoding, buffered: nat, now: int) returns (ok: bool)
      modifies this
      ensures ok <==> old(pendingJpeg) == None && buffered == 0
      ensures View() == if ok then Queue(old(View()), encoding, frame, now) else old(View())
      ensures old(HeaderValid()) ==> HeaderValid()
    {
      hide JpegHeader;
      if pendingJpeg.Some? || buffered != 0 {
        return false;
      }
      jpegHeader := BuildHeader(encoding, frame.width, frame.height, |frame.data|);
      pendingJpeg := Some(frame);
      jpegWritten := 0;
      jpegEncoding := encoding;
      jpegStarted := now;
      return true;
    }

    /** `SendJPEG`. */
    method SendJPEG(frame: Frame, buffered: nat, now: int) returns (ok: bool)
      modifies this
      ensures ok <==> CanQueue(old(View()), buffered, Tight, frame)
      ensures View() == if ok then Queue(old(View()), Tight, frame, now) else old(View())
      ensures old(HeaderValid()) ==> HeaderValid()
    {
      if |frame.data| == 0 || |frame.data| > 0x3f_ffff {
        return false;
      }
      ok := QueueJPEG(frame, Tight, buffered, now);
    }

    /** `SendNativeJPEG`: start and end markers have to be there. */
    method SendNativeJPEG(frame: Frame, buffered: nat, now: int) returns (ok: bool)
      modifies this
      ensures ok <==> CanQueue(old(View()), buffered, Native, frame)
      ensures View() == if ok then Queue(old(View()), Native, frame, now) else old(View())
      ensures old(HeaderValid()) ==> HeaderValid()
    {
      var data := frame.data;
      if |data| < 4 || |data| > INT_MAX || data[0] != 0xff || data[1] != 0xd8
         || data[|data| - 2] != 0xff || data[|data| - 1] != 0xd9 {
        return false;
      }
      ok := QueueJPEG(frame, Native, buffered, now);
    }

    /** The body of FlushJPEGWrites: header and payload as two chunks, from where the last write stopped. */
    method FlushJPEG(now: int, o: Outcome)
      requires Valid()
      modifies this
      ensures View() == Flushed(old(View()), now, o) && Valid()
    {
      hide Inv, Advanced;
      FlushKeeps(View(), now, o);
      if !sock || pendingJpeg == None {
        return;
      }
      if now - jpegStarted > FLUSH_TIMEOUT {
        pendingJpeg := None;
        Close();
        return;
      }
      match o
      case Failed =>
        pendingJpeg := None;
        Close();
      case Again =>
      case Sent(count) => WriteJpeg(count);
    }

    /** rfbSendFramebufferUpdate, and every other reply of the library. */
    method SendLibrary(bytes: seq<byte>, room: nat) returns (ok: bool)
      modifies `wire, `log
      ensures var w := Put(old(View()), Library(bytes), room); View() == w.client && ok == w.ok
    {
      var left;
      ok, left := WriteExact(bytes, Library(bytes), room);
    }

    /** What the library does with one incoming message, through the hooks of this server. */
    method Receive(i: Input)
      modifies this
      ensures View() == Handled(old(View()), i)
      ensures old(HeaderValid()) ==> HeaderValid()
    {
      hide Put, Requested, HeaderOk;
      match i
      case Reply(bytes, room) =>
        var ok := SendLibrary(bytes, room);
        if !ok {
          Close();
        }
      case AudioMessage(bytes, room) =>
        var handled := AudioHandleMessage(bytes, room);
      case AudioEncoding => audio := audio.(supported := true, capabilityPending := true);
      case ContinuousEncoding => request := request.(continuousSupported := true);
      case Continuous(payload) => ContinuousHandleMessage(payload);
      case UpdateRequest(incremental) =>
        request := request.(needUpdate := true, forceUpdate := request.forceUpdate || !incremental);
      case Hangup => Close();
    }

    /** rfbCheckFds at one client. */
    method CheckFd(readable: bool, inputs: seq<Input>, kicked: bool)
      requires Valid() && (readable ==> pendingJpeg == None)
      modifies this
      ensures View() == Checked(old(View()), readable, inputs, kicked) && Valid()
    {
      hide Inv, Handled, HeaderOk;
      CheckedKeeps(View(), readable, inputs, kicked);
      if readable {
        var k := 0;
        assert inputs[0..] == inputs;
        while sock && k < |inputs|
          invariant k <= |inputs| && Received(View(), inputs[k..]) == Received(old(View()), inputs)
          invariant HeaderValid()
          decreases |inputs| - k
        {
          assert inputs[k..][1..] == inputs[k + 1..];
          Receive(inputs[k]);
          k := k + 1;
        }
      }
      if kicked {
        Close();
      }
    }

    method ContinuousHandleMessage(payload: seq<byte>)
      modifies `request, `sock
      ensures View() == Continued(old(View()), payload)
    {
      if !request.continuousSupported {
        return;
      }
      if |payload| < 9 {
        Close();
        return;
      }
      var enabled := payload[0] != 0;
      request := request.(continuous := enabled, needUpdate := enabled, forceUpdate := enabled);
    }

    /** The body of Resize for one client; false asks for the connection to be closed. */
    method AnnounceSize(m: SizeMessage) returns (keep: bool)
      modifies `wire, `log, `request
      ensures (if keep then View() else RfbOutput.Close(View())) == Announce(old(View()), m)
    {
      hide Put;
      if !m.understands {
        return false;
      }
      keep := SendLibrary(m.bytes, m.room);
      if keep {
        request := request.(needUpdate := request.continuous, forceUpdate := false, lastSequence := 0);
      }
    }

    method MarkServed(sequence: nat)
      modifies `request
      ensures View() == Served(old(View()), sequence)
    {
      request := request.(needUpdate := request.continuous, forceUpdate := false, lastSequence := sequence);
    }

    method OfferJpeg(frame: Frame, encoding: Encoding, sequence: nat, now: int, buffered: nat) returns (ok: bool)
      modifies this
      ensures ok == CanQueue(old(View()), buffered, encoding, frame)
      ensures View() == if ok then Served(Queue(old(View()), encoding, frame, now), sequence) else old(View())
      ensures old(HeaderValid()) ==> HeaderValid()
    {
      hide CanQueue, Queue, HeaderOk;
      if encoding == Native {
        ok := SendNativeJPEG(frame, buffered, now);
      } else {
        ok := SendJPEG(frame, buffered, now);
      }
      if ok {
        MarkServed(sequence);
      }
    }

    method OfferFramebuffer(sequence: nat, p: Plan) returns (ok: bool, sent: bool)
      modifies `wire, `log, `request
      ensures (if ok then View() else RfbOutput.Close(View())) == Update(old(View()), sequence, p)
      ensures sent == UpdateSent(old(View()), p)
    {
      hide Put;
      if p.update == None {
        return true, false;
      }
      ok := SendLibrary(p.update.value, p.room);
      sent := ok;
      if ok {
        MarkServed(sequence);
      }
    }

    /** The body of ProcessFrame for one client; false asks for the connection to be closed. */
    method ProcessFrame(frame: Frame, sequence: nat, now: int, due: bool, p: Plan, before: Round)
        returns (keep: bool, after: Round)
      modifies this
      ensures (if keep then View() else RfbOutput.Close(View())) ==
              FrameTurn(old(View()), frame, sequence, now, due, before.decoded, p)
      ensures after == RoundAfter(before, old(View()), frame, sequence, due, p)
      ensures old(HeaderValid()) ==> HeaderValid()
    {
      hide UpdateSent, CanQueue, Queue, Served, Update, HeaderOk;
      after := before;
      if pendingJpeg.Some? || !request.needUpdate || (!request.forceUpdate && request.lastSequence == sequence)
         || (!due && !request.forceUpdate) {
        return true, after;
      }
      match p.wants
      case WantsJpeg(encoding) =>
        keep := OfferJpeg(frame, encoding, sequence, now, p.buffered);
        after := after.(sentJpeg := after.sentJpeg || keep);
      case WantsFramebuffer =>
        if !after.decoded && !p.decodes {
          return false, after;
        }
        var sent;
        after := after.(decoded := true);
        keep, sent := OfferFramebuffer(sequence, p);
        after := after.(sentFramebuffer := after.sentFramebuffer || sent);
    }

    method WriteJpeg(count: nat)
      requires pendingJpeg.Some? && HeaderValid()
      modifies this
      ensures View() == Advanced(old(View()), count) && HeaderValid()
    {
      hide JpegHeader, Advanced, Total;
      var frame := pendingJpeg.value;
      var chunks := if jpegWritten < |jpegHeader| then jpegHeader[jpegWritten..] else [];
      var offset := if jpegWritten > |jpegHeader| then jpegWritten - |jpegHeader| else 0;
      ChunksAreRest(jpegHeader, frame.data, jpegWritten);
      TotalIs(ViewFlight().value, jpegHeader, frame.data);
      AdvancedIs(View(), jpegHeader, frame.data, count);
      var sent := Min(count, |chunks + frame.data[offset..]|);
      wire := wire + (chunks + frame.data[offset..])[..sent];
      jpegWritten := jpegWritten + sent;
      if jpegWritten == |jpegHeader| + |frame.data| {
        log := log + [Entry(Jpeg(jpegEncoding, frame.width, frame.height, frame.data), audio.format)];
        pendingJpeg := None;
      }
    }
  }

  /** Messages are handled until one closes the connection. */
  function Received(c: Client, inputs: seq<Input>): Client
    decreases |inputs|
  {
    if !c.open || inputs == [] then c else Received(Handled(c, inputs[0]), inputs[1..])
  }

  function Checked(c: Client, readable: bool, inputs: seq<Input>, kicked: bool): Client {
    var c' := if readable then Received(c, inputs) else c;
    if kicked then RfbOutput.Close(c') else c'
  }

  lemma HandledFlight(c: Client, i: Input)
    ensures Handled(c, i).flight == c.flight
  {
    hide Supported, ReadBE16, ReadBE32, Bytes;
  }

  lemma {:induction false} ReceivedKeeps(c: Client, inputs: seq<Input>)
    requires Inv(c) && c.flight == None
    ensures Inv(Received(c, inputs))
    decreases |inputs|
  {
    hide Inv, Handled;
    if c.open && inputs != [] {
      StepKeeps(c, Event.Receive(inputs[0]));
      HandledFlight(c, inputs[0]);
      ReceivedKeeps(Handled(c, inputs[0]), inputs[1..]);
    }
  }

  lemma CheckedKeeps(c: Client, readable: bool, inputs: seq<Input>, kicked: bool)
    requires Inv(c) && (readable ==> c.flight == None)
    ensures Inv(Checked(c, readable, inputs, kicked))
  {
    hide Inv, Received;
    var c' := if readable then Received(c, inputs) else c;
    if readable { ReceivedKeeps(c, inputs); }
    StepKeeps(c', Drop);
  }

  /** The library's part in a resize: whether a client understands size changes, the message, and the room. */
  datatype SizeMessage = SizeMessage(understands: bool, bytes: seq<byte>, room: nat)

  const NO_SIZE := SizeMessage(false, [], 0)

  function Announce(c: Client, m: SizeMessage): Client {
    ResizeTurn(c, m.understands, m.bytes, m.room)
  }

  /** The part of a frame round that is shared between the clients. */
  datatype Round = Round(decoded: bool, sentJpeg: bool, sentFramebuffer: bool)

  /** What one client's turn adds to it. */
  function RoundAfter(r: Round, c: Client, frame: Frame, sequence: nat, due: bool, p: Plan): Round {
    if !Turn(c, sequence, due) then r
    else match p.wants
      case WantsJpeg(e) => r.(sentJpeg := r.sentJpeg || CanQueue(c, p.buffered, e, frame))
      case WantsFramebuffer =>
        var decoded := r.decoded || p.decodes;
        r.(decoded := decoded, sentFramebuffer := r.sentFramebuffer || (decoded && UpdateSent(c, p)))
  }

  predicate UpdateSent(c: Client, p: Plan) {
    p.update.Some? && Put(c, Library(p.update.value), p.room).ok
  }

  /** The two chunks offered to the kernel are what is left of header and payload. */
  lemma ChunksAreRest(header: seq<byte>, data: seq<byte>, written: nat)
    requires written <= |header| + |data|
    ensures (if written < |header| then header[written..] else []) + data[if written > |header| then written - |header| else 0..]
            == (header + data)[written..]
  {
  }

  lemma TotalIs(f: Flight, header: seq<byte>, data: seq<byte>)
    requires f.message.Jpeg? && f.message.payload == data
    requires header == JpegHeader(f.message.encoding, f.message.width, f.message.height, |data|)
    ensures Total(f) == header + data
  {
  }

  lemma AdvancedIs(c: Client, header: seq<byte>, data: seq<byte>, count: nat)
    requires c.flight.Some? && Total(c.flight.value) == header + data && c.flight.value.written <= |header| + |data|
    ensures var f := c.flight.value; var rest := (header + data)[f.written..]; var sent := Min(count, |rest|);
            var c' := c.(wire := c.wire + rest[..sent]);
            Advanced(c, count) == if sent == |rest| then c'.(flight := None, log := c.log + [Entry(f.message, c.audio.format)])
                                  else c'.(flight := Some(f.(written := f.written + sent)))
  {
    hide Total;
    var f := c.flight.value;
    var rest := (header + data)[f.written..];
    var sent := Min(count, |rest|);
    assert rest[..sent] == (header + data)[f.written..f.written + sent];
  }

  /** The header buffer filled by QueueJPEG. */
  method BuildHeader(encoding: Encoding, width: uint16, height: uint16, size: nat) returns (bytes: seq<byte>)
    ensures bytes == JpegHeader(encoding, width, height, size)
  {
    var update: seq<byte> := [0, 0, 0, 1];
    var rectangle := [0, 0, 0, 0] + BE16(width) + BE16(height) + (if encoding == Tight then TIGHT_CODE else NATIVE_CODE);
    var header := new byte[20];
    CopyInto(header, update + rectangle);
    var end := 16;
    if encoding == Tight {
      end := TightLength.CppTightHeader(header, end, size);
    }
    assert header[..end] == header[..16] + header[16..end];
    bytes := header[..end];
    assert update + rectangle == Rectangle(width, height, if encoding == Tight then TIGHT_CODE else NATIVE_CODE);
  }

  method CopyInto(header: array<byte>, bytes: seq<byte>)
    requires |bytes| == 16 <= header.Length
    modifies header
    ensures header[..16] == bytes
  {
    for k := 0 to 16
      invariant header[..k] == bytes[..k]
    {
      header[k] := bytes[k];
    }
  }

  ghost predicate HeaderOk(frame: Frame, header: seq<byte>, e: Encoding, written: nat) {
    header == JpegHeader(e, frame.width, frame.height, |frame.data|) && written <= |header| + |frame.data|
  }

  /** The record as if only rest were still queued. */
  function Remaining(c: Client, rest: seq<Chunk>): Client {
    c.(audio := c.audio.(deferred := rest, deferredSamples := Samples(rest)))
  }

  lemma NextSource(c: Client, shared: seq<Chunk>, k: nat)
    requires k < |shared|
    ensures Accept(c, shared[..k + 1]) ==
            var a := Accept(c, shared[..k]).audio;
            c.(audio := a.(deferred := a.deferred + [shared[k]], accepted := a.accepted + [shared[k]],
                           deferredSamples := a.deferredSamples + |shared[k]|))
  {
    var longer := shared[..k + 1];
    assert longer[..k] == shared[..k] && longer == shared[..k] + [shared[k]];
  }

  lemma QueueIsMeasured(c: Client, room: nat)
    requires c.audio.deferred != []
    ensures SendDeferred(c, room) == SendDeferred(Remaining(c, c.audio.deferred), room)
  {
    hide Packet, Converted;
    assert Popped(c) == Popped(Remaining(c, c.audio.deferred));
  }

  /** The resampler has moved over one chunk that is still queued. */
  function Consumed(c: Client, v: Conversion): Client {
    c.(audio := c.audio.(phase := Converted(v.chunk, v.format, v.phase).1, run := c.audio.run + [v]))
  }

  /** The end of a client after a failed packet. */
  function GivenUp(c: Client): Client {
    RfbOutput.Close(c.(audio := Discarded(c.audio)))
  }

  lemma SendDeferredOne(c: Client, rest: seq<Chunk>, room: nat)
    requires rest != []
    ensures var v := Conversion(rest[0], c.audio.format, c.audio.phase);
            var w := Packet(Consumed(c, v), Pcm(v), room);
            SendDeferred(Remaining(c, rest), room) ==
            if w.ok then SendDeferred(Remaining(w.client, rest[1..]), w.room) else GivenUp(Remaining(w.client, rest[1..]))
  {
    hide Converted, Samples, Bytes;
  }

  lemma NothingRemains(c: Client, room: nat)
    ensures SendDeferred(Remaining(c, []), room) == c.(audio := c.audio.(deferred := [], deferredSamples := 0))
  {
    hide Packet, Popped;
    NoSamples();
  }

  lemma SizeBytes(size: nat)
    requires size < 0x1_0000_0000
    ensures BE32(size) == [size / 0x100_0000, size / 0x1_0000 % 0x100, size / 0x100 % 0x100, size % 0x100]
  {
    var high, low := size / 0x1_0000, size % 0x1_0000;
    Digits(size, high / 0x100, high % 0x100, low / 0x100, low % 0x100);
  }

  lemma Digits(size: nat, a: nat, b: nat, c: nat, d: nat)
    requires a < 0x100 && b < 0x100 && c < 0x100 && d < 0x100
    requires size == a * 0x100_0000 + b * 0x1_0000 + c * 0x100 + d
    ensures size / 0x100_0000 == a && size / 0x1_0000 % 0x100 == b && size / 0x100 % 0x100 == c && size % 0x100 == d
  {
    assert size / 0x1_0000 == a * 0x100 + b;
    assert size / 0x100 == (a * 0x100 + b) * 0x100 + c;
  }
}
