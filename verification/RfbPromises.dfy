/** What the operations on one client amount to, told from outside: which messages they put on the wire, when
    they end the connection, and what a client has been promised by everything that happened to it so far. */
module RfbPromises {
  import opened Base
  import opened RfbMessages
  import opened AudioConvert
  import opened RfbOutput
  import opened RfbRuns
  import TightLength

  // ---- flushing ----

  /** A flush ends the connection exactly for a failure or after two seconds, without another byte; a full
      socket changes nothing. */
  lemma FlushExactly(c: Client, now: int, o: Outcome)
    requires c.open && c.flight.Some?
    ensures var c', late := Flushed(c, now, o), now - c.flight.value.started > 2_000_000;
            && (c'.open <==> !late && o != Failed)
            && (!c'.open ==> c'.flight == None && c'.wire == c.wire && c'.log == c.log)
            && (!late && o == Again ==> c' == c)
            && (!late && o.Sent? ==> c.wire <= c'.wire && |c'.wire| <= |c.wire| + o.count)
  {
  }

  // ---- single writes ----

  /** What a client has been sent, as messages. */
  predicate Says(c: Client, c': Client, messages: seq<Message>) {
    Messages(c'.log) == Messages(c.log) + messages
  }

  /** A blocking write succeeds exactly when the socket takes all of it, and otherwise leaves what it took. */
  lemma PutExactly(c: Client, m: Message, room: nat)
    ensures var w := Put(c, m, room);
            && (w.ok <==> c.open && |Bytes(m)| <= room)
            && w.client.audio == c.audio && w.client.request == c.request && w.client.flight == c.flight
            && w.client.open == c.open
            && (w.ok ==> w.room == room - |Bytes(m)| && Says(c, w.client, [m]))
            && (!w.ok ==> w.client.log == c.log)
            && (c.open ==> c.wire <= w.client.wire && w.client.wire[|c.wire|..] == Bytes(m)[..Min(room, |Bytes(m)|)])
  {
    hide Bytes;
    var w := Put(c, m, room);
    if w.ok { MessagesGrow(c.log, Entry(m, c.audio.format)); }
  }

  lemma MessagesGrow(log: seq<Entry>, e: Entry)
    ensures Messages(log + [e]) == Messages(log) + [e.message]
  {
  }

  lemma ReplyExactly(c: Client, bytes: seq<byte>, room: nat)
    requires c.open
    ensures var c' := Replied(c, bytes, room);
            && (c'.open <==> |bytes| <= room)
            && (c'.open ==> Says(c, c', [Library(bytes)]) && c'.audio == c.audio && c'.request == c.request)
  {
    PutExactly(c, Library(bytes), room);
  }

  // ---- audio requests ----

  /** Enabling writes nothing and starts the resampler over; a session that is open stays open. */
  lemma EnableExactly(c: Client)
    ensures var a, c' := c.audio, Enabled(c); var a' := c'.audio;
            && c' == c.(audio := a')
            && a'.enabled && a'.phase == 0 && a'.run == [] && a'.older == a.older + a.run
            && a' == a.(enabled := true, phase := 0, run := [], older := a'.older)
  {
  }

  /** Disabling ends an open session with one End and forgets what still waits. */
  lemma DisableExactly(c: Client, room: nat)
    requires c.open
    ensures var a, c' := c.audio, Disabled(c, room); var a' := c'.audio;
            && (c'.open <==> !a.started || room >= 4)
            && (c'.open ==> Says(c, c', if a.started then [AudioEnd] else []))
            && !a'.enabled && !a'.started && a'.deferred == [] && a'.deferredSamples == 0 && a'.phase == 0
            && a'.format == a.format && a'.supported == a.supported && a'.capabilityPending == a.capabilityPending
            && a'.older + a'.run == a.older + a.run && c'.request == c.request && c'.flight == c.flight
  {
    hide Bytes;
    EndBytes();
    PutExactly(c, AudioEnd, room);
    assert Messages(c.log) + [] == Messages(c.log);
    assert (c.audio.older + c.audio.run) + [] == c.audio.older + c.audio.run;
  }

  lemma EndBytes()
    ensures |Bytes(AudioEnd)| == 4 && |Bytes(AudioBegin)| == 4
  {
  }

  /** A format request ends an open session with one End and switches the format for everything converted
      from then on, the waiting chunks included; a format outside the supported ones ends the connection. */
  lemma ReformatExactly(c: Client, f: Format, room: nat)
    requires c.open
    ensures var a, c' := c.audio, Reformatted(c, f, room); var a' := c'.audio;
            var valid := f.sample <= 5 && (f.channels == 1 || f.channels == 2) && 1 <= f.frequency <= 48000;
            && (c'.open <==> valid && (!a.started || room >= 4))
            && (c'.open ==>
                  && Says(c, c', if a.started then [AudioEnd] else [])
                  && !a'.started && a'.format == f && a'.phase == 0 && a'.enabled == a.enabled
                  && a'.supported == a.supported && a'.capabilityPending == a.capabilityPending
                  && a'.deferred == a.deferred && a'.deferredSamples == a.deferredSamples
                  && a'.older + a'.run == a.older + a.run && c'.request == c.request && c'.flight == c.flight)
  {
    hide Bytes;
    EndBytes();
    PutExactly(c, AudioEnd, room);
    assert Messages(c.log) + [] == Messages(c.log);
    assert (c.audio.older + c.audio.run) + [] == c.audio.older + c.audio.run;
  }

  // ---- what a client was told about audio ----

  datatype Told = Told(supported: bool, enabled: bool, format: Format)

  /** Support, the last enable or disable, and the last format, from the requests alone. */
  function AudioTold(events: seq<Event>): Told {
    if events == [] then Told(false, false, Format(3, 2, 44100))
    else ToldNext(AudioTold(events[..|events| - 1]), events[|events| - 1])
  }

  function ToldNext(t: Told, ev: Event): Told {
    if ev == Receive(AudioEncoding) then t.(supported := true)
    else if ev.Receive? && ev.input.AudioMessage? then AfterRequest(t, ev.input.bytes)
    else t
  }

  /** Submessage 1, a 16-bit operation, and for operation 2 sample format, channels and a 32-bit rate. */
  function AfterRequest(t: Told, s: seq<byte>): Told {
    if |s| < 3 || s[0] != 1 then t
    else if s[1] == 0 && s[2] == 0 then t.(enabled := true)
    else if s[1] == 0 && s[2] == 1 then t.(enabled := false)
    else if s[1] == 0 && s[2] == 2 && |s| >= 9
    then t.(format := Format(s[3], s[4], s[5] as int * 0x100_0000 + s[6] as int * 0x1_0000 + s[7] as int * 0x100 + s[8] as int))
    else t
  }

  ghost predicate AsTold(c: Client, t: Told) {
    c.open ==> c.audio.supported == t.supported && c.audio.enabled == t.enabled && c.audio.format == t.format
  }

  lemma RequestedAsTold(c: Client, t: Told, s: seq<byte>, room: nat)
    requires AsTold(c, t)
    ensures AsTold(Requested(c, s, room), AfterRequest(t, s))
  {
    hide Enabled, Disabled, Reformatted, ReadBE32;
    if |s| >= 3 && s[0] == 1 {
      assert ReadBE16(s[1..]) == s[1] as int * 0x100 + s[2] as int;
      if |s| >= 9 {
        RateOf(s);
        TellFormat(c, Format(s[3], s[4], ReadBE32(s[5..])), room);
      }
      TellDisable(c, room);
      EnableExactly(c);
    }
  }

  lemma RateOf(s: seq<byte>)
    requires |s| >= 9
    ensures ReadBE32(s[5..]) == s[5] as int * 0x100_0000 + s[6] as int * 0x1_0000 + s[7] as int * 0x100 + s[8] as int
  {
  }

  lemma TellFormat(c: Client, f: Format, room: nat)
    ensures var c' := Reformatted(c, f, room);
            c'.open ==> c.open && c'.audio.format == f && c'.audio.enabled == c.audio.enabled && c'.audio.supported == c.audio.supported
  {
    hide Bytes;
  }

  lemma TellDisable(c: Client, room: nat)
    ensures var c' := Disabled(c, room);
            c'.open ==> c.open && c'.audio.format == c.audio.format && !c'.audio.enabled && c'.audio.supported == c.audio.supported
  {
    hide Bytes;
  }

  lemma HandledAsTold(c: Client, t: Told, i: Input)
    requires AsTold(c, t)
    ensures AsTold(Handled(c, i), ToldNext(t, Receive(i)))
  {
    hide Requested, AfterRequest, Bytes;
    if i.AudioMessage? { RequestedAsTold(c, t, i.bytes, i.room); }
  }

  lemma {:induction false} DeferredKeepsTold(c: Client, room: nat)
    ensures var c' := SendDeferred(c, room);
            && (c'.open ==> c.open) && c'.request == c.request && c'.flight == c.flight
            && c'.audio.supported == c.audio.supported && c'.audio.enabled == c.audio.enabled
            && c'.audio.format == c.audio.format && c'.audio.started == c.audio.started
            && c'.audio.capabilityPending == c.audio.capabilityPending && c'.audio.older == c.audio.older
    decreases |c.audio.deferred|
  {
    hide Converted, Samples, Bytes, Put;
    if c.audio.deferred != [] {
      var w := Packet(Popped(c), Pcm(Next(c)), room);
      PutExactly(Popped(c), AudioData(Pcm(Next(c))), room);
      if w.ok { DeferredKeepsTold(w.client, w.room); }
    }
  }

  lemma RoundKeepsTold(c: Client, chunks: seq<Chunk>, width: uint16, height: uint16, room: nat)
    ensures var c' := AudioRound(c, chunks, width, height, room);
            && (c'.open ==> c.open) && c'.request == c.request && c'.flight == c.flight
            && c'.audio.supported == c.audio.supported && c'.audio.enabled == c.audio.enabled && c'.audio.format == c.audio.format
            && c'.audio.older == c.audio.older
  {
    hide Samples, Bytes, SendDeferred, Put;
    var a := if c.audio.enabled then Accept(c, chunks) else c;
    var w := if a.audio.capabilityPending then Announced(a, width, height, room) else Written(a, true, room);
    var b := if w.client.audio.started then Written(w.client, true, w.room) else Begun(w.client, w.room);
    PutExactly(a, AudioCapability(width, height), room);
    PutExactly(w.client, AudioBegin, w.room);
    DeferredKeepsTold(b.client, b.room);
  }

  lemma StepAsTold(c: Client, t: Told, ev: Event)
    requires AsTold(c, t)
    ensures AsTold(Step(c, ev), ToldNext(t, ev))
  {
    hide Handled, AudioRound, AfterRequest, Bytes;
    match ev
    case Receive(i) => HandledAsTold(c, t, i);
    case Play(chunks, width, height, room) => RoundKeepsTold(c, chunks, width, height, room);
    case _ =>
  }

  /** In every run an open client's audio is as the requests alone say. */
  lemma {:induction false} EveryRunDoesAsTold(run: seq<Client>, events: seq<Event>, n: nat)
    requires IsRun(run, events) && n < |run|
    ensures AsTold(run[n], AudioTold(events[..n]))
  {
    hide Step, AfterRequest, Possible;
    if n > 0 {
      EveryRunDoesAsTold(run, events, n - 1);
      assert events[..n][..n - 1] == events[..n - 1];
      StepAsTold(run[n - 1], AudioTold(events[..n - 1]), events[n - 1]);
    }
  }

  // ---- one audio round ----

  /** The conversions of a queue, each starting at the phase the one before left. */
  function Conversions(queue: seq<Chunk>, f: SupportedFormat, phase: nat): seq<Conversion> {
    if queue == [] then []
    else [Conversion(queue[0], f, phase)] + Conversions(queue[1..], f, Converted(queue[0], f, phase).1)
  }

  /** A Data message for every conversion that gives anything. */
  function Packets(run: seq<Conversion>): seq<Message> {
    if run == [] then []
    else (if Pcm(run[0]) == [] then [] else [AudioData(Pcm(run[0]))]) + Packets(run[1..])
  }

  /** No packet is beyond the size field's range. */
  predicate Fits(run: seq<Conversion>) {
    run == [] || (|Pcm(run[0])| <= 0x7fff_ffff - 8 && Fits(run[1..]))
  }

  function Front(run: seq<Conversion>): seq<Message>
    requires run != []
  {
    if Pcm(run[0]) == [] then [] else [AudioData(Pcm(run[0]))]
  }

  /** The first conversion and the others. */
  lemma PacketsFront(run: seq<Conversion>)
    requires run != []
    ensures Packets(run) == Front(run) + Packets(run[1..])
    ensures |Flatten(Packets(run))| ==
            (if Pcm(run[0]) == [] then 0 else |Bytes(AudioData(Pcm(run[0])))|) + |Flatten(Packets(run[1..]))|
  {
    hide Bytes, Pcm, Flatten;
    var m := AudioData(Pcm(run[0]));
    if Pcm(run[0]) == [] {
      assert [] + Packets(run[1..]) == Packets(run[1..]);
    } else {
      FlattenFront(m, Packets(run[1..]));
    }
  }

  lemma SaysMore(a: Client, b: Client, c: Client, first: seq<Message>, second: seq<Message>)
    requires Says(a, b, first) && Says(b, c, second)
    ensures Says(a, c, first + second)
  {
    Associate(Messages(a.log), first, second);
  }

  lemma SaysNothing(a: Client, b: Client)
    requires a.log == b.log
    ensures Says(a, b, [])
  {
    assert Messages(a.log) + [] == Messages(a.log);
  }

  lemma ConversionsFront(c: Client)
    requires c.audio.deferred != []
    ensures var made := Conversions(c.audio.deferred, c.audio.format, c.audio.phase); var p := Popped(c);
            && made != [] && made[0] == Next(c)
            && made[1..] == Conversions(p.audio.deferred, p.audio.format, p.audio.phase)
            && p.audio.run + made[1..] == c.audio.run + made
  {
    hide Converted, Samples;
    var made := Conversions(c.audio.deferred, c.audio.format, c.audio.phase);
    Associate(c.audio.run, [made[0]], made[1..]);
    assert [made[0]] + made[1..] == made;
  }

  /** The whole queue goes out in order if the socket takes it, and otherwise the connection ends. */
  lemma {:induction false} SendDeferredExactly(c: Client, room: nat)
    requires c.open
    ensures var c', made := SendDeferred(c, room), Conversions(c.audio.deferred, c.audio.format, c.audio.phase);
            && (c'.open <==> Fits(made) && |Flatten(Packets(made))| <= room)
            && (c'.open ==> Says(c, c', Packets(made)) && c'.audio.run == c.audio.run + made && c'.audio.deferred == [])
    decreases |c.audio.deferred|
  {
    hide Converted, Samples, Bytes, Flatten, Put, Says, Pcm, Conversions, Packets;
    if c.audio.deferred == [] {
      NothingToSend(c);
    } else {
      var made := Conversions(c.audio.deferred, c.audio.format, c.audio.phase);
      ConversionsFront(c);
      PacketsFront(made);
      var p, v := Popped(c), Next(c);
      PutExactly(p, AudioData(Pcm(v)), room);
      var w := Packet(p, Pcm(v), room);
      if w.ok {
        SendDeferredExactly(w.client, w.room);
        SaysNothing(c, p);
        FirstPacket(c, p, w.client, room);
        if SendDeferred(c, room).open {
          SaysMore(c, w.client, SendDeferred(c, room), Front(made), Packets(made[1..]));
        }
      }
    }
  }

  lemma NothingToSend(c: Client)
    requires c.audio.deferred == []
    ensures var made := Conversions(c.audio.deferred, c.audio.format, c.audio.phase);
            made == [] && Packets(made) == [] && Flatten(Packets(made)) == [] && Says(c, c, []) && c.audio.run + [] == c.audio.run
  {
    SaysNothing(c, c);
  }

  lemma FirstPacket(c: Client, p: Client, q: Client, room: nat)
    requires c.audio.deferred != [] && p == Popped(c) && Says(c, p, [])
    requires q == Packet(p, Pcm(Next(c)), room).client && Packet(p, Pcm(Next(c)), room).ok
    ensures Says(c, q, if Pcm(Next(c)) == [] then [] else [AudioData(Pcm(Next(c)))])
  {
    hide Converted, Samples, Bytes, Put, Pcm;
    PutExactly(p, AudioData(Pcm(Next(c))), room);
    assert p.log == c.log;
  }

  /** The chunks a round has for a client. */
  function Playable(c: Client, chunks: seq<Chunk>): seq<Chunk> {
    if c.audio.enabled then c.audio.deferred + chunks else []
  }

  /** What a round with no JPEG in the way says: the capability if it is due, Begin if there is something to
      play and no session yet, and every chunk. */
  function Opening(c: Client, chunks: seq<Chunk>, width: uint16, height: uint16): seq<Message> {
    (if c.audio.capabilityPending then [AudioCapability(width, height)] else [])
    + (if Playable(c, chunks) != [] && !c.audio.started then [AudioBegin] else [])
  }

  lemma DeferredRoundExactly(c: Client, chunks: seq<Chunk>, width: uint16, height: uint16, room: nat)
    requires c.open && c.flight.Some? && c.audio.deferredSamples == Samples(c.audio.deferred)
    ensures var c' := AudioRound(c, chunks, width, height, room);
            && (c'.open <==> !c.audio.enabled || Samples(Playable(c, chunks)) <= 48000)
            && c'.wire == c.wire && c'.log == c.log && c'.audio.run == c.audio.run && c'.audio.started == c.audio.started
            && c'.audio.deferred == if c.audio.enabled then Playable(c, chunks) else c.audio.deferred
  {
    SamplesAppend(c.audio.deferred, chunks);
  }

  /** A round with no JPEG in the way plays everything a listening client has waiting and everything new, in
      order, and nothing to anybody else; the connection stays up exactly when the backlog is within its
      limit and the socket takes it all. */
  lemma RoundExactly(c: Client, chunks: seq<Chunk>, width: uint16, height: uint16, room: nat)
    requires c.open && c.flight == None && c.audio.deferredSamples == Samples(c.audio.deferred)
    ensures var c', q := AudioRound(c, chunks, width, height, room), Playable(c, chunks);
            var made := Conversions(q, c.audio.format, c.audio.phase);
            var says := Opening(c, chunks, width, height) + Packets(made);
            && (c'.open <==> Samples(q) <= 48000 && Fits(made) && |Flatten(says)| <= room)
            && (c'.open ==>
                  && Says(c, c', says) && c'.audio.run == c.audio.run + made
                  && c'.audio.deferred == (if c.audio.enabled then [] else c.audio.deferred)
                  && c'.audio.started == (c.audio.started || q != []) && !c'.audio.capabilityPending)
  {
    hide Flatten, Bytes, Put, Says, Samples, Conversions, Packets, Fits, SendDeferred, Played;
    NoSamples();
    SamplesAppend(c.audio.deferred, chunks);
    var a := if c.audio.enabled then Accept(c, chunks) else c;
    var w := if a.audio.capabilityPending then Announced(a, width, height, room) else Written(a, true, room);
    var first := if c.audio.capabilityPending then [AudioCapability(width, height)] else [];
    AnnouncedExactly(a, width, height, room);
    SaysSame(c, a);
    if w.ok { PlayedExactly(w.client, w.room); }
    var q := Playable(c, chunks);
    var made := Conversions(q, c.audio.format, c.audio.phase);
    var begin := if q != [] && !c.audio.started then [AudioBegin] else [];
    Associate(first, begin, Packets(made));
    FlattenAppend(first, begin + Packets(made));
    if w.ok && Played(w.client, w.room).open {
      SaysFrom(c, a, w.client, first);
      SaysMore(c, w.client, Played(w.client, w.room), first, begin + Packets(made));
    }
  }

  lemma SaysSame(c: Client, a: Client)
    ensures c.log == a.log ==> Says(c, a, [])
  {
    assert Messages(c.log) + [] == Messages(c.log);
  }

  lemma SaysFrom(c: Client, a: Client, b: Client, messages: seq<Message>)
    requires c.log == a.log && Says(a, b, messages)
    ensures Says(c, b, messages)
  {
  }

  lemma {:induction false} FlattenAppend(a: seq<Message>, b: seq<Message>)
    ensures |Flatten(a + b)| == |Flatten(a)| + |Flatten(b)|
    ensures |a| == 1 ==> |Flatten(a)| == |Bytes(a[0])|
    decreases |a|
  {
    hide Bytes;
    if a == [] {
      assert a + b == b;
    } else {
      FlattenFront(a[0], a[1..] + b);
      FlattenFront(a[0], a[1..]);
      assert a + b == [a[0]] + (a[1..] + b) && a == [a[0]] + a[1..];
      FlattenAppend(a[1..], b);
    }
  }

  lemma AnnouncedExactly(a: Client, width: uint16, height: uint16, room: nat)
    requires a.open
    ensures var w := if a.audio.capabilityPending then Announced(a, width, height, room) else Written(a, true, room);
            var first := if a.audio.capabilityPending then [AudioCapability(width, height)] else [];
            && (w.ok <==> |Flatten(first)| <= room)
            && (w.ok ==> w.room == room - |Flatten(first)| && w.client.open && Says(a, w.client, first)
                         && w.client.audio == a.audio.(capabilityPending := false) && w.client.flight == a.flight)
  {
    hide Bytes, Put;
    var m := AudioCapability(width, height);
    PutExactly(a, m, room);
    FlattenAppend([m], []);
    assert [m] + [] == [m];
    SaysNothing(a, a);
  }

  lemma PlayedExactly(c: Client, room: nat)
    requires c.open
    ensures var c', q := Played(c, room), if c.audio.enabled then c.audio.deferred else [];
            var made := Conversions(q, c.audio.format, c.audio.phase);
            var begin := if q != [] && !c.audio.started then [AudioBegin] else [];
            && (c'.open <==> Fits(made) && |Flatten(begin + Packets(made))| <= room)
            && (c'.open ==>
                  && Says(c, c', begin + Packets(made)) && c'.audio.run == c.audio.run + made
                  && c'.audio.deferred == (if c.audio.enabled then [] else c.audio.deferred)
                  && c'.audio.started == (c.audio.started || q != [])
                  && c'.audio.capabilityPending == c.audio.capabilityPending)
  {
    hide Flatten, Bytes, Put, Says, Conversions, Packets, Fits, SendDeferred;
    if !c.audio.enabled || c.audio.deferred == [] {
      NothingToSend(c.(audio := c.audio.(deferred := [])));
      NoPackets(c);
    } else {
      var w := if c.audio.started then Written(c, true, room) else Begun(c, room);
      BegunExactly(c, room);
      var begin := if c.audio.started then [] else [AudioBegin];
      var made := Conversions(c.audio.deferred, c.audio.format, c.audio.phase);
      FlattenAppend(begin, Packets(made));
      if w.ok {
        SendDeferredExactly(w.client, w.room);
        DeferredKeepsTold(w.client, w.room);
        if SendDeferred(w.client, w.room).open {
          SaysMore(c, w.client, SendDeferred(w.client, w.room), begin, Packets(made));
        }
      }
    }
  }

  lemma NoPackets(c: Client)
    ensures Conversions([], c.audio.format, c.audio.phase) == [] && Packets([]) == [] && Fits([])
    ensures |Flatten([] + Packets([]))| == 0 && Says(c, c, [] + Packets([])) && c.audio.run + [] == c.audio.run
  {
    SaysNothing(c, c);
  }

  lemma BegunExactly(c: Client, room: nat)
    requires c.open
    ensures var w := if c.audio.started then Written(c, true, room) else Begun(c, room);
            var begin := if c.audio.started then [] else [AudioBegin];
            && (w.ok <==> |Flatten(begin)| <= room)
            && (w.ok ==> w.room == room - |Flatten(begin)| && w.client.open && Says(c, w.client, begin)
                         && w.client.audio == c.audio.(started := true))
  {
    hide Bytes, Put;
    PutExactly(c, AudioBegin, room);
    FlattenAppend([AudioBegin], []);
    assert [AudioBegin] + [] == [AudioBegin];
    SaysNothing(c, c);
  }

  // ---- every chunk, over runs ----

  datatype Heard = Heard(played: seq<Chunk>, waiting: seq<Chunk>)

  /** The chunks offered while the client was listening, as its requests alone tell: behind a JPEG they wait,
      otherwise all that waited and all that is new is played; a disable request forgets what waits. */
  function AudioHeard(run: seq<Client>, events: seq<Event>, n: nat): Heard
    requires n <= |events| && n < |run|
  {
    if n == 0 then Heard([], [])
    else
      HeardNext(AudioHeard(run, events, n - 1), events[n - 1], AudioTold(events[..n]).enabled, run[n - 1].flight == None)
  }

  function HeardNext(h: Heard, ev: Event, listening: bool, idle: bool): Heard {
    if !listening then h.(waiting := [])
    else if !ev.Play? then h
    else if idle then Heard(h.played + h.waiting + ev.chunks, [])
    else h.(waiting := h.waiting + ev.chunks)
  }

  ghost predicate AsHeard(c: Client, h: Heard) {
    c.open ==> Chunks(c.audio.older) + Chunks(c.audio.run) == h.played && c.audio.deferred == h.waiting
  }

  lemma {:induction false} ConversionsAreOfTheQueue(queue: seq<Chunk>, f: SupportedFormat, phase: nat)
    ensures Chunks(Conversions(queue, f, phase)) == queue
    decreases |queue|
  {
    hide Converted;
    if queue != [] {
      var first, rest := Conversion(queue[0], f, phase), Conversions(queue[1..], f, Converted(queue[0], f, phase).1);
      ConversionsAreOfTheQueue(queue[1..], f, Converted(queue[0], f, phase).1);
      ChunksAppend([first], rest);
      RunGrows([], first);
      assert [] + [first] == [first] && Chunks([]) == [];
      assert queue == [queue[0]] + queue[1..];
    }
  }

  /** Messages other than a disable request leave what was played and what waits alone. */
  lemma HandledKeepsChunks(c: Client, i: Input)
    requires c.open
    ensures var a, c' := c.audio, Handled(c, i); var a' := c'.audio;
            c'.open ==>
              && Chunks(a'.older) + Chunks(a'.run) == Chunks(a.older) + Chunks(a.run)
              && (a'.enabled ==> a'.deferred == a.deferred)
  {
    hide Chunks, Bytes, Put, ReadBE16, ReadBE32, Supported;
    match i
    case AudioMessage(s, room) => RequestedKeepsChunks(c, s, room);
    case Reply(bytes, room) => ReplyExactly(c, bytes, room);
    case _ =>
  }

  lemma RequestedKeepsChunks(c: Client, s: seq<byte>, room: nat)
    requires c.open
    ensures var a, c' := c.audio, Requested(c, s, room); var a' := c'.audio;
            c'.open ==>
              && Chunks(a'.older) + Chunks(a'.run) == Chunks(a.older) + Chunks(a.run)
              && (a'.enabled ==> a'.deferred == a.deferred)
  {
    hide Enabled, Disabled, Reformatted, Chunks, ReadBE16, ReadBE32, Says, Supported;
    var c' := Requested(c, s, room);
    EnableExactly(c);
    DisableExactly(c, room);
    if |s| >= 9 { ReformatExactly(c, Format(s[3], s[4], ReadBE32(s[5..])), room); }
    ChunksAppend(c.audio.older, c.audio.run);
    ChunksAppend(c'.audio.older, c'.audio.run);
    assert c.audio.older + c.audio.run == (c.audio.older + c.audio.run) + [];
  }

  lemma PlayAsHeard(c: Client, h: Heard, ev: Event)
    requires c.open && Live(c) && AsHeard(c, h) && ev.Play?
    ensures AsHeard(Step(c, ev), HeardNext(h, ev, c.audio.enabled, c.flight == None))
  {
    hide AudioRound, Framed, Bracketed, Conserved, RfbRuns.Continuous, Chunks, Samples, Packets, Conversions, Flatten, Fits, Says;
    RoundKeepsTold(c, ev.chunks, ev.width, ev.height, ev.room);
    if c.flight == None {
      var q := Playable(c, ev.chunks);
      RoundExactly(c, ev.chunks, ev.width, ev.height, ev.room);
      ConversionsAreOfTheQueue(q, c.audio.format, c.audio.phase);
      ChunksAppend(c.audio.run, Conversions(q, c.audio.format, c.audio.phase));
      Associate(Chunks(c.audio.older), Chunks(c.audio.run), q);
      Associate(h.played, h.waiting, ev.chunks);
      assert h.played + [] == h.played;
    } else {
      DeferredRoundExactly(c, ev.chunks, ev.width, ev.height, ev.room);
    }
  }

  lemma StepAsHeard(c: Client, h: Heard, ev: Event)
    requires c.open && Inv(c) && AsHeard(c, h) && !ev.Play?
    ensures var c' := Step(c, ev); c'.open && Inv(c') ==> AsHeard(c', if c'.audio.enabled then h else h.(waiting := []))
  {
    hide Handled, Chunks, Bytes, Put, Framed, Bracketed, Conserved, RfbRuns.Continuous, Samples, CanQueue, Advanced;
    if ev.Receive? { HandledKeepsChunks(c, ev.input); }
    if ev.Flush? && c.flight.Some? { AdvancedKeepsAudio(c, if ev.outcome.Sent? then ev.outcome.count else 0); }
    PutKeepsAudio(c);
  }

  lemma AdvancedKeepsAudio(c: Client, count: nat)
    requires c.flight.Some?
    ensures Advanced(c, count).audio == c.audio && Advanced(c, count).open == c.open && Advanced(c, count).request == c.request
  {
    hide Total;
  }

  lemma PutKeepsAudio(c: Client)
    ensures forall m, room :: Put(c, m, room).client.audio == c.audio
  {
    hide Bytes;
  }

  /** In every run everything offered to an open client while it listened was converted once, in order, or is
      waiting, in order; nothing else was. */
  lemma {:induction false} EveryChunkIsHeard(run: seq<Client>, events: seq<Event>, n: nat)
    requires IsRun(run, events) && n < |run|
    ensures AsHeard(run[n], AudioHeard(run, events, n))
    ensures run[n].open ==> run[n].audio.accepted == AudioHeard(run, events, n).played + AudioHeard(run, events, n).waiting
  {
    hide Step, Possible, Chunks, AudioTold, HeardNext, Inv, AsHeard;
    Reachable(run, events, n);
    if n == 0 {
      NothingHeard();
    } else {
      var c, h, ev := run[n - 1], AudioHeard(run, events, n - 1), events[n - 1];
      EveryChunkIsHeard(run, events, n - 1);
      EveryRunDoesAsTold(run, events, n - 1);
      EveryRunDoesAsTold(run, events, n);
      Reachable(run, events, n - 1);
      if ev.Play? { RoundIsNoRequest(events, n); }
      HeardStep(c, h, ev, AudioTold(events[..n]).enabled);
    }
    AcceptedIsHeard(run[n], AudioHeard(run, events, n));
  }

  lemma NothingHeard()
    ensures AsHeard(NewClient(), Heard([], []))
  {
    EmptyRun(Format(3, 2, 44100));
  }

  lemma AcceptedIsHeard(c: Client, h: Heard)
    requires Inv(c) && AsHeard(c, h)
    ensures c.open ==> c.audio.accepted == h.played + h.waiting
  {
    hide Framed, Bracketed, Bounded, RfbRuns.Continuous, Chunks;
  }

  lemma HeardStep(c: Client, h: Heard, ev: Event, listening: bool)
    requires Inv(c) && AsHeard(c, h) && Inv(Step(c, ev))
    requires Step(c, ev).open ==> Step(c, ev).audio.enabled == listening
    requires ev.Play? && c.open ==> c.audio.enabled == listening
    ensures AsHeard(Step(c, ev), HeardNext(h, ev, listening, c.flight == None))
  {
    hide Step, Chunks, Framed, Bracketed, Conserved, Bounded, RfbRuns.Continuous;
    if !c.open {
      ClosedStep(c, ev);
    } else if ev.Play? {
      PlayAsHeard(c, h, ev);
    } else {
      StepAsHeard(c, h, ev);
    }
  }

  lemma RoundIsNoRequest(events: seq<Event>, n: nat)
    requires 0 < n <= |events| && events[n - 1].Play?
    ensures AudioTold(events[..n]) == AudioTold(events[..n - 1])
  {
    assert events[..n][..n - 1] == events[..n - 1];
  }

  // ---- frames ----

  /** A Tight frame is acceptable exactly when a viewer can read its length back, a native one exactly when
      it is bracketed by the JPEG markers. */
  lemma AcceptableExactly(data: seq<byte>)
    ensures Acceptable(Tight, data) <==>
            data != [] && TightLength.Decode(TightLength.Compact(|data|) + data) == Some((|data|, data))
    ensures Acceptable(Native, data) <==>
            4 <= |data| < 0x8000_0000 && data[..2] == [0xff, 0xd8] && data[|data| - 2..] == [0xff, 0xd9]
  {
    TightLength.RoundTrip(|data|, data);
    if |data| >= 4 {
      assert data[..2] == [data[0], data[1]] && data[|data| - 2..] == [data[|data| - 2], data[|data| - 1]];
    }
  }

  /** Whose turn it is in a frame round: clients with no JPEG on its way that asked for a frame, if they force
      it, or if the frame is another one than their last and the pacing lets it through. */
  lemma TurnExactly(c: Client, frame: Frame, sequence: nat, now: int, due: bool, decoded: bool, p: Plan)
    ensures var r := c.request;
            Turn(c, sequence, due) <==>
            c.flight == None && r.needUpdate && (r.forceUpdate || (due && r.lastSequence != sequence))
    ensures !Turn(c, sequence, due) ==> FrameTurn(c, frame, sequence, now, due, decoded, p) == c
  {
    hide CanQueue, Update;
  }

  /** Being served: the frame counts as the last one, no force is left, and only a continuous client goes on
      asking. */
  predicate ServedWith(c: Client, c': Client, sequence: nat) {
    && c'.request.lastSequence == sequence && !c'.request.forceUpdate
    && c'.request.needUpdate == c.request.continuous && c'.request.continuous == c.request.continuous
    && c'.request.continuousSupported == c.request.continuousSupported && c'.audio == c.audio
  }

  /** A JPEG client in its turn gets that frame on its way, from its first byte and from now; the connection
      ends exactly when the frame is unacceptable or the library still holds output. */
  lemma JpegTurnExactly(c: Client, frame: Frame, sequence: nat, now: int, due: bool, decoded: bool, p: Plan)
    requires c.open && Turn(c, sequence, due) && p.wants.WantsJpeg?
    ensures var e, c' := p.wants.encoding, FrameTurn(c, frame, sequence, now, due, decoded, p);
            && (c'.open <==> Acceptable(e, frame.data) && p.buffered == 0)
            && c'.wire == c.wire && c'.log == c.log
            && (c'.open ==>
                  && c'.flight == Some(Flight(Jpeg(e, frame.width, frame.height, frame.data), 0, now))
                  && ServedWith(c, c', sequence))
  {
    hide Acceptable;
  }

  /** A framebuffer client in its turn: the connection ends exactly when decoding fails or the update does not
      get through; with no pixels pending nothing changes and it is asked again. */
  lemma FramebufferTurnExactly(c: Client, frame: Frame, sequence: nat, now: int, due: bool, decoded: bool, p: Plan)
    requires c.open && Turn(c, sequence, due) && p.wants.WantsFramebuffer?
    ensures var c' := FrameTurn(c, frame, sequence, now, due, decoded, p);
            && (c'.open <==> (decoded || p.decodes) && (p.update == None || |p.update.value| <= p.room))
            && (c'.open && p.update == None ==> c' == c)
            && (c'.open && p.update.Some? ==>
                  Says(c, c', [Library(p.update.value)]) && c'.flight == None && ServedWith(c, c', sequence))
  {
    hide Messages, Bytes;
    LibraryBytes(if p.update.Some? then p.update.value else []);
    if p.update.Some? { PutExactly(c, Library(p.update.value), p.room); }
  }

  /** Between two frames: the JPEG went out, messages that are no requests for frames came and went. */
  predicate Later(c: Client, c': Client) {
    c'.open && c'.flight == None && c'.request == c.request
  }

  /** A continuous viewer that was served gets every other frame too, with the first round the pacing lets
      through once its JPEG is out. */
  lemma ContinuousGetsEveryFrame(c: Client, served: Client, later: Client, frame: Frame, sequence: nat, now: int,
                                 due: bool, decoded: bool, p: Plan,
                                 frame': Frame, sequence': nat, now': int, decoded': bool, p': Plan)
    requires c.open && c.request.continuous && Turn(c, sequence, due)
    requires served == FrameTurn(c, frame, sequence, now, due, decoded, p) && served.open && served != c
    requires Later(served, later) && sequence' != sequence
    ensures Turn(later, sequence', true)
    ensures p'.wants.WantsJpeg? && Acceptable(p'.wants.encoding, frame'.data) && p'.buffered == 0 ==>
      var c' := FrameTurn(later, frame', sequence', now', true, decoded', p');
      && c'.open && ServedWith(later, c', sequence') && c'.request.needUpdate
      && c'.flight == Some(Flight(Jpeg(p'.wants.encoding, frame'.width, frame'.height, frame'.data), 0, now'))
  {
    hide Acceptable, FrameTurn, Turn, Says;
    TurnExactly(c, frame, sequence, now, due, decoded, p);
    if p.wants.WantsJpeg? { JpegTurnExactly(c, frame, sequence, now, due, decoded, p); }
    else { FramebufferTurnExactly(c, frame, sequence, now, due, decoded, p); }
    TurnExactly(later, frame', sequence', now', true, decoded', p');
    if p'.wants.WantsJpeg? { JpegTurnExactly(later, frame', sequence', now', true, decoded', p'); }
  }

  /** Any other viewer that was served is left alone in every round until it asks, and then has its turn: at
      once if it asks for the whole screen, and at the next other frame that is due if it does not. */
  lemma OthersGetWhatTheyAskFor(c: Client, served: Client, later: Client, frame: Frame, sequence: nat, now: int,
                                due: bool, decoded: bool, p: Plan, sequence': nat, due': bool, incremental: bool)
    requires c.open && !c.request.continuous && Turn(c, sequence, due)
    requires served == FrameTurn(c, frame, sequence, now, due, decoded, p) && served.open && served != c
    requires Later(served, later)
    ensures !Turn(later, sequence', due')
    ensures Turn(Handled(later, UpdateRequest(incremental)), sequence', due') <==>
            !incremental || (due' && sequence' != sequence)
  {
    hide Acceptable, FrameTurn, Turn, Says;
    TurnExactly(c, frame, sequence, now, due, decoded, p);
    if p.wants.WantsJpeg? { JpegTurnExactly(c, frame, sequence, now, due, decoded, p); }
    else { FramebufferTurnExactly(c, frame, sequence, now, due, decoded, p); }
    TurnExactly(later, frame, sequence', now, due', decoded, p);
    TurnExactly(Handled(later, UpdateRequest(incremental)), frame, sequence', now, due', decoded, p);
  }

  /** An update request changes nothing but that a frame is wanted, forced if it is for the whole screen. */
  lemma UpdateRequestExactly(c: Client, incremental: bool)
    ensures var r, c' := c.request, Handled(c, UpdateRequest(incremental));
            && c' == c.(request := c'.request) && c'.request.needUpdate
            && (c'.request.forceUpdate <==> r.forceUpdate || !incremental)
            && c'.request.continuous == r.continuous && c'.request.continuousSupported == r.continuousSupported
            && c'.request.lastSequence == r.lastSequence
  {
  }

  /** A whole message switches continuous updates by its first byte: on, the next frame is sent at once; off,
      nothing is sent until the client asks. Without support the message is not taken, cut short it ends the
      connection. */
  lemma ContinuousExactly(c: Client, payload: seq<byte>, sequence: nat, due: bool)
    requires c.open
    ensures var r, c' := c.request, Handled(c, Event.Receive(Input.Continuous(payload)).input);
            && (!r.continuousSupported ==> c' == c)
            && (r.continuousSupported ==> (c'.open <==> |payload| >= 9))
            && (r.continuousSupported && c'.open ==>
                  && c' == c.(request := c'.request) && c'.request.lastSequence == r.lastSequence
                  && c'.request.continuousSupported && (c'.request.continuous <==> payload[0] != 0)
                  && (Turn(c', sequence, due) <==> payload[0] != 0 && c.flight == None))
  {
  }

  /** A size message goes to the clients that know it and whose socket takes it, and ends the connection of
      all others; afterwards a continuous client has its turn at any frame that is due. */
  lemma ResizeExactly(c: Client, understands: bool, bytes: seq<byte>, room: nat, sequence: nat)
    requires c.open && c.flight == None && sequence > 0
    ensures var c' := ResizeTurn(c, understands, bytes, room);
            && (c'.open <==> understands && |bytes| <= room)
            && (c'.open ==>
                  && Says(c, c', [Library(bytes)]) && c'.flight == None && c'.audio == c.audio
                  && c'.request.continuous == c.request.continuous
                  && c'.request.continuousSupported == c.request.continuousSupported
                  && (Turn(c', sequence, true) <==> c.request.continuous) && !c'.request.forceUpdate)
  {
    hide Messages, Bytes;
    LibraryBytes(bytes);
    PutExactly(c, Library(bytes), room);
  }

  // ---- what a client was told about continuous updates ----

  datatype Pushed = Pushed(supported: bool, on: bool)

  function ContinuousTold(events: seq<Event>): Pushed {
    if events == [] then Pushed(false, false)
    else
      var t, ev := ContinuousTold(events[..|events| - 1]), events[|events| - 1];
      if ev == Receive(ContinuousEncoding) then t.(supported := true)
      else if ev.Receive? && ev.input.Continuous? && t.supported && |ev.input.payload| >= 9
      then t.(on := ev.input.payload[0] != 0)
      else t
  }

  lemma HandledKeepsRequest(c: Client, i: Input)
    ensures var r, r' := c.request, Handled(c, i).request;
            && (Handled(c, i).open ==> c.open)
            && (r'.continuousSupported <==> r.continuousSupported || i.ContinuousEncoding?)
            && (!i.Continuous? ==> r'.continuous == r.continuous)
            && (i.AudioMessage? || i.Reply? || i.AudioEncoding? ==> r' == r)
  {
    hide Bytes, ReadBE16, ReadBE32, Supported;
  }

  lemma StepKeepsRequest(c: Client, ev: Event)
    ensures var r, r' := c.request, Step(c, ev).request;
            && (Step(c, ev).open ==> c.open)
            && (!ev.Receive? ==> r'.continuous == r.continuous && r'.continuousSupported == r.continuousSupported)
  {
    hide Handled, AudioRound, Bytes, CanQueue, Advanced;
    match ev
    case Receive(i) => HandledKeepsRequest(c, i);
    case Play(chunks, width, height, room) => RoundKeepsTold(c, chunks, width, height, room);
    case Flush(_, o) => if c.flight.Some? { AdvancedKeepsAudio(c, if o.Sent? then o.count else 0); }
    case _ =>
  }

  /** In every run continuous updates are on exactly when the client's last message about them says so. */
  lemma {:induction false} EveryRunPushesAsTold(run: seq<Client>, events: seq<Event>, n: nat)
    requires IsRun(run, events) && n < |run|
    ensures var r, t := run[n].request, ContinuousTold(events[..n]);
            run[n].open ==> r.continuousSupported == t.supported && r.continuous == t.on
  {
    hide Step, Possible;
    if n > 0 {
      var c, ev := run[n - 1], events[n - 1];
      EveryRunPushesAsTold(run, events, n - 1);
      assert events[..n][..n - 1] == events[..n - 1];
      StepKeepsRequest(c, ev);
      if ev.Receive? { ReceivedStep(c, ev.input); }
    }
  }

  lemma ReceivedStep(c: Client, i: Input)
    ensures Step(c, Receive(i)) == Handled(c, i)
    ensures var r, r', c' := c.request, Handled(c, i).request, Handled(c, i);
            && (c'.open ==> c.open)
            && (r'.continuousSupported <==> r.continuousSupported || i.ContinuousEncoding?)
            && (c'.open && i.Continuous? && r.continuousSupported ==> |i.payload| >= 9 && (r'.continuous <==> i.payload[0] != 0))
            && (!i.Continuous? || !r.continuousSupported ==> r'.continuous == r.continuous)
  {
    hide Bytes, ReadBE16, ReadBE32, Supported;
    HandledKeepsRequest(c, i);
  }

  /** A client that announces audio support is owed the capability and nothing else changes. */
  lemma AdvertiseExactly(c: Client)
    ensures Handled(c, AudioEncoding) == c.(audio := c.audio.(supported := true, capabilityPending := true))
    ensures !NewClient().audio.capabilityPending && !NewClient().audio.started && NewClient().audio.deferred == []
  {
  }

  /** Nobody gets a frame before asking. */
  lemma NewClientWaits(sequence: nat, due: bool)
    ensures !Turn(NewClient(), sequence, due)
  {
  }
}
