/** The server object: its list of clients, the frame and audio it has been handed, and the rounds of its
    event loop. What happens at one client is given by maps from clients to outcomes. */
module RfbServer {
  import opened Base
  import opened RfbMessages
  import opened AudioConvert
  import opened RfbOutput
  import opened RfbRuns
  import opened RfbClient
  import opened JpegCadence

  const MAX_QUEUED_AUDIO_FRAMES := 12
  const MAX_FRAMEBUFFER_BYTES := 0x400_0000

  function Look<V>(m: map<ClientData, V>, c: ClientData, missing: V): V {
    if c in m then m[c] else missing
  }

  /** The list without some of its members. */
  function Without(cs: seq<ClientData>, gone: set<ClientData>): (r: seq<ClientData>)
    ensures forall c :: c in r ==> c in cs && c !in gone
    ensures forall c :: c in cs && c !in gone ==> c in r
  {
    if cs == [] then []
    else Without(cs[..|cs| - 1], gone) + (if cs[|cs| - 1] in gone then [] else [cs[|cs| - 1]])
  }

  /** A client's turn in a round is over; those in gone are closed when the round ends. */
  ghost predicate Settled(c: ClientData, gone: set<ClientData>, target: Client)
    reads c
  {
    (if c in gone then RfbOutput.Close(c.View()) else c.View()) == target && c.HeaderValid()
  }

  /** The last n chunks, all of them if there are fewer. */
  function Newest(queue: seq<Chunk>, n: nat): seq<Chunk> {
    queue[Max(0, |queue| - n)..]
  }

  predicate Distinct(cs: seq<ClientData>) {
    forall i, j :: 0 <= i < j < |cs| ==> cs[i] != cs[j]
  }

  lemma DistinctUnion(a: seq<ClientData>, b: seq<ClientData>)
    requires Distinct(a) && Distinct(b) && forall c :: c in a ==> c !in b
    ensures Distinct(a + b)
  {
    forall i, j | 0 <= i < j < |a + b|
      ensures (a + b)[i] != (a + b)[j]
    {
      if i < |a| <= j { assert (a + b)[i] in a && (a + b)[j] in b; }
    }
  }

  lemma {:induction false} WithoutDistinct(cs: seq<ClientData>, gone: set<ClientData>)
    requires Distinct(cs)
    ensures Distinct(Without(cs, gone))
  {
    if cs != [] { WithoutDistinct(cs[..|cs| - 1], gone); }
  }

  class VNCServer {
    const fps: Rate
    var clients: seq<ClientData>
    var width: uint16
    var height: uint16
    var audioQueue: seq<Chunk>
    var latestFrame: Option<Frame>
    var latestSequence: nat
    var lastJpegSent: Option<int>
    var lastFramebufferProcessed: Option<int>

    /** When the rounds were that queued a JPEG, since the clock was last cleared. */
    ghost var jpegRounds: seq<int>

    ghost predicate Valid()
      reads this, clients
    {
      && Distinct(clients) && (forall c :: c in clients ==> c.Valid())
      && lastJpegSent == Clock(jpegRounds, fps)
    }

    /** What the next frame round will be. */
    ghost function NextCase(): FrameCase
      reads this, clients
    {
      if latestSequence == 0 || latestFrame == None then NoFrame
      else if latestFrame.value.width == width && latestFrame.value.height == height then SameSize
      else if exists c :: c in clients && c.pendingJpeg.Some? then Waiting
      else NewSizes
    }

    constructor (fps: Rate, width: uint16, height: uint16)
      ensures Valid() && clients == []
    {
      this.fps := fps;
      clients, audioQueue := [], [];
      this.width, this.height := width, height;
      latestFrame, latestSequence, lastJpegSent, lastFramebufferProcessed := None, 0, None, None;
      jpegRounds := [];
    }

    method FlushJPEGWrites(now: int, outcomes: map<ClientData, Outcome>)
      requires Valid()
      modifies clients
      ensures Valid()
      ensures forall c :: c in clients ==> c.View() == Flushed(old(c.View()), now, Look(outcomes, c, Again))
    {
      hide Inv, Flushed;
      for k := 0 to |clients|
        invariant Valid()
        invariant forall i :: 0 <= i < k ==>
          clients[i].View() == Flushed(old(clients[i].View()), now, Look(outcomes, clients[i], Again))
        invariant forall i :: k <= i < |clients| ==> clients[i].View() == old(clients[i].View())
      {
        clients[k].FlushJPEG(now, Look(outcomes, clients[k], Again));
      }
    }

    method HasPendingJPEG() returns (pending: bool)
      ensures pending <==> exists c :: c in clients && c.pendingJpeg.Some?
    {
      for k := 0 to |clients|
        invariant forall i :: 0 <= i < k ==> clients[i].pendingJpeg == None
      {
        if clients[k].pendingJpeg.Some? {
          return true;
        }
      }
      return false;
    }

    method QueueAudio(pcm: Chunk)
      modifies `audioQueue
      ensures pcm == [] ==> audioQueue == old(audioQueue)
      ensures pcm != [] ==> audioQueue == Newest(old(audioQueue), MAX_QUEUED_AUDIO_FRAMES - 1) + [pcm]
    {
      if pcm == [] {
        return;
      }
      while |audioQueue| >= MAX_QUEUED_AUDIO_FRAMES
        invariant Newest(audioQueue, MAX_QUEUED_AUDIO_FRAMES - 1) == Newest(old(audioQueue), MAX_QUEUED_AUDIO_FRAMES - 1)
        decreases |audioQueue|
      {
        audioQueue := audioQueue[1..];
      }
      audioQueue := audioQueue + [pcm];
    }

    /** `CloseClients`: the connections are closed and leave the list at once. */
    method CloseClients(gone: set<ClientData>)
      requires Distinct(clients) && forall c :: c in gone ==> c in clients
      modifies `clients, gone`sock
      ensures Distinct(clients)
      ensures forall c :: c in clients ==> c in old(clients) && c !in gone
      ensures forall c :: c in old(clients) && c !in gone ==> c in clients
      ensures forall c :: c in gone ==> c.View() == RfbOutput.Close(old(c.View())) && (old(c.HeaderValid()) ==> c.HeaderValid())
    {
      WithoutDistinct(clients, gone);
      for k := 0 to |clients|
        invariant clients == old(clients)
        invariant forall i :: 0 <= i < k && clients[i] in gone ==> !clients[i].sock
      {
        if clients[k] in gone {
          clients[k].Close();
        }
      }
      clients := Without(clients, gone);
    }

    // ---- audio ----

    /** The loop of ProcessAudio. */
    method OfferAudio(shared: seq<Chunk>, rooms: map<ClientData, nat>) returns (gone: set<ClientData>)
      requires Valid()
      modifies clients`audio, clients`wire, clients`log
      ensures forall c :: c in gone ==> c in clients
      ensures forall i :: 0 <= i < |clients| ==>
        Settled(clients[i], gone, AudioRound(old(clients[i].View()), shared, width, height, Look(rooms, clients[i], 0)))
    {
      hide AudioRound, HeaderOk, Inv;
      gone := {};
      for k := 0 to |clients|
        invariant forall c :: c in gone ==> c in clients[..k]
        invariant forall i :: 0 <= i < k ==>
          Settled(clients[i], gone, AudioRound(old(clients[i].View()), shared, width, height, Look(rooms, clients[i], 0)))
        invariant forall i :: k <= i < |clients| ==> unchanged(clients[i])
      {
        var c := clients[k];
        assert old(c.Valid());
        var keep := c.ProcessAudio(shared, width, height, Look(rooms, c, 0));
        if !keep {
          gone := gone + {c};
        }
      }
    }

    /** `ProcessAudio`: the queue is taken whole and offered to every client; rooms says how much each
        socket takes. Nobody is left half served: a client whose write fails is closed. */
    method ProcessAudio(rooms: map<ClientData, nat>)
      requires Valid()
      modifies `audioQueue, `clients, clients`sock, clients`audio, clients`wire, clients`log
      ensures Valid() && audioQueue == []
      ensures forall c :: c in old(clients) ==>
        c.View() == AudioRound(old(c.View()), old(audioQueue), width, height, Look(rooms, c, 0))
      ensures forall c :: c in clients ==> c in old(clients)
      ensures forall c :: c in old(clients) && c.sock ==> c in clients
      ensures old(NextCase()) != Waiting ==> NextCase() != Waiting
    {
      hide AudioRound, HeaderOk, Inv, Clock;
      var shared := audioQueue;
      audioQueue := [];
      ghost var all := clients;
      var gone := OfferAudio(shared, rooms);
      CloseClients(gone);
      forall c | c in all
        ensures Inv(c.View())
      {
        RoundKeeps(old(c.View()), shared, width, height, Look(rooms, c, 0));
      }
    }

    // ---- frames ----

    /** The part of Resize behind a successful allocation: the library's size message goes to the clients that
        understand it, the others are closed. Only possible while no JPEG is being written. */
    method ResizeClients(sizes: map<ClientData, SizeMessage>) returns (gone: set<ClientData>)
      requires Valid()
      modifies clients
      ensures forall c :: c in gone ==> c in clients
      ensures forall i :: 0 <= i < |clients| ==>
        Settled(clients[i], gone, Announce(old(clients[i].View()), Look(sizes, clients[i], NO_SIZE)))
    {
      hide Announce, HeaderOk, Inv;
      gone := {};
      for k := 0 to |clients|
        invariant forall c :: c in gone ==> c in clients[..k]
        invariant forall i :: 0 <= i < k ==>
          Settled(clients[i], gone, Announce(old(clients[i].View()), Look(sizes, clients[i], NO_SIZE)))
        invariant forall i :: k <= i < |clients| ==> unchanged(clients[i])
      {
        var c := clients[k];
        assert old(c.Valid());
        var keep := c.AnnounceSize(Look(sizes, c, NO_SIZE));
        if !keep {
          gone := gone + {c};
        }
      }
    }

    /** `Resize`. */
    method Resize(w: uint16, h: uint16, sizes: map<ClientData, SizeMessage>) returns (ok: bool)
      requires Valid() && forall c :: c in clients ==> c.pendingJpeg == None
      modifies this, clients
      ensures Valid()
      ensures ok <==> SizeOk(w, h)
      ensures ok ==> width == w && height == h
      ensures ok ==> forall c :: c in old(clients) ==> c.View() == Announce(old(c.View()), Look(sizes, c, NO_SIZE))
      ensures !ok ==> width == old(width) && height == old(height) && clients == old(clients)
      ensures !ok ==> forall c :: c in clients ==> c.View() == old(c.View())
      ensures forall c :: c in clients ==> c in old(clients)
      ensures forall c :: c in old(clients) && c.sock ==> c in clients
      ensures audioQueue == old(audioQueue) && latestFrame == old(latestFrame) && latestSequence == old(latestSequence)
      ensures lastJpegSent == old(lastJpegSent) && lastFramebufferProcessed == old(lastFramebufferProcessed)
      ensures jpegRounds == old(jpegRounds)
    {
      hide Announce, HeaderOk, Inv, Clock;
      if w == 0 || h == 0 || w as int * h as int * 2 > MAX_FRAMEBUFFER_BYTES {
        return false;
      }
      width, height := w, h;
      ghost var all := clients;
      var gone := ResizeClients(sizes);
      CloseClients(gone);
      forall c | c in all
        ensures Inv(c.View())
      {
        AnnounceKeeps(old(c.View()), Look(sizes, c, NO_SIZE));
      }
      return true;
    }

    /** The pacing of the encoding lets a round through. */
    predicate DueFor(wants: Wants, now: int)
      reads this
    {
      match wants
      case WantsJpeg(_) => Due(lastJpegSent, now, fps)
      case WantsFramebuffer =>
        lastFramebufferProcessed == None || now - lastFramebufferProcessed.value >= Interval(Min(fps, 15))
    }

    /** The loop of ProcessFrame; rounds is the shared part of the round before each client's turn. */
    method OfferFrame(frame: Frame, now: int, plans: map<ClientData, Plan>)
        returns (gone: set<ClientData>, round: Round, ghost rounds: seq<Round>)
      requires Valid()
      modifies clients
      ensures forall c :: c in gone ==> c in clients
      ensures |rounds| == |clients| + 1 && rounds[0] == FRESH && rounds[|clients|] == round
      ensures round.sentJpeg ==> Due(lastJpegSent, now, fps) || exists c :: c in clients && old(c.request.forceUpdate)
      ensures forall i :: 0 <= i < |clients| ==>
        var p := Look(plans, clients[i], NO_PLAN);
        && Turned(rounds, i, old(clients[i].View()), frame, latestSequence, DueFor(p.wants, now), p)
        && Settled(clients[i], gone, AfterTurn(rounds, i, old(clients[i].View()), frame, latestSequence, now, DueFor(p.wants, now), p))
    {
      hide FrameTurn, HeaderOk, RoundAfter, Inv;
      gone, round := {}, FRESH;
      rounds := [round];
      for k := 0 to |clients|
        invariant forall c :: c in gone ==> c in clients[..k]
        invariant |rounds| == k + 1 && rounds[0] == FRESH && rounds[k] == round
        invariant round.sentJpeg ==> Due(lastJpegSent, now, fps) || exists c :: c in clients && old(c.request.forceUpdate)
        invariant forall i :: 0 <= i < k ==>
          var p := Look(plans, clients[i], NO_PLAN);
          && Turned(rounds, i, old(clients[i].View()), frame, latestSequence, DueFor(p.wants, now), p)
          && Settled(clients[i], gone, AfterTurn(rounds, i, old(clients[i].View()), frame, latestSequence, now, DueFor(p.wants, now), p))
        invariant forall i :: k <= i < |clients| ==> unchanged(clients[i])
      {
        var c := clients[k];
        assert old(c.Valid());
        var p := Look(plans, c, NO_PLAN);
        SentWhenDue(round, c.View(), frame, latestSequence, DueFor(p.wants, now), p);
        var keep;
        keep, round := c.ProcessFrame(frame, latestSequence, now, DueFor(p.wants, now), p, round);
        rounds := rounds + [round];
        if !keep {
          gone := gone + {c};
        }
      }
    }

    /** The loop and the closing of the clients it gave up. */
    method OfferFrameAndClose(frame: Frame, now: int, plans: map<ClientData, Plan>)
        returns (round: Round, ghost rounds: seq<Round>)
      requires Valid()
      modifies `clients, clients
      ensures Valid()
      ensures |rounds| == |old(clients)| + 1 && rounds[0] == FRESH && rounds[|old(clients)|] == round
      ensures round.sentJpeg ==> Due(lastJpegSent, now, fps) || exists c :: c in old(clients) && old(c.request.forceUpdate)
      ensures forall i :: 0 <= i < |old(clients)| ==>
        var c := old(clients)[i]; var p := Look(plans, c, NO_PLAN);
        && Turned(rounds, i, old(c.View()), frame, latestSequence, DueFor(p.wants, now), p)
        && c.View() == AfterTurn(rounds, i, old(c.View()), frame, latestSequence, now, DueFor(p.wants, now), p)
      ensures forall c :: c in clients ==> c in old(clients)
      ensures forall c :: c in old(clients) && c.sock ==> c in clients
    {
      hide AfterTurn, Turned, HeaderOk, Inv;
      ghost var all := clients;
      var gone;
      gone, round, rounds := OfferFrame(frame, now, plans);
      CloseClients(gone);
      forall i | 0 <= i < |all|
        ensures Inv(all[i].View())
      {
        var p := Look(plans, all[i], NO_PLAN);
        TurnKeeps(rounds, i, old(all[i].View()), frame, latestSequence, now, DueFor(p.wants, now), p);
      }
    }

    /** The clock of direct JPEG rounds. */
    method AdvanceClock(now: int)
      requires lastJpegSent == Clock(jpegRounds, fps)
      modifies `lastJpegSent, `jpegRounds
      ensures lastJpegSent == Some(Advance(old(lastJpegSent), now, fps)) == Clock(jpegRounds, fps)
      ensures jpegRounds == old(jpegRounds) + [now]
    {
      SlackIsSmall(fps);
      ClockGrows(jpegRounds, now, fps);
      jpegRounds := jpegRounds + [now];
      var interval := 1_000_000 / fps * 1000;
      match lastJpegSent
      case None => lastJpegSent := Some(now);
      case Some(last) =>
        var next := last + interval;
        if next + interval <= now {
          next := next + interval * ((now - next) / interval);
        }
        lastJpegSent := Some(next);
    }

    method ClockWhen(sent: bool, now: int)
      requires lastJpegSent == Clock(jpegRounds, fps)
      modifies `lastJpegSent, `jpegRounds
      ensures lastJpegSent == Clock(jpegRounds, fps)
      ensures lastJpegSent == if sent then Some(Advance(old(lastJpegSent), now, fps)) else old(lastJpegSent)
      ensures jpegRounds == old(jpegRounds) + (if sent then [now] else [])
    {
      hide Clock, Advance;
      if sent {
        AdvanceClock(now);
      }
    }

    method FlushWhen(flush: bool, now: int, outcomes: map<ClientData, Outcome>)
      requires Valid()
      modifies clients
      ensures Valid()
      ensures forall c :: c in clients ==> c.View() == FlushedIf(flush, old(c.View()), now, Look(outcomes, c, Again))
    {
      hide Advanced, Dropped, Inv, HeaderOk, Clock;
      if flush {
        FlushJPEGWrites(now, outcomes);
      }
    }

    /** A frame round with the size unchanged; later is the time of the closing flush. */
    method FrameRound(frame: Frame, now: int, plans: map<ClientData, Plan>, later: int, outcomes: map<ClientData, Outcome>)
        returns (ghost rounds: seq<Round>)
      requires Valid()
      modifies `clients, `lastJpegSent, `jpegRounds, `lastFramebufferProcessed, clients
      ensures Valid()
      ensures |rounds| == |old(clients)| + 1 && rounds[0] == FRESH
      ensures forall i :: 0 <= i < |old(clients)| ==>
        var c := old(clients)[i]; var p := Look(plans, c, NO_PLAN);
        && Turned(rounds, i, old(c.View()), frame, latestSequence, old(DueFor(p.wants, now)), p)
        && c.View() == FlushedIf(rounds[|old(clients)|].sentJpeg,
             AfterTurn(rounds, i, old(c.View()), frame, latestSequence, now, old(DueFor(p.wants, now)), p),
             later, Look(outcomes, c, Again))
      ensures lastJpegSent ==
        if rounds[|old(clients)|].sentJpeg then Some(Advance(old(lastJpegSent), now, fps)) else old(lastJpegSent)
      ensures lastFramebufferProcessed ==
        if rounds[|old(clients)|].sentFramebuffer || rounds[|old(clients)|].decoded then Some(now) else old(lastFramebufferProcessed)
      ensures jpegRounds == old(jpegRounds) + (if rounds[|old(clients)|].sentJpeg then [now] else [])
      ensures rounds[|old(clients)|].sentJpeg && (forall c :: c in old(clients) ==> !old(c.request.forceUpdate)) ==>
        old(Due(lastJpegSent, now, fps))
      ensures forall c :: c in clients ==> c in old(clients)
      ensures forall c :: c in old(clients) && c.sock ==> c in clients
    {
      hide AfterTurn, Turned, HeaderOk, Inv, FlushedIf, Clock, Advance, Due;
      var round;
      round, rounds := OfferFrameAndClose(frame, now, plans);
      ClockWhen(round.sentJpeg, now);
      assert forall i :: 0 <= i < |clients| ==> clients[i] in old(clients);
      FlushWhen(round.sentJpeg, later, outcomes);
      forall c | c in old(clients) && c !in clients
        ensures c.View() == FlushedIf(round.sentJpeg, c.View(), later, Look(outcomes, c, Again))
      {
        ClosedStays(round.sentJpeg, c.View(), later, Look(outcomes, c, Again));
      }
      if round.sentFramebuffer || round.decoded {
        lastFramebufferProcessed := Some(now);
      }
    }

    /** `ProcessFrame`: nothing without a frame; a new size waits for every JPEG to be out and then takes the
        whole round; otherwise the clients are offered the frame. */
    method ProcessFrame(now: int, plans: map<ClientData, Plan>, sizes: map<ClientData, SizeMessage>,
                        later: int, outcomes: map<ClientData, Outcome>)
        returns (ok: bool, ghost done: FrameCase, ghost rounds: seq<Round>)
      requires Valid()
      modifies this, clients
      ensures Valid()
      ensures done == old(NextCase())
      ensures ok <==> done != NewSizes || SizeOk(old(latestFrame).value.width, old(latestFrame).value.height)
      ensures done == NoFrame || done == Waiting || !ok ==> clients == old(clients)
      ensures done == NoFrame || done == Waiting || !ok ==> forall c :: c in clients ==> c.View() == old(c.View())
      ensures done == NewSizes && ok ==>
        forall c :: c in old(clients) ==> c.View() == Announce(old(c.View()), Look(sizes, c, NO_SIZE))
      ensures done == SameSize ==> |rounds| == |old(clients)| + 1 && rounds[0] == FRESH
      ensures done == SameSize ==> forall i :: 0 <= i < |old(clients)| ==>
        var c := old(clients)[i]; var p := Look(plans, c, NO_PLAN);
        && Turned(rounds, i, old(c.View()), old(latestFrame).value, latestSequence, old(DueFor(p.wants, now)), p)
        && c.View() == FlushedIf(rounds[|old(clients)|].sentJpeg,
             AfterTurn(rounds, i, old(c.View()), old(latestFrame).value, latestSequence, now, old(DueFor(p.wants, now)), p),
             later, Look(outcomes, c, Again))
      // the list
      ensures forall c :: c in clients ==> c in old(clients)
      ensures forall c :: c in old(clients) && c.sock ==> c in clients
      // the size
      ensures (width, height) ==
        if done == NewSizes && ok then (old(latestFrame).value.width, old(latestFrame).value.height) else (old(width), old(height))
      // the clocks
      ensures done == SameSize && rounds[|old(clients)|].sentJpeg ==>
        lastJpegSent == Some(Advance(old(lastJpegSent), now, fps)) && jpegRounds == old(jpegRounds) + [now]
      ensures !(done == SameSize && rounds[|old(clients)|].sentJpeg) ==>
        lastJpegSent == old(lastJpegSent) && jpegRounds == old(jpegRounds)
      ensures done == SameSize && rounds[|old(clients)|].sentJpeg && (forall c :: c in old(clients) ==> !old(c.request.forceUpdate)) ==>
        old(Due(lastJpegSent, now, fps))
      ensures lastFramebufferProcessed ==
        if done == SameSize && (rounds[|old(clients)|].sentFramebuffer || rounds[|old(clients)|].decoded) then Some(now)
        else old(lastFramebufferProcessed)
    {
      hide AfterTurn, Turned, HeaderOk, Inv, Announce, FlushedIf, Clock, Advance, Due;
      rounds := [];
      if latestSequence == 0 || latestFrame == None {
        return true, NoFrame, rounds;
      }
      var frame := latestFrame.value;
      if frame.width != width || frame.height != height {
        var pending := HasPendingJPEG();
        if pending {
          return true, Waiting, rounds;
        }
        ok := Resize(frame.width, frame.height, sizes);
        return ok, NewSizes, rounds;
      }
      rounds := FrameRound(frame, now, plans, later, outcomes);
      return true, SameSize, rounds;
    }

    method SetFrame(frame: Frame)
      modifies `latestFrame, `latestSequence
      ensures latestFrame == Some(frame) && latestSequence == old(latestSequence) + 1
    {
      latestFrame := Some(frame);
      latestSequence := latestSequence + 1;
    }

    /** `ClearLatestFrame`, run when the last client is gone: the clocks start over. */
    method ClearLatestFrame()
      requires Valid()
      modifies `latestFrame, `latestSequence, `lastJpegSent, `lastFramebufferProcessed, `jpegRounds
      ensures Valid() && latestFrame == None && latestSequence == 0
      ensures lastJpegSent == None && lastFramebufferProcessed == None && jpegRounds == []
    {
      latestFrame, latestSequence := None, 0;
      lastJpegSent, lastFramebufferProcessed, jpegRounds := None, None, [];
    }

    // ---- the event round ----

    /** Closed sockets leave the list before the library looks at it. */
    method Reap()
      requires Valid()
      modifies `clients
      ensures Valid()
      ensures forall c :: c in clients ==> c in old(clients) && c.sock
      ensures forall c :: c in old(clients) && c.sock ==> c in clients
    {
      hide Inv, HeaderOk, Without;
      var gone := set c | c in clients && !c.sock;
      WithoutDistinct(clients, gone);
      clients := Without(clients, gone);
    }

    /** `rfbCheckFds`: every message waiting on a readable descriptor is handled; the library may also close
        clients on its own account. */
    method CheckFds(readable: set<ClientData>, inputs: map<ClientData, seq<Input>>, kicked: set<ClientData>)
      requires Valid() && forall c :: c in clients && c in readable ==> c.pendingJpeg == None
      modifies clients
      ensures Valid()
      ensures forall i :: 0 <= i < |clients| ==>
        clients[i].View() == Checked(old(clients[i].View()), clients[i] in readable, Look(inputs, clients[i], []), clients[i] in kicked)
    {
      hide Checked, Inv, HeaderOk;
      for k := 0 to |clients|
        invariant Valid()
        invariant forall i :: 0 <= i < k ==>
          clients[i].View() == Checked(old(clients[i].View()), clients[i] in readable, Look(inputs, clients[i], []), clients[i] in kicked)
        invariant forall i :: k <= i < |clients| ==> unchanged(clients[i])
      {
        clients[k].CheckFd(clients[k] in readable, Look(inputs, clients[k], []), clients[k] in kicked);
      }
    }

    /** The middle of PollClientEvents: the descriptors of clients in the middle of a JPEG are out of the
        library's sight while it reads, and those still open are put back. */
    method ReadClients(inputs: map<ClientData, seq<Input>>, kicked: set<ClientData>) returns (allFds: set<ClientData>)
      requires Valid()
      modifies clients
      ensures Valid()
      ensures forall c :: c in clients ==>
        c.View() == Checked(old(c.View()), old(c.pendingJpeg) == None, Look(inputs, c, []), c in kicked)
      ensures allFds == set c | c in clients && c.sock
    {
      hide Checked, Inv, HeaderOk;
      allFds := set c | c in clients;
      var deferred := set c | c in clients && c.pendingJpeg.Some?;
      allFds := allFds - deferred;
      CheckFds(allFds, inputs, kicked);
      allFds := set c | c in allFds && c.sock;
      allFds := allFds + set c | c in deferred && c in clients && c.sock;
    }

    /** `PollClientEvents`: flush, reap, read, take new connections in, reap. */
    method PollClientEvents(now: int, outcomes: map<ClientData, Outcome>, inputs: map<ClientData, seq<Input>>,
                            kicked: set<ClientData>, arrivals: seq<ClientData>)
      requires Valid() && Distinct(arrivals)
      requires forall c :: c in arrivals ==> c.Valid() && c.View() == NewClient() && c !in clients
      modifies `clients, clients
      ensures Valid()
      ensures forall c :: c in old(clients) ==>
        c.View() == Polled(old(c.View()), now, Look(outcomes, c, Again), Look(inputs, c, []), c in kicked)
      ensures forall c :: c in clients ==> c.sock && (c in old(clients) || c in arrivals)
      ensures forall c :: (c in old(clients) || c in arrivals) && c.sock ==> c in clients
      // no resize waits for longer than the timeout of the JPEGs pending when it came
      ensures (forall c :: c in old(clients) ==> old(Expired(c, now))) ==>
        NextCase() != Waiting && forall c :: c in clients ==> c.pendingJpeg == None
    {
      hide Checked, Inv, HeaderOk, Flushed;
      ghost var expired := forall c :: c in clients ==> Expired(c, now);
      forall c | c in clients && Expired(c, now)
        ensures Polled(c.View(), now, Look(outcomes, c, Again), Look(inputs, c, []), c in kicked).open ==>
          Polled(c.View(), now, Look(outcomes, c, Again), Look(inputs, c, []), c in kicked).flight == None
      {
        ExpiredIsOut(c.View(), now, Look(outcomes, c, Again), Look(inputs, c, []), c in kicked);
      }
      FlushJPEGWrites(now, outcomes);
      Reap();
      assert forall i :: 0 <= i < |clients| ==> clients[i] in old(clients);
      var allFds := ReadClients(inputs, kicked);
      Arrive(arrivals);
      Reap();
    }

    method Arrive(arrivals: seq<ClientData>)
      requires Valid() && Distinct(arrivals)
      requires forall c :: c in arrivals ==> c.Valid() && c !in clients
      modifies `clients
      ensures Valid() && clients == arrivals + old(clients)
    {
      hide Inv, HeaderOk;
      DistinctUnion(arrivals, clients);
      clients := arrivals + clients;
    }

    /** The part of a turn in front of the frame round. */
    method PollAndPlay(now: int, outcomes: map<ClientData, Outcome>, inputs: map<ClientData, seq<Input>>,
                       kicked: set<ClientData>, arrivals: seq<ClientData>, rooms: map<ClientData, nat>)
      requires Valid() && Distinct(arrivals)
      requires forall c :: c in arrivals ==> c.Valid() && c.View() == NewClient() && c !in clients
      modifies `clients, `audioQueue, clients, arrivals
      ensures Valid()
      ensures forall c :: c in clients ==> c in old(clients) || c in arrivals
      ensures (forall c :: c in old(clients) ==> old(Expired(c, now))) ==> NextCase() != Waiting
    {
      hide Polled, AudioRound, Inv, HeaderOk, Clock, Expired;
      PollClientEvents(now, outcomes, inputs, kicked, arrivals);
      assert forall i :: 0 <= i < |clients| ==> clients[i] in old(clients) || clients[i] in arrivals;
      ProcessAudio(rooms);
    }

    /** One turn of the loop in `Run`. A waiting resize is over with the first turn whose flush comes behind
        the timeout of the JPEGs pending then; while it waits no JPEG is queued. */
    method RunOnce(now: int, pollOutcomes: map<ClientData, Outcome>, inputs: map<ClientData, seq<Input>>,
                   kicked: set<ClientData>, arrivals: seq<ClientData>, rooms: map<ClientData, nat>,
                   plans: map<ClientData, Plan>, sizes: map<ClientData, SizeMessage>,
                   later: int, outcomes: map<ClientData, Outcome>) returns (ok: bool, ghost done: FrameCase)
      requires Valid() && Distinct(arrivals)
      requires forall c :: c in arrivals ==> c.Valid() && c.View() == NewClient() && c !in clients
      modifies this, clients, arrivals
      ensures Valid()
      ensures old(NextCase()) == Waiting && (forall c :: c in old(clients) ==> old(Expired(c, now))) ==> done == NewSizes
    {
      hide AfterTurn, Turned, Announce, Inv, HeaderOk, FlushedIf, Clock, Advance, Due, Expired;
      PollAndPlay(now, pollOutcomes, inputs, kicked, arrivals, rooms);
      assert forall i :: 0 <= i < |clients| ==> clients[i] in old(clients) || clients[i] in arrivals;
      ghost var rounds;
      ok, done, rounds := ProcessFrame(now, plans, sizes, later, outcomes);
    }
  }

  predicate SizeOk(w: uint16, h: uint16) {
    w > 0 && h > 0 && w as int * h as int * 2 <= MAX_FRAMEBUFFER_BYTES
  }

  datatype FrameCase = NoFrame | Waiting | NewSizes | SameSize

  /** The client has no JPEG pending, or one that has been so for longer than a flush allows. */
  ghost predicate Expired(c: ClientData, now: int)
    reads c
  {
    c.pendingJpeg.Some? ==> now - c.jpegStarted > FLUSH_TIMEOUT
  }

  /** A flush behind the timeout leaves no open client in the middle of a JPEG, and reading starts none. */
  lemma ExpiredIsOut(c: Client, now: int, o: Outcome, inputs: seq<Input>, kicked: bool)
    requires c.flight.Some? ==> now - c.flight.value.started > FLUSH_TIMEOUT
    ensures var p := Polled(c, now, o, inputs, kicked); p.open ==> p.flight == None
  {
    ReceivedFlight(Flushed(c, now, o), inputs);
  }

  lemma {:induction false} ReceivedFlight(c: Client, inputs: seq<Input>)
    ensures Received(c, inputs).flight == c.flight
    decreases |inputs|
  {
    hide Handled;
    if c.open && inputs != [] {
      HandledFlight(c, inputs[0]);
      ReceivedFlight(Handled(c, inputs[0]), inputs[1..]);
    }
  }

  /** What one event round does to one client: what it sent may only be read once its JPEG is out. */
  function Polled(c: Client, now: int, o: Outcome, inputs: seq<Input>, kicked: bool): Client {
    var f := Flushed(c, now, o);
    if !f.open then f else Checked(f, f.flight == None, inputs, kicked)
  }

  /** A flush skips closed clients. */
  function FlushedIf(flush: bool, c: Client, now: int, o: Outcome): Client {
    if flush && c.open then Flushed(c, now, o) else c
  }

  lemma ClosedStays(flush: bool, c: Client, now: int, o: Outcome)
    requires !c.open
    ensures FlushedIf(flush, c, now, o) == c
  {
  }

  lemma TurnKeeps(rounds: seq<Round>, i: nat, c: Client, frame: Frame, sequence: nat, now: int, due: bool, p: Plan)
    requires Inv(c)
    ensures Inv(AfterTurn(rounds, i, c, frame, sequence, now, due, p))
  {
    hide Inv, FrameTurn;
    StepKeeps(c, Offer(frame, sequence, now, due, Before(rounds, i).decoded, p));
  }

  /** A JPEG is queued at a client only when its pacing lets it through or the client forces it. */
  lemma SentWhenDue(r: Round, c: Client, frame: Frame, sequence: nat, due: bool, p: Plan)
    ensures RoundAfter(r, c, frame, sequence, due, p).sentJpeg ==> r.sentJpeg || (p.wants.WantsJpeg? && due) || c.request.forceUpdate
  {
  }

  const FRESH := Round(false, false, false)

  const NO_PLAN := Plan(WantsFramebuffer, 0, true, None, 0)

  function Before(rounds: seq<Round>, i: nat): Round {
    if i < |rounds| then rounds[i] else FRESH
  }

  function AfterTurn(rounds: seq<Round>, i: nat, c: Client, frame: Frame, sequence: nat, now: int, due: bool, p: Plan): Client {
    FrameTurn(c, frame, sequence, now, due, Before(rounds, i).decoded, p)
  }

  predicate Turned(rounds: seq<Round>, i: nat, c: Client, frame: Frame, sequence: nat, due: bool, p: Plan) {
    Before(rounds, i + 1) == RoundAfter(Before(rounds, i), c, frame, sequence, due, p)
  }

  lemma AnnounceKeeps(c: Client, m: SizeMessage)
    requires Inv(c) && c.flight == None
    ensures Inv(Announce(c, m))
  {
    hide Inv, ResizeTurn;
    ResizeKeeps(c, m.understands, m.bytes, m.room);
  }

  lemma RoundKeeps(c: Client, chunks: seq<Chunk>, width: uint16, height: uint16, room: nat)
    requires Inv(c)
    ensures Inv(AudioRound(c, chunks, width, height, room))
  {
    hide Inv, AudioRound;
    StepKeeps(c, Play(chunks, width, height, room));
  }

  /** What every method of the server keeps, told from outside: each listed client's wire is whole messages
      and the written part of one JPEG, and its audio session is well bracketed and within its limit. */
  lemma ListedClientsAreFramed(server: VNCServer, c: ClientData)
    requires server.Valid() && c in server.clients
    ensures WholeMessages(c.View())
    ensures c.sock ==> SessionOf(c.log).Session? && Samples(c.audio.deferred) <= MAX_DEFERRED_SAMPLES
  {
    assert c.Valid();
    InvIsWholeMessages(c.View());
  }

  /** The server's JPEG clock is the paced one: a round without a forced client that queued a JPEG keeps the
      rounds since the first one within one per interval, forced rounds included. */
  lemma ServerRoundsAreLimited(server: VNCServer, before: seq<int>, now: int)
    requires server.Valid() && server.jpegRounds == before + [now] && before != []
    requires Due(Clock(before, server.fps), now, server.fps)
    ensures |server.jpegRounds| <= 1 + (now - server.jpegRounds[0] + Slack(server.fps)) / Interval(server.fps)
    ensures server.lastJpegSent.Some? && now - Interval(server.fps) < server.lastJpegSent.value <= now + Slack(server.fps)
  {
    hide Clock, Advance, Due, Interval, Slack;
    FramesAreLimited(before, now, server.fps);
    ClockGrows(before, now, server.fps);
    NearExactlyWhenDue(Clock(before, server.fps), now, server.fps);
  }

  // ---- what the shared parts say ----

  predicate StartsJpeg(before: Client, after: Client) {
    before.flight == None && after.flight.Some?
  }

  predicate GetsMessage(before: Client, after: Client) {
    |after.log| > |before.log|
  }

  /** The client's turn made the frame be decoded. */
  predicate Decodes(c: Client, sequence: nat, due: bool, p: Plan) {
    Turn(c, sequence, due) && p.wants == WantsFramebuffer && p.decodes
  }

  lemma RoundStep(r: Round, c: Client, frame: Frame, sequence: nat, now: int, due: bool, p: Plan)
    requires c.open
    ensures var after, c' := RoundAfter(r, c, frame, sequence, due, p), FrameTurn(c, frame, sequence, now, due, r.decoded, p);
            && (after.sentJpeg <==> r.sentJpeg || StartsJpeg(c, c'))
            && (after.sentFramebuffer <==> r.sentFramebuffer || GetsMessage(c, c'))
            && (after.decoded <==> r.decoded || Decodes(c, sequence, due, p))
  {
    hide Acceptable;
  }

  /** The loop over the clients keeps count of exactly what happens at them: a JPEG round is one in which some
      client was given a JPEG, the frame counts as decoded from the first client on that made it so, and a
      framebuffer was sent if some client got one. */
  lemma {:induction false} RoundTellsWhatHappened(rounds: seq<Round>, cs: seq<Client>, dues: seq<bool>, plans: seq<Plan>,
                                                  frame: Frame, sequence: nat, now: int, n: nat)
    requires |rounds| == |cs| + 1 && |dues| == |plans| == |cs| && rounds[0] == FRESH && n <= |cs|
    requires forall i :: 0 <= i < |cs| ==> cs[i].open && Turned(rounds, i, cs[i], frame, sequence, dues[i], plans[i])
    ensures rounds[n].sentJpeg <==>
            exists i :: 0 <= i < n && StartsJpeg(cs[i], AfterTurn(rounds, i, cs[i], frame, sequence, now, dues[i], plans[i]))
    ensures rounds[n].sentFramebuffer <==>
            exists i :: 0 <= i < n && GetsMessage(cs[i], AfterTurn(rounds, i, cs[i], frame, sequence, now, dues[i], plans[i]))
    ensures rounds[n].decoded <==> exists i :: 0 <= i < n && Decodes(cs[i], sequence, dues[i], plans[i])
  {
    hide RoundAfter, FrameTurn, StartsJpeg, GetsMessage, Decodes;
    if n > 0 {
      var k := n - 1;
      RoundTellsWhatHappened(rounds, cs, dues, plans, frame, sequence, now, k);
      assert Turned(rounds, k, cs[k], frame, sequence, dues[k], plans[k]);
      RoundStep(rounds[k], cs[k], frame, sequence, now, dues[k], plans[k]);
    }
  }

  /** Every message of a readable client is handled, in order, up to the one that closes it. */
  lemma {:induction false} ReceivedExactly(c: Client, inputs: seq<Input>) returns (run: seq<Client>)
    ensures 1 <= |run| <= |inputs| + 1 && run[0] == c && run[|run| - 1] == Received(c, inputs)
    ensures forall i :: 0 <= i < |run| - 1 ==> run[i].open && run[i + 1] == Step(run[i], Receive(inputs[i]))
    ensures |run| == |inputs| + 1 || !run[|run| - 1].open
    decreases |inputs|
  {
    hide Handled;
    run := [c];
    if c.open && inputs != [] {
      var rest := ReceivedExactly(Handled(c, inputs[0]), inputs[1..]);
      run := run + rest;
      assert forall i :: 1 <= i < |run| - 1 ==> inputs[i] == inputs[1..][i - 1] && run[i] == rest[i - 1];
    }
  }

  /** A poll is the flush of the client, then its messages if no JPEG is left and it is still open, then the end
      of its connection if the library gives it up. */
  lemma PollExactly(c: Client, now: int, o: Outcome, inputs: seq<Input>, kicked: bool)
    ensures var f, p := Step(c, Flush(now, o)), Polled(c, now, o, inputs, kicked);
            && (!f.open ==> p == f)
            && (f.open && f.flight == None ==> p == if kicked then Step(Received(f, inputs), Drop) else Received(f, inputs))
            && (f.open && f.flight.Some? ==> p == if kicked then Step(f, Drop) else f)
  {
    hide Flushed, Received;
  }

  /** The fallback round is let through once a frame time of at most 15 frames per second is over. */
  lemma FallbackIsPaced(server: VNCServer, now: int)
    ensures server.lastFramebufferProcessed == None ==> server.DueFor(WantsFramebuffer, now)
    ensures server.lastFramebufferProcessed.Some? ==>
              var gap, rate := now - server.lastFramebufferProcessed.value, if server.fps > 15 then 15 else server.fps;
              && (rate * gap >= 1_000_000_000 ==> server.DueFor(WantsFramebuffer, now))
              && (server.DueFor(WantsFramebuffer, now) ==> rate * (gap + 1000) > 1_000_000_000)
  {
    if server.lastFramebufferProcessed.Some? {
      var gap, rate := now - server.lastFramebufferProcessed.value, if server.fps > 15 then 15 else server.fps;
      IntervalExactly(rate);
      GapAndInterval(rate, gap, Interval(rate));
    }
  }

  lemma GapAndInterval(rate: nat, gap: int, i: nat)
    requires rate > 0 && rate * i <= 1_000_000_000 < rate * (i + 1000)
    ensures rate * gap >= 1_000_000_000 ==> gap >= i
    ensures gap >= i ==> rate * (gap + 1000) > 1_000_000_000
  {
    if gap < i { ProductLess(gap, i, rate); } else { ProductMonotone(i + 1000, gap + 1000, rate); }
  }

  lemma ProductLess(a: int, b: int, k: nat)
    requires a < b && k > 0
    ensures k * a < k * b
  {
  }

  /** The audio queue holds the newest twelve of everything queued since it was last played. */
  lemma QueueHoldsNewest(queued: seq<Chunk>, pcm: Chunk)
    ensures Newest(Newest(queued, MAX_QUEUED_AUDIO_FRAMES), MAX_QUEUED_AUDIO_FRAMES - 1) + [pcm] ==
            Newest(queued + [pcm], MAX_QUEUED_AUDIO_FRAMES)
    ensures var q := Newest(queued, MAX_QUEUED_AUDIO_FRAMES);
            if |queued| <= 12 then q == queued else |q| == 12 && queued[..|queued| - 12] + q == queued
  {
  }
}
