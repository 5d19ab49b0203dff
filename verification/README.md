# Verification model of the OneKVM VNC extension

The repository bridges a media core to VNC viewers: a C++ server that sends JPEG frames, decoded framebuffers
and PCM audio over RFB and turns RFB input into HID reports, and a Go sink that serves H.264 and JPEG from the
same protocol. This project models the scheduling, buffering and arithmetic of the two and proves what they
keep over every run.

How the parts fit together:

- `Base`: bytes, options, big-endian fields.
- `TightLength`, `RfbMessages`: the bytes of the messages the server writes itself, and a viewer's parser for
  them (framebuffer updates follow section 7.6.1 of RFC 6143).
- `RfbOutput`, `RfbRuns`, `RfbPromises`, `RfbClient`, `RfbServer`: the output of one client as a state machine with
  every byte on its wire; invariants and theorems over all runs of that machine; what each operation owes the
  client, told from the events alone; the client's record as an object whose methods update it in place; the
  server object with its list of clients and the rounds of its event loop.
  The number of bytes a socket takes, time, incoming messages, the library's own replies and the result of
  decoding are parameters. The C++ loops write nested loop bodies; here each loop body is a method of the
  client's record.
- `AudioConvert`: the streaming resampler and sample formats, whose theorems `RfbRuns` carries over to the
  bytes a client receives.
- `JpegCadence`: the clock that paces direct JPEG rounds.
- `DirtyTiles`, `Damage`: the tile comparison and the damage of viewers on the decoded path. The library's
  regions are sets of pixel positions; its update sends damaged and requested pixels, removes them from the
  damage and consumes the request.
- `PointerInput`, `PointerRuns`, `PointerPromises`: pointer coalescing as an object, its two threads as interleaved
  steps over a log of HID posts, and what that log must say, told from the events of the RFB thread alone.
- `RingLayout`, `RingConsumer`: the shared-memory frame ring, alone and against a concurrent producer that is
  only assumed to publish increasing sequences and to stay away from slots being read.
- `CapabilityHandshake`: `Stop` against `Run` of the capability subscription, with a descriptor table.
- `JsonText`: the JSON writer and a reader for it (section 7 of RFC 8259).
- `NalScanner`, `H264Buffer`, `H264Viewers`: the Go sink's start-code scanner, its replay buffer, and runs with
  viewers that come, switch, fetch and leave.

A class keeps the fields of the source's class or struct; `View()` is its abstract value and every method says
which function of the old view the new view is. The theorems are about those functions and about runs of them.
Times are integers in the unit the source counts in.

## Where a promise does not hold as it stands

The code is modelled as it is. For each of these there is a lemma with a concrete case and one that says exactly
when the promise does hold.

- H.264 viewers can miss a picture between two frames with successive numbers. An access unit over 8 MiB is
  refused without a reset (`OversizedPictureLeavesGap`), and a unit that carries a parameter set but no reported
  IDR slice is held back whole, slices included (`HeldBackSliceLeavesGap`, a unit of nine bytes), to be replayed
  in front of the next keyframe, flagged as one itself. Every such picture can be missed (`LostPictureLeavesGap`), and
  a picture is missing between two frames if and only if one of these was offered there (`EveryRunIsDecodable`).
- The scanner consumes the NAL header byte with its start code, so a start code that begins in a header byte is
  lost (`KeyframeCanBeMissed`); all start codes are found if and only if there is none such (`ScanComplete`).
- A direct JPEG clears a viewer's damage. A viewer that then falls back to the framebuffer keeps pixels of the
  JPEG (`DirectJpegLeavesStalePixels`). An undamaged pixel is the decoded one if and only if it is not left over
  from a JPEG that differs there (`EveryRunIsSound`); a viewer that was sent none since it came or since the last
  resize is always current (`FallbackViewersAreCurrent`).
- Offsets into the ring are 32-bit. The layout check alone admits rings on which they wrap (`LargeRingWraps`);
  they are right if and only if the last slot starts below 2^32 (`OffsetsExact`).
- The newest frame of the ring can be released unseen, when it is published behind the scan (`NewestCanBeDropped`)
  and when a sequence is read in the middle of being replaced (`OverreadDropsNewest`). A frame waiting to be
  released has a higher sequence than the chosen one if and only if it was published after it and one of these two
  things happened (`NewerExactlyWhenLate`); with neither, the call takes the newest (`NewestUnlessLate`).
- A keyframe uses up the parameter sets held back, so a viewer that comes later can start at an IDR slice without
  any (`LateViewerGetsNoSet`). A keyframe has in front of it exactly the newest four units held back since the last
  keyframe or reset, if and only if they fit the limit with it (`EveryKeyframeIsIntroduced`).
- The JPEG clock can be ahead of the time by a whole interval (`ForcedRunsAhead`); it is ahead by no more than the
  slack if and only if the round did not need to be forced (`NearExactlyWhenDue`).
- `Stop` may hold a descriptor number that `Run` has closed in the meantime (`ShutdownCanMiss`); the number is open
  if and only if `Run` still holds its connection (`ShutdownHitsExactlyWhenHeld`), and then it is the connection
  `Stop` found (`ShutdownHitsItsTarget`).
- The comment on `CollectDirtyTiles` says more than 40 percent of the tiles; a frame with exactly 40 percent
  collapses (`FortyPercentCollapses`), and the threshold is exact (`CollectedTight`).

## Model

| member | source | states |
|---|---|---|
| RfbMessages.ParseBack | src/vnc_server.cpp:1331-1351 | a viewer's parser reads back every Tight JPEG, capability rectangle and audio message, whatever bytes follow it |
| RfbMessages.ParseCut | src/vnc_server.cpp:1214-1255 | no proper prefix of such a message is ever taken for a message |
| RfbMessages.ParseAllBack | src/vnc_server.cpp:898-960 | a stream of whole messages with a part of one behind them is read as exactly those messages and that part |
| RfbMessages.ReadAllBack | src/vnc_server.cpp:898-960 | a stream of whole messages of any kind is read message by message when the sizes of those that carry none are known |
| RfbMessages.EncodingNumbers | src/vnc_server.cpp:40-41 | the encodings are written as the registered numbers 7, 21 and -259 |
| TightLength.GoTightLength | internal/vnc/sink.go:1065-1076 | the Go code produces the compact length for every size |
| TightLength.CppTightHeader | src/vnc_server.cpp:1341-1351 | the C++ header code produces the Tight control byte and the same compact length, in place, without touching the header in front |
| TightLength.RoundTrip | internal/vnc/sink.go:1065-1076 | the length decodes to the size with any bytes behind it if and only if the size fits in 22 bits |
| TightLength.DecodeCompact | internal/vnc/sink.go:1065-1076 | what a reader gets for any size, including those that lose their top bits |
| TightLength.Shortest | internal/vnc/sink.go:1065-1076 | no decodable form of a size is shorter |
| TightLength.PrefixFree | internal/vnc/sink.go:1065-1076 | no encoded length is a proper prefix of another |
| RfbRuns.StepKeeps | src/vnc_server.cpp:1010-1072 | every event of one client keeps framing, bracketing, conservation, the backlog limit and the continuity of the resampler, for any short write, timeout or reply |
| RfbRuns.EveryRunIsFramed | src/vnc_server.cpp:1214-1255 | in every run the wire of an open client is its completed messages followed by exactly the written part of its one JPEG; a closed client was cut off behind whole messages |
| RfbRuns.ViewerReadsTheLog | src/vnc_server.cpp:1324-1358 | in every run a viewer that knows the message formats, and the sizes of the messages that carry none, reads exactly the messages the server logged, and does not take the JPEG in flight for one |
| RfbRuns.ViewerParsesTheLog | src/vnc_server.cpp:1324-1358 | with Tight frames and audio alone no sizes are needed |
| RfbRuns.PiecesAddUp | src/vnc_server.cpp:1226-1253 | however the kernel cuts a JPEG up, after any sequence of timely writes exactly as many bytes of it are out as were taken in all, and it is complete exactly when that is all of them |
| RfbRuns.WireOnlyGrows | src/vnc_server.cpp:1214-1255 | nothing written or logged is ever taken back |
| RfbRuns.FrameOnlyOnce | src/vnc_server.cpp:1412-1414 | a client that got a frame is left alone in every further round for the same frame |
| RfbRuns.RequestsAreUnderstood | src/vnc_server.cpp:718-787 | each audio request as a viewer encodes it has its effect; unsupported formats and messages cut short close the client |
| RfbRuns.ReplyWouldInterleave | src/vnc_server.cpp:1300-1320 | why incoming messages are deferred: a reply behind part of a JPEG leaves whole messages if and only if the two byte strings commute, which no reply starting with another byte than 0 does |
| RfbRuns.ClosedForGood | src/vnc_server.cpp:1220-1224 | a closed client receives nothing more, whatever is done to its record |
| RfbRuns.EveryRunFollowsGrammar | src/vnc_server.cpp:729-783 | in every run a client's audio messages form capability, then Begin Data* End over and over, the last one open exactly when the record says started |
| RfbRuns.EveryRunBracketsAudio | src/vnc_server.cpp:1010-1072 | and every audio packet lies behind a Begin of its own format with no End or format change in between, with the capability rectangle before that Begin |
| RfbRuns.EveryRunConservesAudio | src/vnc_server.cpp:1029-1065 | chunks dequeued for a client are the converted ones followed by the waiting ones; its Data messages are those conversions once each, in order; the backlog count is exact and at most 48000 |
| RfbRuns.EveryRunStreams | src/vnc_server.cpp:962-1008 | since the last enable or format request a client has received the encoding of one seamless resampled stream, for n source frames n times rate / 48000 frames rounded up |
| RfbRuns.RoundDefersOrDrains | src/vnc_server.cpp:1029-1065 | behind a JPEG a round closes the client exactly when the backlog would pass the limit and otherwise keeps every chunk; with the JPEG out nothing is left waiting |
| RfbPromises.RoundExactly | src/vnc_server.cpp:1020-1066 | a round with no JPEG in flight stays open exactly when the backlog is within its limit and the socket takes everything; then the client is sent the capability if due, Begin if a session has to start, and one Data message for every waiting and every new chunk in order, and nothing is left waiting |
| RfbPromises.DeferredRoundExactly | src/vnc_server.cpp:1029-1041 | behind a JPEG a round writes nothing and appends every new chunk of a listening client to those waiting |
| RfbPromises.SendDeferredExactly | src/vnc_server.cpp:1057-1065 | the whole queue is converted and sent in order, or the connection ends |
| RfbPromises.EveryChunkIsHeard | src/vnc_server.cpp:1010-1072 | in every run the chunks offered to an open client while its requests said it listens are those played followed by those waiting, in order, and nothing else was played |
| RfbPromises.EveryRunDoesAsTold | src/vnc_server.cpp:701-788 | in every run an open client's support, enabling and format are what its requests alone say |
| RfbPromises.EnableExactly | src/vnc_server.cpp:729-734 | enabling writes nothing, keeps an open session open and starts the resampler over |
| RfbPromises.DisableExactly | src/vnc_server.cpp:735-750 | disabling ends an open session with one End, forgets what waits, and ends the connection if End does not get through |
| RfbPromises.ReformatExactly | src/vnc_server.cpp:751-783 | a format request ends an open session with one End and switches the format for all conversions from then on; an unsupported one ends the connection |
| RfbPromises.AdvertiseExactly | src/vnc_server.cpp:684-699 | a client that announces audio support is owed the capability, and nothing else changes |
| RfbPromises.PutExactly | src/vnc_server.cpp:898-960 | a blocking write succeeds exactly when the socket takes all of it, and otherwise leaves the prefix it took |
| RfbPromises.ReplyExactly | src/vnc_server.cpp:1300-1311 | a reply of the library is one whole message, or the connection ends |
| RfbPromises.FlushExactly | src/vnc_server.cpp:1220-1253 | a flush ends the connection exactly for a failure or after two seconds, a full socket changes nothing, and a write adds no more than the kernel took; how the pieces add up is said by `PiecesAddUp` |
| RfbPromises.AcceptableExactly | src/vnc_server.cpp:1360-1378 | a Tight frame is acceptable exactly when a viewer can read its length back, a native one exactly when it is bracketed by the JPEG markers |
| RfbPromises.TurnExactly | src/vnc_server.cpp:1412-1436 | a client is left alone in a frame round unless it has no JPEG on its way, asked for a frame, and either forces it or the frame is another than its last and pacing lets it through |
| RfbPromises.JpegTurnExactly | src/vnc_server.cpp:1450-1470 | a JPEG client in its turn gets that frame on its way from its first byte and from now, and counts as served; the connection ends exactly when the frame is unacceptable or the library still holds output |
| RfbPromises.FramebufferTurnExactly | src/vnc_server.cpp:1432-1470 | a framebuffer client in its turn is sent the update and counts as served; with nothing pending it is asked again; the connection ends exactly when decoding or sending fails |
| RfbPromises.ContinuousGetsEveryFrame | src/vnc_server.cpp:1463 | a continuous client that was served gets any other frame in flight at the first due round after its JPEG is out |
| RfbPromises.OthersGetWhatTheyAskFor | src/vnc_server.cpp:613-634 | any other client is left alone until it asks, and then has its turn: at once for the whole screen, otherwise at the next other frame that is due |
| RfbPromises.UpdateRequestExactly | src/vnc_server.cpp:613-634 | an update request changes nothing but that a frame is wanted, forced if it is for the whole screen |
| RfbPromises.ContinuousExactly | src/vnc_server.cpp:803-823 | a whole message switches continuous updates by its first byte: on, the next frame comes at once; off, none comes unasked |
| RfbPromises.EveryRunPushesAsTold | src/vnc_server.cpp:803-823 | in every run continuous updates are on exactly when the client's last message about them says so |
| RfbPromises.ResizeExactly | src/vnc_server.cpp:1099-1119 | a size message goes to the clients that know it and whose socket takes it and ends the connection of all others; then a continuous client has its turn at any due frame |
| RfbPromises.NewClientWaits | src/vnc_server.cpp:1412-1414 | nobody gets a frame before asking |
| RfbClient.ClientData.constructor | src/vnc_server.hpp:86-109 | a new record is a fresh client that satisfies the invariant |
| RfbClient.ClientData.SendAudioCapability | src/vnc_server.cpp:898-917 | writes one capability rectangle, or as much of it as the socket takes and fails |
| RfbClient.ClientData.SendAudioControl | src/vnc_server.cpp:919-931 | writes Begin or End, or a part and fails |
| RfbClient.ClientData.SendAudioData | src/vnc_server.cpp:933-960 | writes one Data message with its 32-bit size, nothing for an empty packet, and refuses sizes beyond the limit |
| RfbClient.ClientData.AudioHandleMessage | src/vnc_server.cpp:701-788 | the client after each audio request, with the error paths that close it; other submessages are left alone |
| RfbClient.ClientData.ContinuousHandleMessage | src/vnc_server.cpp:803-823 | the request flags after enabling or disabling continuous updates, or the closed client when the payload is short |
| RfbClient.ClientData.SendDeferredAudio | src/vnc_server.cpp:1057-1065 | converts and sends the deferred chunks in order until one fails, then clears the queue |
| RfbClient.ClientData.ProcessAudio | src/vnc_server.cpp:1020-1066 | the audio round of one client is the single-client step, closing included, whose effects `RoundExactly` says |
| RfbClient.ClientData.QueueJPEG | src/vnc_server.cpp:1324-1358 | puts the frame in flight with its whole header, or refuses and changes nothing while output is pending |
| RfbClient.ClientData.SendJPEG | src/vnc_server.cpp:1360-1367 | accepts exactly the non-empty frames of at most 22 bits of size |
| RfbClient.ClientData.SendNativeJPEG | src/vnc_server.cpp:1369-1378 | accepts exactly the frames with start and end markers |
| RfbClient.ClientData.FlushJPEG | src/vnc_server.cpp:1214-1255 | the flush of one client from the byte where the last write stopped, with timeout, retry and failure |
| RfbClient.ClientData.ProcessFrame | src/vnc_server.cpp:1416-1470 | the frame turn of one client is the single-client step, whose effects `TurnExactly`, `JpegTurnExactly` and `FramebufferTurnExactly` say |
| RfbClient.ClientData.CheckFd | src/vnc_server.cpp:1300-1311 | messages of a readable client are handled until one closes it, none of a client in the middle of a JPEG |
| RfbServer.VNCServer.FlushJPEGWrites | src/vnc_server.cpp:1214-1255 | every client is flushed independently of the others |
| RfbServer.VNCServer.SetFrame | src/vnc_server.cpp:825-830 | the frame replaces the latest one under the next sequence number |
| RfbServer.VNCServer.QueueAudio | src/vnc_server.cpp:832-840 | the queue holds the newest chunks, at most 12, and ignores empty ones |
| RfbServer.VNCServer.ProcessAudio | src/vnc_server.cpp:1010-1072 | every client gets the whole queue once through its own step, only closed clients leave the list, and the invariant of all clients is kept |
| RfbServer.VNCServer.HasPendingJPEG | src/vnc_server.cpp:1205-1212 | whether any client, closed or open, holds a pending JPEG |
| RfbServer.VNCServer.Resize | src/vnc_server.cpp:1084-1122 | fails exactly for empty or oversized frames; otherwise each client gets its size message or is closed |
| RfbServer.VNCServer.ProcessFrame | src/vnc_server.cpp:1380-1488 | which of the four cases a round is, and in each the new state of every client, the list, the size and both clocks; a new size waits until no JPEG is pending, and a refused one changes nothing; without a forced client a JPEG round was due |
| RfbServer.VNCServer.AdvanceClock | src/vnc_server.cpp:1473-1480 | the clock moves as the cadence function says and stays the clock of the rounds so far |
| RfbServer.ServerRoundsAreLimited | src/vnc_server.cpp:1428-1431 | the server's JPEG rounds since the clock was cleared are at most one per interval at every due round, and the clock is then near the time |
| RfbServer.RoundTellsWhatHappened | src/vnc_server.cpp:1405-1468 | the flags of a round are true exactly when some client was given a JPEG, some client was sent an update, and some client's turn decoded the frame |
| RfbServer.PollExactly | src/vnc_server.cpp:1257-1322 | an event round is the flush of the client, then its messages if no JPEG is left, then the end of its connection if the library gave it up |
| RfbServer.ReceivedExactly | src/vnc_server.cpp:1300-1311 | every message of a readable client is handled in order, up to the one that closes it |
| RfbServer.FallbackIsPaced | src/vnc_server.cpp:1401-1436 | a framebuffer round is due exactly, up to a microsecond, when a frame time of at most 15 frames per second is over |
| RfbServer.QueueHoldsNewest | src/vnc_server.cpp:832-840 | queueing one after the other keeps the newest twelve chunks, all of them if there are fewer |
| RfbServer.VNCServer.PollClientEvents | src/vnc_server.cpp:1257-1322 | what one event round does to every client: flush, then read only those whose JPEG is out; closed clients leave the list and nobody else does; behind the timeout of all pending JPEGs none is left |
| RfbServer.VNCServer.RunOnce | src/vnc_server.cpp:1490-1499 | a waiting resize is carried out by the first turn of the loop whose flush comes behind the timeout of the JPEGs pending then |
| RfbServer.VNCServer.ReadClients | src/vnc_server.cpp:1300-1320 | the descriptors taken away for the library call are put back for exactly the clients still open |
| RfbServer.ListedClientsAreFramed | src/vnc_server.cpp:1257-1322 | every listed client of a valid server satisfies the framing and audio properties |
| JpegCadence.StaysOnGrid | src/vnc_server.cpp:1473-1480 | the clock is the first round plus a whole number of intervals, at least one per later round |
| JpegCadence.FramesAreLimited | src/vnc_server.cpp:1428-1431 | at an unforced round the rounds so far, forced ones included, are at most 1 + (now - first + slack) / interval |
| JpegCadence.NearExactlyWhenDue | src/vnc_server.cpp:1473-1480 | after any round the clock is above now - interval, and it is at most now + slack if and only if the round was due |
| JpegCadence.NoStarvation | src/vnc_server.cpp:1428-1431 | after an unforced round the next one is let through at the latest one interval later |
| JpegCadence.ForcedRunsAhead | src/vnc_server.cpp:1428-1431 | two forced rounds at one instant put the clock a whole interval ahead |
| JpegCadence.IntervalExactly | src/vnc_server.cpp:1400 | the interval is a second divided by the frame rate, in whole microseconds |
| JpegCadence.SlackExactly | src/vnc_server.cpp:1429 | the slack is a tenth of the interval, in whole microseconds |
| AudioConvert.Mix | src/vnc_server.cpp:985-992 | an interpolated sample lies between its two neighbours; where exactly is said by `MixOnLine` and `MixMonotone` |
| AudioConvert.MixOnLine | src/vnc_server.cpp:985-992 | an interpolated sample is the first one at fraction 0 and within one unit of the straight line to the second |
| AudioConvert.MixMonotone | src/vnc_server.cpp:985-992 | and moves from the first to the second as the fraction grows, never back |
| AudioConvert.OneShotIsLinear | src/vnc_server.cpp:978-992 | output frame k lies within one unit of the line at source position 48000 k / f, and is exactly the source frame it falls on |
| AudioConvert.SameRateIsIdentity | src/vnc_server.cpp:978-1006 | at 48000 Hz every source frame comes out as it is |
| AudioConvert.FramesInterleaved | src/vnc_server.cpp:966-984 | samples alternate between the channels, left first |
| AudioConvert.FrameDecodes | src/vnc_server.cpp:993-1003 | stereo carries the left and the right sample, mono one sample within half a unit of their mean |
| AudioConvert.StreamNoDrift | src/vnc_server.cpp:978-1006 | however a stream is cut into chunks, 48000 M = f N + phase with the phase below 48000, so M is f N / 48000 rounded up |
| AudioConvert.StreamMatchesOneShot | src/vnc_server.cpp:980-1006 | each output frame equals the one-shot conversion unless the source frame under it ends a chunk, which is held; what one-shot gives is said by `OneShotIsLinear` |
| AudioConvert.SampleRoundTrip | src/vnc_server.cpp:118-149 | the 16 and 32 bit formats carry the sample exactly, the 8 bit ones its high byte |
| AudioConvert.EncodedLength | src/vnc_server.cpp:993-1003 | every output frame takes channels times bytes per sample |
| AudioConvert.ConvertAudio | src/vnc_server.cpp:962-1008 | the loop computes the resampled encoding and the carried phase, and nothing for unsupported formats |
| DirtyTiles.CollectDirtyTiles | src/jpeg_rgb.hpp:28-69 | the nested loops compute the list of dirty tiles, or the whole frame from 40 percent on |
| DirtyTiles.TileDirty | src/jpeg_rgb.hpp:51-60 | a tile is reported dirty if and only if some pixel in it differs |
| DirtyTiles.CollectedInOrder | src/jpeg_rgb.hpp:28-69 | rectangles are in bounds, in raster order and pairwise disjoint |
| DirtyTiles.CollectedCovers | src/jpeg_rgb.hpp:47-63 | every changed pixel lies in a rectangle |
| DirtyTiles.CollectedTight | src/jpeg_rgb.hpp:64-67 | below 40 percent there is one rectangle for every 32 by 32 cell that differs, cut at the edges; from there on just the whole frame |
| DirtyTiles.FortyPercentCollapses | src/jpeg_rgb.hpp:64 | a pair of frames that differ in exactly 40 percent of the tiles and give the whole frame |
| DirtyTiles.CollectedEmptyIffEqual | src/jpeg_rgb.hpp:28-69 | there is no rectangle if and only if the frames are equal |
| DirtyTiles.PatchIsCurrent | src/jpeg_rgb.hpp:28-69 | repainting just the rectangles turns the old frame into the new |
| Damage.FallbackServer.DecodeLatestFrame | src/vnc_server.cpp:1142-1166 | the screen after a decode, whose effects `DecodeExactly` says; the result is whether the frame is on it |
| Damage.FallbackServer.SendFramebuffer | src/vnc_server.cpp:1168-1197 | the viewer after forced or continuous preparation and the library's update, sent if and only if damaged pixels are requested and the library can; a failure touches no other viewer |
| Damage.FallbackServer.Resize | src/vnc_server.cpp:1084-1122 | a resize forgets the previous frame, so the next decode damages everything |
| Damage.DecodeExactly | src/vnc_server.cpp:1142-1166 | decoding a frame not held yet makes its pixels framebuffer and kept frame and damages in every viewer what its tiles cover, every changed position and all of a first frame among it; a frame held is not decoded again; a failure may spoil the framebuffer and nothing else |
| Damage.SendExactly | src/vnc_server.cpp:1168-1197 | a pixel is repainted exactly if it is damaged or all is forced, and requested or updates are continuous; the request is used up unless there was nothing to send |
| Damage.EveryRunKeepsLastDecoded | src/vnc_server.cpp:1142-1166 | in every run the kept frame is the newest frame the decode events returned since the last resize or clear |
| Damage.DecodeSound | src/vnc_server.cpp:1154-1163 | marking the tiles keeps every viewer sound against the new frame |
| Damage.DecodeKeeps | src/vnc_server.cpp:1142-1166 | decoding keeps the invariant, and after success the framebuffer is the kept frame whatever failed before |
| Damage.SendDelivers | src/vnc_server.cpp:1168-1197 | a send repaints exactly the damaged and requested pixels with the kept frame and leaves other viewers alone |
| Damage.EveryRunIsSound | src/vnc_server.cpp:1142-1197 | in every run an undamaged pixel shows the newest frame the decode events returned since the last resize or clear if and only if it is not left over from an undecoded JPEG that differs there, and what is left over is that JPEG's pixel |
| Damage.FallbackViewersAreCurrent | src/vnc_server.cpp:1142-1197 | in every run a viewer that was sent no undecoded JPEG since it came or since the last resize shows that newest frame outside its damage |
| Damage.EverySendIsDecoded | src/vnc_server.cpp:1434-1452 | whenever pixels are sent the framebuffer is that newest frame |
| Damage.DirectJpegLeavesStalePixels | src/vnc_server.cpp:1356 | a run in which a viewer keeps stale pixels after a direct JPEG |
| PointerInput.ScaleAxisFaithful | src/vnc_server.cpp:264-275 | coordinates map monotonically into 0 to 32767 with both ends reached and outliers clamped |
| PointerInput.ScaleAxisProportional | src/vnc_server.cpp:264-275 | between the edges a coordinate is the proportional one rounded down, and an axis of one pixel is at zero |
| PointerInput.WheelStepsAddUp | src/vnc_server.cpp:309-315 | the wheel reports add up to the wheel movement, each within 127 |
| PointerInput.NextTickIsLeast | src/vnc_server.cpp:347-349 | the skip loop ends on the least grid point after now |
| PointerInput.InputState.Pointer | src/vnc_server.cpp:261-301 | the shared state after one pointer event, urgent or coalesced |
| PointerInput.InputState.TakeReport | src/vnc_server.cpp:318-350 | the report taken and the new deadline of one locked round |
| PointerInput.InputState.ReleaseButtons | src/vnc_server.cpp:383-396 | held buttons are released by one urgent report, and only if some are held |
| PointerInput.SendPointer | src/vnc_server.cpp:303-316 | the posts of one report, which `PostsExactly` spells out |
| PointerRuns.EveryRunLinearizes | src/vnc_server.cpp:281-358 | the log is the posts of strictly increasing reports, each once and in order; button and wheel reports are never lost and dropped motions are superseded |
| PointerRuns.KeyboardIsABarrier | src/vnc_server.cpp:238-259 | a keyboard report comes after all pointer work issued before its call and before all issued after it |
| PointerRuns.NeverStuck | src/vnc_server.cpp:362-374 | while something issued is not completed its newest generation is pending, queued last or in flight, and the report thread can move |
| PointerRuns.ReportThreadProgress | src/vnc_server.cpp:318-360 | every step of the report thread lowers a measure |
| PointerRuns.FlushIsDischarged | src/vnc_server.cpp:362-374 | a bounded number of report-thread steps ends every waiting flush |
| PointerRuns.ReleaseLetsGo | src/vnc_server.cpp:381-404 | when Release returns the last pointer report has no button and held keys are let go |
| PointerRuns.EveryRunIsLimited | src/vnc_server.cpp:318-352 | the k-th pure motion is no earlier than start plus k intervals, deadlines stay on the grid and urgent reports do not move them |
| PointerPromises.PostsExactly | src/vnc_server.cpp:303-316 | a report is posted as its buttons, x and y, then its wheel movement in steps of 127 and a last smaller one in the same direction, which sum to it |
| PointerPromises.EveryInputArrives | src/vnc_server.cpp:238-404 | in every run the reports are the inputs of the events, numbered in order; positions sent and in flight are exactly those of the inputs taken; wheel steps sent, in flight and queued add up to all wheel movement; and the keyboard reports are those of the calls that returned, each behind the inputs before it |
| PointerPromises.FlushedIsUpToDate | src/vnc_server.cpp:362-374 | when a flush is through, the last position sent is that of the last input and the wheel has turned as far as all inputs together |
| PointerPromises.CallsReturnUpToDate | src/vnc_server.cpp:362-404 | every key press and release returns behind all inputs before it and then posts its own keyboard report, if it has one; a release with no button held |
| PointerPromises.UrgentNeedsNoDeadline | src/vnc_server.cpp:318-350 | an idle report thread takes a report at once if an urgent input waits, and otherwise exactly when an input waits and the deadline has come |
| RingLayout.CheckLayout | src/protocol_ipc.cpp:329-351 | the check accepts exactly the rings whose slots, with room for header and capacity, lie inside the mapping |
| RingLayout.HeaderIsRead | src/protocol_ipc.cpp:329-346 | every header a producer writes in little-endian words is read back, and accepted exactly if version, header size and slots are right |
| RingLayout.SlotsDisjoint | src/protocol_ipc.cpp:338-345 | slots of an accepted ring are disjoint and every accepted payload stays inside its slot |
| RingLayout.OffsetsExact | src/protocol_ipc.cpp:360-373 | the 32-bit offsets are right if and only if the last slot starts below 2^32, which every smaller mapping ensures |
| RingLayout.LargeRingWraps | src/protocol_ipc.cpp:360 | an accepted ring on which two slots coincide |
| RingConsumer.BestIsNewest | src/protocol_ipc.cpp:357-368 | the scan selects the newest ready slot, the first of equals |
| RingConsumer.TakeLatestFrame | src/protocol_ipc.cpp:354-404 | the call on the mapped slots computes the plain specification and hands out its lease |
| RingConsumer.TakeLatestIsNewest | src/protocol_ipc.cpp:354-404 | undisturbed, a call leases the newest ready frame if well formed, frees every other ready slot and touches no slot in use |
| RingConsumer.RingLease.Drop | src/protocol_ipc.cpp:106-109 | dropping a lease frees its slot and no other |
| RingConsumer.EveryRunDelivers | src/protocol_ipc.cpp:354-404 | against any producer delivered sequences strictly increase, a slot being read has exactly one lease, and leased payloads are what their holders saw |
| RingConsumer.LeaseIsStable | src/protocol_ipc.cpp:102-110 | a leased slot stays in reading with its contents until that lease is dropped |
| RingConsumer.QuietCallIsTakeLatest | src/protocol_ipc.cpp:354-404 | the atomic steps run alone compute what the plain call computes |
| RingConsumer.NewerExactlyWhenLate | src/protocol_ipc.cpp:357-389 | from the choice to its release a ready slot holds a higher sequence than the chosen one if and only if its frame was published after the chosen one, and either after the scan passed its slot or losing against a sequence read while being replaced |
| RingConsumer.NewestUnlessLate | src/protocol_ipc.cpp:354-389 | with nothing published behind the scan and the chosen sequence read untouched, the chosen frame is the newest of all |
| RingConsumer.NewestCanBeDropped | src/protocol_ipc.cpp:381-389 | a run in which the newest frame, published behind the scan, is released unseen |
| RingConsumer.OverreadDropsNewest | src/protocol_ipc.cpp:363-367 | a run in which a sequence made of two halves makes the scan pass over the newest frame |
| CapabilityHandshake.NeverStuckInPoll | src/protocol_ipc.cpp:536-610 | once Stop is past its shutdown step, Run is never in the unlimited wait on a descriptor that was not shut down |
| CapabilityHandshake.JoinTerminates | src/protocol_ipc.cpp:536-548 | during the join every step of Run is unblocked and brings it nearer to its end |
| CapabilityHandshake.EventsStayConnected | src/protocol_ipc.cpp:571-601 | with events one connection serves any number of messages |
| CapabilityHandshake.WithoutEventsReconnects | src/protocol_ipc.cpp:589-604 | without events one message ends the connection, says whether the next one has events, and the next one is made |
| CapabilityHandshake.ClosedExactlyOnce | src/protocol_ipc.cpp:432-436 | every descriptor opened is closed exactly once, in order, on every path |
| CapabilityHandshake.ShutdownHitsItsTarget | src/protocol_ipc.cpp:543-545 | Stop never shuts down a later connection than the one it found |
| CapabilityHandshake.ShutdownHitsExactlyWhenHeld | src/protocol_ipc.cpp:543-545 | the number Stop holds is open if and only if Run still holds its connection |
| CapabilityHandshake.ShutdownCanMiss | src/protocol_ipc.cpp:543-545 | a run in which the number Stop holds has been closed already |
| CapabilityHandshake.StepKeeps | src/protocol_ipc.cpp:549-610 | every step of either thread keeps ownership of the descriptor and the handshake |
| JsonText.JSONString | src/protocol_ipc.cpp:217-257 | the loop writes the quoted escape of every character |
| JsonText.StringRoundTrip | src/protocol_ipc.cpp:217-257 | a JSON reader gets every string back and stops at its closing quote |
| JsonText.EscapedIsPrintable | src/protocol_ipc.cpp:217-257 | the output has no raw control character |
| JsonText.SessionJSON | src/protocol_ipc.cpp:259-272 | the appends build the session request |
| JsonText.PlainSession | src/protocol_ipc.cpp:259-272 | for values with nothing to escape, the request spelled out |
| JsonText.SessionRoundTrip | src/protocol_ipc.cpp:259-272 | a reader gets all six values back, the optional one included |
| JsonText.SessionIsOneLine | src/protocol_ipc.cpp:259-272 | the request has exactly one newline, its last character |
| NalScanner.H264NALTypes | internal/vnc/sink.go:1104-1128 | the search loop equals a recursive scanner that knows only the three-byte start code |
| NalScanner.ScanFourByteCode | internal/vnc/sink.go:1112-1116 | the four-byte case finds what the three-byte case finds |
| NalScanner.ScanComplete | internal/vnc/sink.go:1104-1128 | all start codes are reported if and only if none begins in a NAL header byte |
| NalScanner.ReportedIffPresent | internal/vnc/sink.go:1130-1137 | with none such, a type is found if and only if a start code carries it or the payload is that bare unit |
| NalScanner.UnitsAreReported | internal/vnc/sink.go:1104-1128 | whatever an encoder writes in NAL units without start codes inside, behind start codes of either length, is reported type by type in order |
| NalScanner.KeyframeCanBeMissed | internal/vnc/sink.go:1104-1128 | a payload whose keyframe start code is skipped |
| H264Buffer.CommitWellFormed | internal/vnc/sink.go:233-255 | a write keeps at most 240 frames and 8 MiB, an exact byte count and a keyframe in front |
| H264Buffer.KindOfUnits | internal/vnc/sink.go:228-241 | an access unit of such NAL units is a keyframe exactly if one has type 5, and held back exactly if none has and one has type 7 or 8 |
| H264Buffer.Sink.WriteVideoLocked | internal/vnc/sink.go:227-255 | the buffer after one access unit: held back, restarted, appended or ignored |
| H264Buffer.Sink.AppendH264FrameLocked | internal/vnc/sink.go:854-861 | the next number is given and an overflow empties the buffer |
| H264Buffer.Sink.SwitchClientEncoding | internal/vnc/sink.go:870-907 | exactly one client moves between the counters, and the buffer is emptied when the first H.264 client comes or the last goes |
| H264Buffer.Sink.SelectFrame | internal/vnc/sink.go:810-819 | the first buffered frame behind the cursor |
| H264Viewers.StepKeeps | internal/vnc/sink.go:214-256 | every event keeps the buffer's numbering, the units behind every frame, the chain of references, each viewer's history and the counters |
| H264Viewers.EveryRunIsDecodable | internal/vnc/sink.go:810-851 | in every run each frame a viewer gets carries the unit that was offered, and is flagged keyframe or directly follows its previous one; a picture is then missing between the two if and only if one was offered there that is over the limit or carries a parameter set without a reported IDR slice |
| H264Viewers.EveryRunIsBounded | internal/vnc/sink.go:854-935 | in every run the buffer is contiguous, starts with a keyframe and is within both limits, and the counter is the number of H.264 viewers |
| H264Buffer.KeyframeCommit | internal/vnc/sink.go:242-250 | a keyframe leaves the held-back units and itself, in order, as the whole buffer if and only if they fit the limit together |
| H264Viewers.BootstrapIsHeldSince | internal/vnc/sink.go:234-240 | in every run the units held back are the newest four committed since the last keyframe or reset |
| H264Viewers.EveryKeyframeIsIntroduced | internal/vnc/sink.go:242-252 | in every run a committed keyframe has exactly those units in front of it if and only if all fit the limit |
| H264Viewers.EveryRunBuffersTheStream | internal/vnc/sink.go:227-256 | in every run the buffer is the units in front of the last keyframe, the keyframe and every delta committed since, until a limit, the first viewer or the last empties it |
| H264Viewers.LateViewerGetsNoSet | internal/vnc/sink.go:242-252 | a run in which a later viewer starts at an IDR slice without the parameter set offered before |
| H264Viewers.LostPictureLeavesGap | internal/vnc/sink.go:218-240 | every such picture can be missed: a run in which a viewer gets a delta without its predecessor |
| H264Viewers.HeldBackSliceLeavesGap | internal/vnc/sink.go:234-240 | the same for a concrete unit of a parameter set and a slice |
| H264Viewers.OversizedPictureLeavesGap | internal/vnc/sink.go:218-220 | the same for every picture over the limit |

## Left out

- LibVNCServer, libjpeg, Opus, json-c and the Go RFB library: only what a call of theirs may do appears, as parameters (whole-message replies, region updates, decode results).
- Sockets, poll, eventfd, mmap, systemd activation, credentials and configuration: plumbing; short writes, readiness and time are parameters, and the poll timeout is not modelled.
- The ring producer and the media core: a rely condition in `RingConsumer` stands for them; the 8-byte load of a sequence is one step, which returns anything if the producer was at the slot since the state load.
- `src/keymap.cpp`, `internal/vnc/input.go`, the button-mask translation and `src/admin_hid.cpp`: tables and an HTTP exchange; the HID side is an append-only log.
- `frameToRGBA` and the raw encoding of the Go sink: index arithmetic without state.
- Demand callbacks in `runClient`: they run outside the lock, so the counters do not order them.
- `SyncSubscription` and `SyncAudioSubscription`: when subscriptions start and stop; what clearing the frame does is in `RfbServer` and `Damage`.
- Session reporting, statistics, logging, the web page and packaging.
- `MediaSubscription::Run` and `AudioSubscription::Run`: their reconnect loops are left out; the ring and the queue they feed are modelled.
- Two-thread parts (pointer threads, ring producer, capability thread): steps are functions on values instead of methods on shared objects, so memory ordering weaker than interleaving is not captured.
- Regions in `RfbServer`: the library's update is opaque bytes there; which pixels it carries is the subject of `Damage`.
- RfbMessages.ParseBack: native JPEG frames and library messages carry no length of their own; a reader has to be told their sizes.
- RfbClient.ClientData.QueueJPEG: clears the library's regions in the source; that part is the direct JPEG event of `Damage`.
- RfbServer.VNCServer.Resize: the framebuffer, the decoded state and the input scale are in `Damage` and `PointerInput`.
- RfbRuns.EveryRunConservesAudio: says nothing about closed clients, whose chunks may be dropped or cut in the middle of a packet.
- JsonText.StringRoundTrip: the reader knows no surrogate pairs, which the writer never produces.
- Out-of-memory paths (`std::bad_alloc` in the framebuffer allocation).
