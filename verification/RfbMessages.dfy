/** The server-to-client messages this server writes itself, as bytes, and the reader a viewer needs for
    them (section 7.6.1 of RFC 6143 for framebuffer updates, the QEMU audio extension for the rest). */
module RfbMessages {
  import opened Base
  import TightLength

  type uint16 = x: int | 0 <= x < 0x1_0000

  datatype Encoding = Tight | Native

  /** Library stands for whole messages the library writes in one go. */
  datatype Message =
    | Jpeg(encoding: Encoding, width: uint16, height: uint16, payload: seq<byte>)
    | AudioCapability(width: uint16, height: uint16)
    | AudioBegin
    | AudioEnd
    | AudioData(pcm: seq<byte>)
    | Library(bytes: seq<byte>)

  const TIGHT_CODE: seq<byte> := [0, 0, 0, 7]
  const NATIVE_CODE: seq<byte> := [0, 0, 0, 21]
  const AUDIO_CODE: seq<byte> := [255, 255, 254, 253]

  /** The registered numbers: 7, 21 and -259, as 32-bit words. */
  lemma EncodingNumbers()
    ensures TIGHT_CODE == BE32(7) && NATIVE_CODE == BE32(21) && AUDIO_CODE == BE32(0x1_0000_0000 - 259)
  {
  }

  /** A framebuffer update of one rectangle at the origin: type, padding, count, x, y, size, encoding. */
  function Rectangle(w: uint16, h: uint16, code: seq<byte>): (r: seq<byte>)
    ensures |r| == 12 + |code|
  {
    [0, 0, 0, 1, 0, 0, 0, 0] + BE16(w) + BE16(h) + code
  }

  function JpegHeader(e: Encoding, w: uint16, h: uint16, size: nat): (r: seq<byte>)
    ensures 16 <= |r| <= 20
  {
    match e
    case Native => Rectangle(w, h, NATIVE_CODE)
    case Tight => Rectangle(w, h, TIGHT_CODE) + ([0x90] + TightLength.Compact(size))
  }

  function DataHeader(size: nat): (r: seq<byte>)
    ensures |r| == 8
  {
    [255, 1, 0, 2] + BE32(size % 0x1_0000_0000)
  }

  function Bytes(m: Message): seq<byte> {
    match m
    case Jpeg(e, w, h, payload) => JpegHeader(e, w, h, |payload|) + payload
    case AudioCapability(w, h) => Rectangle(w, h, AUDIO_CODE)
    case AudioBegin => [255, 1, 0, 1]
    case AudioEnd => [255, 1, 0, 0]
    case AudioData(pcm) => DataHeader(|pcm|) + pcm
    case Library(bytes) => bytes
  }

  function Flatten(messages: seq<Message>): seq<byte> {
    if messages == [] then [] else Flatten(messages[..|messages| - 1]) + Bytes(messages[|messages| - 1])
  }

  // ---- the viewer's side ----

  /** Messages that carry their own length. A native JPEG ends where the JPEG decoder says. */
  predicate SelfDelimiting(m: Message) {
    match m
    case Jpeg(e, _, _, payload) => e == Tight && |payload| <= TightLength.MAX_TIGHT_LENGTH
    case AudioData(pcm) => |pcm| < 0x1_0000_0000
    case Library(_) => false
    case _ => true
  }

  /** n bytes, then whatever follows. */
  function Take(n: nat, s: seq<byte>): Option<(seq<byte>, seq<byte>)> {
    if |s| < n then None else Some((s[..n], s[n..]))
  }

  function ParseRectangle(s: seq<byte>): Option<(Message, seq<byte>)>
    requires |s| >= 16
  {
    var w, h, code, rest := ReadBE16(s[8..]), ReadBE16(s[10..]), s[12..16], s[16..];
    if s[..8] != [0, 0, 0, 1, 0, 0, 0, 0] then None
    else if code == AUDIO_CODE then Some((AudioCapability(w, h), rest))
    else if code == TIGHT_CODE then ParseTight(w, h, rest)
    else None
  }

  function ParseTight(w: uint16, h: uint16, s: seq<byte>): Option<(Message, seq<byte>)> {
    if |s| == 0 || s[0] != 0x90 then None
    else match TightLength.Decode(s[1..])
      case None => None
      case Some((n, rest)) =>
        match Take(n, rest)
        case None => None
        case Some((payload, tail)) => Some((Jpeg(Tight, w, h, payload), tail))
  }

  function ParseAudio(s: seq<byte>): Option<(Message, seq<byte>)>
    requires |s| >= 4
  {
    var rest := s[4..];
    if s[..4] == [255, 1, 0, 0] then Some((AudioEnd, rest))
    else if s[..4] == [255, 1, 0, 1] then Some((AudioBegin, rest))
    else if s[..4] != [255, 1, 0, 2] || |rest| < 4 then None
    else
      match Take(ReadBE32(rest), rest[4..])
      case None => None
      case Some((pcm, tail)) => Some((AudioData(pcm), tail))
  }

  /** One message off the front, None while it is incomplete or unknown. */
  function Parse(s: seq<byte>): Option<(Message, seq<byte>)> {
    if |s| == 0 then None
    else if s[0] == 0 then (if |s| < 16 then None else ParseRectangle(s))
    else if s[0] == 255 then (if |s| < 4 then None else ParseAudio(s))
    else None
  }

  lemma RectangleFields(w: uint16, h: uint16, code: seq<byte>, rest: seq<byte>)
    requires |code| == 4
    ensures var s := Rectangle(w, h, code) + rest;
            && s[..8] == [0, 0, 0, 1, 0, 0, 0, 0] && s[12..16] == code && s[16..] == rest
            && ReadBE16(s[8..]) == w && ReadBE16(s[10..]) == h
  {
    var s := Rectangle(w, h, code) + rest;
    assert s[10..] == BE16(h) + (code + rest);
    assert s[8..] == BE16(w) + (BE16(h) + (code + rest));
    ReadAfterWriteBE(w, BE16(h) + (code + rest));
    ReadAfterWriteBE(h, code + rest);
  }

  lemma ParseTightBack(w: uint16, h: uint16, payload: seq<byte>, rest: seq<byte>)
    requires |payload| <= TightLength.MAX_TIGHT_LENGTH
    ensures ParseTight(w, h, [0x90] + TightLength.Compact(|payload|) + (payload + rest)) == Some((Jpeg(Tight, w, h, payload), rest))
  {
    var s := [0x90] + TightLength.Compact(|payload|) + (payload + rest);
    assert s[1..] == TightLength.Compact(|payload|) + (payload + rest);
    TightLength.RoundTrip(|payload|, payload + rest);
    assert (payload + rest)[..|payload|] == payload && (payload + rest)[|payload|..] == rest;
  }

  lemma TakeBack(taken: seq<byte>, rest: seq<byte>)
    ensures Take(|taken|, taken + rest) == Some((taken, rest))
  {
  }

  lemma ParseDataBack(pcm: seq<byte>, rest: seq<byte>)
    requires |pcm| < 0x1_0000_0000
    ensures ParseAudio(DataHeader(|pcm|) + (pcm + rest)) == Some((AudioData(pcm), rest))
  {
    hide BE32, ReadBE32, Take;
    var s := DataHeader(|pcm|) + (pcm + rest);
    var body := BE32(|pcm|) + (pcm + rest);
    DataFields(|pcm|, pcm + rest);
    ReadAfterWriteBE(|pcm|, pcm + rest);
    TakeBack(pcm, rest);
  }

  lemma DataFields(size: nat, rest: seq<byte>)
    requires size < 0x1_0000_0000
    ensures var s := DataHeader(size) + rest;
            s[..4] == [255, 1, 0, 2] && s[4..] == BE32(size) + rest && |BE32(size)| == 4
  {
  }

  /** A self-delimiting message parses back, whatever follows it. */
  lemma ParseBack(m: Message, rest: seq<byte>)
    requires SelfDelimiting(m)
    ensures Parse(Bytes(m) + rest) == Some((m, rest))
  {
    match m
    case AudioCapability(w, h) => RectangleFields(w, h, AUDIO_CODE, rest);
    case Jpeg(_, w, h, payload) =>
      var length := [0x90] + TightLength.Compact(|payload|);
      var s := Bytes(m) + rest;
      Associate(Rectangle(w, h, TIGHT_CODE) + length, payload, rest);
      Associate(Rectangle(w, h, TIGHT_CODE), length, payload + rest);
      RectangleFields(w, h, TIGHT_CODE, length + (payload + rest));
      ParseTightBack(w, h, payload, rest);
      assert Parse(s) == ParseRectangle(s);
    case AudioData(pcm) =>
      Associate(DataHeader(|pcm|), pcm, rest);
      ParseDataBack(pcm, rest);
      var s := Bytes(m) + rest;
      assert Parse(s) == ParseAudio(s);
    case AudioBegin => var s := Bytes(m) + rest; assert s[..4] == Bytes(m) && s[4..] == rest;
    case AudioEnd => var s := Bytes(m) + rest; assert s[..4] == Bytes(m) && s[4..] == rest;
  }

  lemma CompactCut(n: nat, k: nat)
    requires k < |TightLength.Compact(n)|
    ensures TightLength.Decode(TightLength.Compact(n)[..k]) == None
  {
  }

  lemma TightFront(c: seq<byte>, payload: seq<byte>, k: nat)
    requires 0 < k < 1 + |c|
    ensures var s := ([0x90] + c + payload)[..k]; s[0] == 0x90 && s[1..] == c[..k - 1]
  {
  }

  lemma TightTail(c: seq<byte>, payload: seq<byte>, k: nat)
    requires 1 + |c| <= k <= 1 + |c| + |payload|
    ensures var s := ([0x90] + c + payload)[..k]; s[0] == 0x90 && s[1..] == c + payload[..k - 1 - |c|]
  {
  }

  lemma TightCut(w: uint16, h: uint16, payload: seq<byte>, k: nat)
    requires |payload| <= TightLength.MAX_TIGHT_LENGTH && k < 1 + |TightLength.Compact(|payload|)| + |payload|
    ensures ParseTight(w, h, ([0x90] + TightLength.Compact(|payload|) + payload)[..k]) == None
  {
    var c := TightLength.Compact(|payload|);
    var s := ([0x90] + c + payload)[..k];
    if 0 < k < 1 + |c| {
      TightFront(c, payload, k);
      CompactCut(|payload|, k - 1);
    } else if 0 < k {
      TightTail(c, payload, k);
      TightLength.RoundTrip(|payload|, payload[..k - 1 - |c|]);
    }
  }

  lemma DataCut(pcm: seq<byte>, k: nat)
    requires |pcm| < 0x1_0000_0000 && 4 <= k < 8 + |pcm|
    ensures ParseAudio((DataHeader(|pcm|) + pcm)[..k]) == None
  {
    DataParts(pcm, k);
    hide BE32, ReadBE32, DataHeader;
    if 8 <= k { ReadAfterWriteBE(|pcm|, pcm[..k - 8]); }
  }

  lemma DataParts(pcm: seq<byte>, k: nat)
    requires |pcm| < 0x1_0000_0000 && 4 <= k < 8 + |pcm|
    ensures var s := (DataHeader(|pcm|) + pcm)[..k];
            s[..4] == [255, 1, 0, 2] && |s| == k && (8 <= k ==> s[4..] == BE32(|pcm|) + pcm[..k - 8])
  {
    var header := DataHeader(|pcm|);
    assert header[..4] == [255, 1, 0, 2] && header[4..] == BE32(|pcm|);
    if 8 <= k { assert (header + pcm)[..k] == header + pcm[..k - 8]; }
  }

  /** A message cut short is never taken for a whole one. */
  lemma ParseCut(m: Message, k: nat)
    requires SelfDelimiting(m) && k < |Bytes(m)|
    ensures Parse(Bytes(m)[..k]) == None
  {
    match m
    case Jpeg(_, w, h, payload) =>
      if 16 <= k {
        var length := [0x90] + TightLength.Compact(|payload|);
        Associate(Rectangle(w, h, TIGHT_CODE), length, payload);
        var s := Bytes(m)[..k];
        assert s == Rectangle(w, h, TIGHT_CODE) + (length + payload)[..k - 16];
        RectangleFields(w, h, TIGHT_CODE, (length + payload)[..k - 16]);
        TightCut(w, h, payload, k - 16);
        assert Parse(s) == ParseRectangle(s);
      }
    case AudioData(pcm) => if 4 <= k { DataCut(pcm, k); }
    case _ =>
  }

  /** Everything that can be read off the front, and the bytes left over. */
  function ParseAll(s: seq<byte>): (seq<Message>, seq<byte>)
    decreases |s|
  {
    match Parse(s)
    case None => ([], s)
    case Some((m, rest)) =>
      if |rest| >= |s| then ([], s)
      else var (more, left) := ParseAll(rest); ([m] + more, left)
  }

  lemma {:induction false} FlattenFront(m: Message, messages: seq<Message>)
    ensures Flatten([m] + messages) == Bytes(m) + Flatten(messages)
  {
    hide Bytes;
    var all := [m] + messages;
    if messages == [] {
      assert all == [m] && all[..0] == [];
      assert Flatten(all) == [] + Bytes(m);
    } else {
      var front, last := messages[..|messages| - 1], messages[|messages| - 1];
      FlattenFront(m, front);
      assert all[..|all| - 1] == [m] + front && all[|all| - 1] == last;
      Associate(Bytes(m), Flatten(front), Bytes(last));
    }
  }

  /** A stream of whole messages followed by part of one is read as exactly those messages. */
  lemma {:induction false} ParseAllBack(messages: seq<Message>, next: Message, k: nat)
    requires forall i :: 0 <= i < |messages| ==> SelfDelimiting(messages[i])
    requires SelfDelimiting(next) && k < |Bytes(next)|
    ensures ParseAll(Flatten(messages) + Bytes(next)[..k]) == (messages, Bytes(next)[..k])
  {
    var tail := Bytes(next)[..k];
    if messages == [] {
      assert Flatten(messages) + tail == tail;
      ParseCut(next, k);
    } else {
      var m, rest := messages[0], messages[1..];
      FlattenFront(m, rest);
      assert messages == [m] + rest;
      Associate(Bytes(m), Flatten(rest), tail);
      ParseBack(m, Flatten(rest) + tail);
      ParseAllBack(rest, next, k);
    }
  }

  // ---- streams with messages the parser does not know ----

  /** What a reader has to be told about a message: its size, if the bytes do not say. */
  function HintOf(m: Message): Option<nat> {
    if SelfDelimiting(m) then None else Some(|Bytes(m)|)
  }

  /** What it makes of the message: the same, or the opaque bytes. */
  function AsRead(m: Message): Message {
    if SelfDelimiting(m) then m else Library(Bytes(m))
  }

  function Hints(messages: seq<Message>): seq<Option<nat>> {
    seq(|messages|, i requires 0 <= i < |messages| => HintOf(messages[i]))
  }

  function AllAsRead(messages: seq<Message>): seq<Message> {
    seq(|messages|, i requires 0 <= i < |messages| => AsRead(messages[i]))
  }

  function ReadOne(hint: Option<nat>, s: seq<byte>): Option<(Message, seq<byte>)> {
    match hint
    case None => Parse(s)
    case Some(n) =>
      match Take(n, s)
      case None => None
      case Some((bytes, rest)) => Some((Library(bytes), rest))
  }

  /** As many messages as there are hints, and the bytes left over. */
  function ReadAll(hints: seq<Option<nat>>, s: seq<byte>): (seq<Message>, seq<byte>) {
    if hints == [] then ([], s)
    else match ReadOne(hints[0], s)
      case None => ([], s)
      case Some((m, rest)) => var (more, left) := ReadAll(hints[1..], rest); ([m] + more, left)
  }

  lemma ReadOneBack(m: Message, rest: seq<byte>)
    ensures ReadOne(HintOf(m), Bytes(m) + rest) == Some((AsRead(m), rest))
  {
    hide Parse, Bytes;
    if SelfDelimiting(m) { ParseBack(m, rest); } else { TakeBack(Bytes(m), rest); }
  }

  /** Any stream of whole messages with anything behind it is read message by message. */
  lemma {:induction false} ReadAllBack(messages: seq<Message>, tail: seq<byte>)
    ensures ReadAll(Hints(messages), Flatten(messages) + tail) == (AllAsRead(messages), tail)
  {
    hide Bytes, ReadOne, HintOf, AsRead;
    if messages == [] {
      assert Flatten(messages) + tail == tail;
    } else {
      var m, rest := messages[0], messages[1..];
      FlattenFront(m, rest);
      assert messages == [m] + rest;
      Associate(Bytes(m), Flatten(rest), tail);
      ReadOneBack(m, Flatten(rest) + tail);
      ReadAllBack(rest, tail);
      assert Hints(messages)[1..] == Hints(rest);
      assert AllAsRead(messages) == [AsRead(m)] + AllAsRead(rest);
    }
  }
}
