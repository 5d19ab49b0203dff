/** Damage tracking of the fallback (decoded framebuffer) path for viewers of different speed. The library's
    regions are sets of row-major pixel positions; its update sends modified-and-requested pixels, removes
    them from the damage and consumes the request. */
module Damage {
  import opened Base
  import opened DirtyTiles

  type Region = set<nat>

  /** One viewer; shown is the picture on its screen, jpeg the last one sent to it undecoded, direct the
      positions not damaged since then. */
  datatype Viewer = Viewer(modified: Region, requested: Region, continuous: bool, shown: seq<Pixel>,
                           direct: Region, jpeg: seq<Pixel>)

  /** Empty previous means nothing decoded since the last reset. latest is the newest sequence a frame
      round has used, failed the newest one whose decode failed. */
  datatype Screen = Screen(width: nat, height: nat, framebuffer: seq<Pixel>, previous: seq<Pixel>,
                           decoded: nat, latest: nat, failed: nat, viewers: map<nat, Viewer>)

  datatype Outcome = Decoded(pixels: seq<Pixel>) | Failed(partial: seq<Pixel>)

  predicate Position(i: nat, n: nat) { i < n }

  function All(n: nat): Region { set i: nat | i < n && Position(i, n) }

  function Covered(rects: seq<Rect>, w: nat, n: nat): Region
    requires w > 0
  {
    set i: nat | i < n && exists r :: r in rects && Inside(r, i % w, i / w)
  }

  function Mark(v: Viewer, region: Region): Viewer {
    v.(modified := v.modified + region, direct := v.direct - region)
  }

  function MarkAll(viewers: map<nat, Viewer>, region: Region): map<nat, Viewer> {
    map id | id in viewers :: Mark(viewers[id], region)
  }

  function Previous(s: Screen): Option<seq<Pixel>> {
    if s.previous == [] then None else Some(s.previous)
  }

  predicate Sized(s: Screen) {
    s.width > 0 && s.height > 0 && IsFrame(s.framebuffer, s.width, s.height)
    && (s.previous != [] ==> IsFrame(s.previous, s.width, s.height))
  }

  predicate Fits(s: Screen, o: Outcome) {
    IsFrame(if o.Decoded? then o.pixels else o.partial, s.width, s.height)
  }

  predicate AlreadyDecoded(s: Screen, sequence: nat) {
    s.decoded == sequence && s.previous != []
  }

  /** What DecodeLatestFrame does to the screen; it succeeds unless it has to decode and cannot. */
  ghost function Decode(s: Screen, sequence: nat, o: Outcome): Screen
    requires Sized(s) && Fits(s, o)
  {
    if AlreadyDecoded(s, sequence) then s
    else match o
      case Failed(partial) => s.(framebuffer := partial, failed := Max(s.failed, sequence))
      case Decoded(pixels) =>
        var rects := Collected(Previous(s), pixels, s.width, s.height);
        s.(framebuffer := pixels, previous := pixels, decoded := sequence,
           viewers := MarkAll(s.viewers, Covered(rects, s.width, |pixels|)))
  }

  ghost predicate DecodeOk(s: Screen, sequence: nat, o: Outcome) {
    AlreadyDecoded(s, sequence) || o.Decoded?
  }

  function Painted(shown: seq<Pixel>, framebuffer: seq<Pixel>, region: Region): (r: seq<Pixel>)
    requires |shown| == |framebuffer|
    ensures |r| == |shown|
  {
    seq(|shown|, i requires 0 <= i < |shown| => if i in region then framebuffer[i] else shown[i])
  }

  /** The region changes SendFramebuffer makes before it looks for pixels to send. */
  function Prepared(v: Viewer, force: bool, n: nat): Viewer {
    var v1 := if force then Mark(v, All(n)) else v;
    if v.continuous then v1.(requested := v1.requested + All(n)) else v1
  }

  function Pending(v: Viewer): Region { v.modified * v.requested }

  /** The library's framebuffer update. */
  function Delivered(v: Viewer, framebuffer: seq<Pixel>): Viewer
    requires |v.shown| == |framebuffer|
  {
    v.(shown := Painted(v.shown, framebuffer, Pending(v)), modified := v.modified - Pending(v), requested := {})
  }

  function Send(s: Screen, id: nat, force: bool): Screen
    requires id in s.viewers && |s.viewers[id].shown| == |s.framebuffer|
  {
    var v := Prepared(s.viewers[id], force, |s.framebuffer|);
    s.(viewers := s.viewers[id := if Pending(v) == {} then v else Delivered(v, s.framebuffer)])
  }

  /** It fails only when there is something to send and the library cannot. */
  predicate SendOk(s: Screen, id: nat, force: bool, works: bool)
    requires id in s.viewers
  {
    works || Pending(Prepared(s.viewers[id], force, |s.framebuffer|)) == {}
  }

  // ---- the server object ----

  class FallbackServer {
    var width: nat
    var height: nat
    var framebuffer: seq<Pixel>
    var previousRgb: seq<Pixel>
    var decodedSequence: nat
    var viewers: map<nat, Viewer>
    ghost var latest: nat
    ghost var failed: nat

    ghost function View(): Screen
      reads this
    {
      Screen(width, height, framebuffer, previousRgb, decodedSequence, latest, failed, viewers)
    }

    method MarkRectAsModified(rect: Rect, ghost before: map<nat, Viewer>, ghost done: seq<Rect>)
      requires width > 0 && |framebuffer| == width * height
      requires viewers == MarkAll(before, Covered(done, width, |framebuffer|))
      modifies `viewers
      ensures viewers == MarkAll(before, Covered(done + [rect], width, |framebuffer|))
    {
      var n, w := |framebuffer|, width;
      var region := set i: nat | i < n && Inside(rect, i % w, i / w);
      viewers := MarkAll(viewers, region);
      CoveredGrows(done, rect, w, n);
      MarkTwice(before, Covered(done, w, n), region);
    }

    /** `DecodeLatestFrame`; o is what the JPEG decoder does if it is called. */
    method DecodeLatestFrame(sequence: nat, o: Outcome) returns (ok: bool)
      requires Sized(View()) && Fits(View(), o)
      modifies this
      ensures View() == Decode(old(View()), sequence, o) && ok == DecodeOk(old(View()), sequence, o)
    {
      hide Covered, Collected, MarkAll;
      if decodedSequence == sequence && previousRgb != [] {
        return true;
      }
      if |previousRgb| != width * height {
        previousRgb := [];
      }
      match o
      case Failed(partial) =>
        framebuffer := partial;
        failed := Max(failed, sequence);
        return false;
      case Decoded(pixels) =>
        framebuffer := pixels;
        var tiles := CollectDirtyTiles(if previousRgb == [] then None else Some(previousRgb), pixels, width, height);
        ghost var before := viewers;
        MarkNothing(before, width, |pixels|);
        for k := 0 to |tiles|
          invariant framebuffer == pixels && width == old(width) && height == old(height)
          invariant viewers == MarkAll(before, Covered(tiles[..k], width, |pixels|))
          invariant previousRgb == old(previousRgb) && decodedSequence == old(decodedSequence)
          invariant latest == old(latest) && failed == old(failed)
        {
          MarkRectAsModified(tiles[k], before, tiles[..k]);
          assert tiles[..k] + [tiles[k]] == tiles[..k + 1];
        }
        assert tiles[..|tiles|] == tiles;
        previousRgb := pixels;
        decodedSequence := sequence;
        return true;
    }

    /** `SendFramebuffer`; works tells whether the library's update goes through if there is one. After a
        failure the caller closes the viewer. */
    method SendFramebuffer(id: nat, force: bool, works: bool) returns (ok: bool, sent: bool)
      requires id in viewers && |viewers[id].shown| == |framebuffer|
      modifies `viewers
      ensures ok <==> SendOk(old(View()), id, force, works)
      ensures ok ==> View() == Send(old(View()), id, force)
      ensures !ok ==> viewers.Keys == old(viewers.Keys) && View() == old(View()).(viewers := viewers)
      ensures !ok ==> forall other :: other in viewers && other != id ==> viewers[other] == old(viewers[other])
      ensures sent <==> ok && Pending(Prepared(old(viewers[id]), force, |framebuffer|)) != {}
    {
      var v := viewers[id];
      if force || v.continuous {
        var region := All(|framebuffer|);
        if force {
          v := Mark(v, region);
        }
        if v.continuous {
          v := v.(requested := v.requested + region);
        }
      }
      viewers := viewers[id := v];
      if v.modified * v.requested == {} {
        return true, false;
      }
      if !works {
        return false, false;
      }
      viewers := viewers[id := Delivered(v, framebuffer)];
      return true, true;
    }

    /** `Resize`, with the screens of the clients that understand size changes; the others are closed.
        The library's size message leaves no damage behind. */
    method Resize(w: nat, h: nat, survivors: map<nat, seq<Pixel>>) returns (ok: bool)
      requires survivors.Keys <= viewers.Keys
      modifies this
      ensures ok <==> w > 0 && h > 0 && w * h * 2 <= MAX_FRAMEBUFFER_BYTES
      ensures View() == if ok then Resized(old(View()), w, h, survivors) else old(View())
    {
      if w == 0 || h == 0 || w * h * 2 > MAX_FRAMEBUFFER_BYTES {
        return false;
      }
      framebuffer := seq(w * h, _ => 0);
      width, height := w, h;
      previousRgb, decodedSequence := [], 0;
      viewers := map id | id in survivors :: Blank(survivors[id], viewers[id].continuous);
      return true;
    }

    /** `ClearLatestFrame`, run when the last client is gone. */
    method ClearLatestFrame()
      modifies this
      ensures View() == Cleared(old(View()))
    {
      previousRgb, decodedSequence := [], 0;
      latest, failed := 0, 0;
    }
  }

  const MAX_FRAMEBUFFER_BYTES := 0x400_0000

  /** A viewer whose picture is unknown but which will be repainted in full by the next decode. */
  function Blank(shown: seq<Pixel>, continuous: bool): Viewer {
    Viewer({}, {}, continuous, shown, {}, [])
  }

  function Resized(s: Screen, w: nat, h: nat, survivors: map<nat, seq<Pixel>>): Screen
    requires survivors.Keys <= s.viewers.Keys
  {
    s.(width := w, height := h, framebuffer := seq(w * h, _ => 0), previous := [], decoded := 0,
       viewers := map id | id in survivors :: Blank(survivors[id], s.viewers[id].continuous))
  }

  function Cleared(s: Screen): Screen {
    s.(previous := [], decoded := 0, latest := 0, failed := 0)
  }

  lemma CoveredGrows(done: seq<Rect>, r: Rect, w: nat, n: nat)
    requires w > 0
    ensures Covered(done + [r], w, n) == Covered(done, w, n) + (set i: nat | i < n && Inside(r, i % w, i / w))
  {
    forall i: nat
      ensures (exists q :: q in done + [r] && Inside(q, i % w, i / w)) <==>
              (exists q :: q in done && Inside(q, i % w, i / w)) || Inside(r, i % w, i / w)
    {
      assert r in done + [r];
      assert forall q :: q in done ==> q in done + [r];
    }
  }

  lemma MarkTwice(viewers: map<nat, Viewer>, a: Region, b: Region)
    ensures MarkAll(MarkAll(viewers, a), b) == MarkAll(viewers, a + b)
  {
    forall id | id in viewers
      ensures Mark(Mark(viewers[id], a), b) == Mark(viewers[id], a + b)
    {
      assert viewers[id].modified + a + b == viewers[id].modified + (a + b);
      assert viewers[id].direct - a - b == viewers[id].direct - (a + b);
    }
  }

  lemma MarkNothing(viewers: map<nat, Viewer>, w: nat, n: nat)
    requires w > 0
    ensures viewers == MarkAll(viewers, Covered([], w, n))
  {
    forall id | id in viewers
      ensures Mark(viewers[id], Covered([], w, n)) == viewers[id]
    {
      assert Covered([], w, n) == {};
    }
  }

  // ---- soundness ----

  /** Outside its damage, and outside pixels of an undecoded JPEG, a viewer shows the last decoded frame. */
  ghost predicate Sound(previous: seq<Pixel>, v: Viewer) {
    forall i: nat :: i < |previous| && i < |v.shown| && i !in v.modified && i !in v.direct ==> v.shown[i] == previous[i]
  }

  /** Pixels of an undecoded JPEG are not damaged and still on the screen. */
  ghost predicate Leftover(v: Viewer) {
    forall i :: i in v.direct ==> i < |v.shown| && i < |v.jpeg| && i !in v.modified && v.shown[i] == v.jpeg[i]
  }

  /** The framebuffer is the last decoded frame, unless a newer decode failed since. */
  ghost predicate Coherent(s: Screen) {
    && s.decoded <= s.latest && s.failed <= s.latest
    && (s.previous != [] && s.failed <= s.decoded ==> s.framebuffer == s.previous)
  }

  ghost predicate Inv(s: Screen) {
    && Sized(s) && Coherent(s)
    && forall id :: id in s.viewers ==> |s.viewers[id].shown| == |s.framebuffer| && Sound(s.previous, s.viewers[id])
                                          && Leftover(s.viewers[id])
  }

  /** A decoded frame damages every position where it differs from the previous one. */
  lemma DecodeDamages(previous: seq<Pixel>, pixels: seq<Pixel>, w: nat, h: nat, i: nat)
    requires w > 0 && h > 0 && IsFrame(pixels, w, h) && (previous != [] ==> IsFrame(previous, w, h)) && i < |pixels|
    ensures var rects := Collected(if previous == [] then None else Some(previous), pixels, w, h);
            i !in Covered(rects, w, |pixels|) ==> previous != [] && previous[i] == pixels[i]
  {
    var x, y := i % w, i / w;
    assert i == Index(w, x, y);
    assert y >= h ==> y * w >= h * w;
    if previous == [] {
      assert Inside(Full(w, h), x, y);
      assert Full(w, h) in [Full(w, h)];
    } else if previous[i] != pixels[i] {
      assert Differs(previous, pixels, w, h, x, y);
      CollectedCovers(previous, pixels, w, h, x, y);
    }
  }

  lemma DecodeSound(previous: seq<Pixel>, pixels: seq<Pixel>, w: nat, h: nat, v: Viewer)
    requires w > 0 && h > 0 && IsFrame(pixels, w, h) && (previous != [] ==> IsFrame(previous, w, h))
    requires Sound(previous, v)
    ensures var rects := Collected(if previous == [] then None else Some(previous), pixels, w, h);
            Sound(pixels, Mark(v, Covered(rects, w, |pixels|)))
  {
    var rects := Collected(if previous == [] then None else Some(previous), pixels, w, h);
    var v' := Mark(v, Covered(rects, w, |pixels|));
    forall i: nat | i < |pixels| && i < |v.shown| && i !in v'.modified && i !in v'.direct
      ensures v.shown[i] == pixels[i]
    {
      DecodeDamages(previous, pixels, w, h, i);
    }
  }

  /** Decoding keeps every viewer sound, also the ones with no request outstanding, and a successful call
      leaves the framebuffer equal to the last decoded frame, whatever failed before. */
  lemma DecodeKeeps(s: Screen, sequence: nat, o: Outcome)
    requires Inv(s) && Fits(s, o) && s.latest <= sequence
    ensures Inv(Decode(s, sequence, o).(latest := sequence))
    ensures DecodeOk(s, sequence, o) ==>
              Decode(s, sequence, o).framebuffer == Decode(s, sequence, o).previous != []
  {
    if !AlreadyDecoded(s, sequence) && o.Decoded? {
      assert s.width * s.height > 0;
      forall id | id in s.viewers
        ensures Sound(o.pixels, Decode(s, sequence, o).viewers[id])
      {
        DecodeSound(s.previous, o.pixels, s.width, s.height, s.viewers[id]);
      }
    }
  }

  lemma SendKeeps(s: Screen, id: nat, force: bool)
    requires Inv(s) && id in s.viewers && s.framebuffer == s.previous
    ensures Inv(Send(s, id, force))
  {
  }

  /** Decoding a frame the screen does not hold yet takes the pixels over, and damages in every viewer exactly
      what its rectangles cover, every changed position among it, and all of a first frame; the pixels on the
      screens and the requests stay. A frame the screen holds is not decoded again, and a failure leaves
      everything but the framebuffer. */
  lemma DecodeExactly(s: Screen, sequence: nat, o: Outcome, id: nat, i: nat)
    requires Inv(s) && Fits(s, o) && id in s.viewers && i < s.width * s.height
    ensures var held, d := s.decoded == sequence && s.previous != [], Decode(s, sequence, o);
            && (held ==> d == s)
            && (!held && o.Failed? ==> d == s.(framebuffer := o.partial, failed := d.failed))
            && (!held && o.Decoded? ==>
                  && d.framebuffer == d.previous == o.pixels && d.decoded == sequence && d.viewers.Keys == s.viewers.Keys
                  && d.viewers[id].shown == s.viewers[id].shown && d.viewers[id].requested == s.viewers[id].requested
                  && d.viewers[id].continuous == s.viewers[id].continuous
                  && (s.previous == [] || s.previous[i] != o.pixels[i] ==> i in d.viewers[id].modified)
                  && d.viewers[id].modified == s.viewers[id].modified
                       + Covered(Collected(Previous(s), o.pixels, s.width, s.height), s.width, |o.pixels|))
  {
    hide Collected, Covered;
    if o.Decoded? { DecodeDamages(s.previous, o.pixels, s.width, s.height, i); }
  }

  /** Which pixels a send repaints: damaged ones or all if forced, of the requested ones or all if updates are
      continuous; the request is used up, unless there was nothing to send. */
  lemma SendExactly(s: Screen, id: nat, force: bool, i: nat)
    requires Inv(s) && id in s.viewers && i < |s.framebuffer|
    ensures var v, v' := s.viewers[id], Send(s, id, force).viewers[id];
            var painted := (force || i in v.modified) && (v.continuous || i in v.requested);
            && v'.shown[i] == (if painted then s.framebuffer[i] else v.shown[i])
            && (i in v'.modified <==> (force || i in v.modified) && !painted)
            && (painted ==> v'.requested == {}) && v'.continuous == v.continuous
            && (v'.shown == v.shown && v'.requested != {} ==> v.requested <= v'.requested)
    ensures Send(s, id, force).(viewers := s.viewers) == s
  {
    hide Sound, Leftover, Coherent;
    var n, v := |s.framebuffer|, s.viewers[id];
    assert Position(i, n) && i in All(n);
    assert i in Pending(Prepared(v, force, n)) <==> (force || i in v.modified) && (v.continuous || i in v.requested);
  }

  /** A send paints exactly the damaged and requested positions with the last decoded frame and leaves the
      damage outside the request alone; a viewer without damage left shows exactly that frame. */
  lemma SendDelivers(s: Screen, id: nat, force: bool)
    requires Inv(s) && id in s.viewers && s.framebuffer == s.previous
    ensures var v, v' := s.viewers[id], Send(s, id, force).viewers[id];
            && (forall i: nat :: i < |v.shown| ==>
                  v'.shown[i] == if i in Pending(Prepared(v, force, |v.shown|)) then s.previous[i] else v.shown[i])
            && v'.modified == Prepared(v, force, |v.shown|).modified - Pending(Prepared(v, force, |v.shown|))
            && (v'.modified == {} && v'.direct == {} ==> v'.shown == s.previous)
    ensures forall other :: other in s.viewers && other != id ==> Send(s, id, force).viewers[other] == s.viewers[other]
  {
    SendKeeps(s, id, force);
  }

  // ---- runs ----

  datatype Event =
    | Join(id: nat, shown: seq<Pixel>)
    | Gone(id: nat)
    | Request(id: nat, region: Region, damage: Region)
    | Continuous(id: nat, enabled: bool)
    | DirectJpeg(id: nat, shown: seq<Pixel>)
    | Update(id: nat, sequence: nat, outcome: Outcome, force: bool, works: bool)
    | ResizeTo(width: nat, height: nat, survivors: map<nat, seq<Pixel>>)
    | Clear

  predicate Enabled(s: Screen, ev: Event) {
    match ev
    case Join(id, shown) => id !in s.viewers && |shown| == |s.framebuffer|
    case Gone(id) => id in s.viewers
    case Request(id, _, _) => id in s.viewers
    case Continuous(id, _) => id in s.viewers
    case DirectJpeg(id, shown) => id in s.viewers && |shown| == |s.framebuffer|
    case Update(id, sequence, o, _, _) => id in s.viewers && s.latest <= sequence && sequence > 0 && Fits(s, o)
    case ResizeTo(w, h, survivors) =>
      w > 0 && h > 0 && survivors.Keys <= s.viewers.Keys && forall id | id in survivors :: |survivors[id]| == w * h
    case Clear => s.viewers == map[]
  }

  ghost function Step(s: Screen, ev: Event): Screen
    requires Inv(s) && Enabled(s, ev)
  {
    match ev
    case Join(id, shown) =>
      s.(viewers := s.viewers[id := Viewer(All(|shown|), {}, false, shown, {}, [])])
    case Gone(id) => s.(viewers := s.viewers - {id})
    case Request(id, region, damage) =>
      var v := Mark(s.viewers[id], damage);
      s.(viewers := s.viewers[id := v.(requested := v.requested + region)])
    case Continuous(id, enabled) => s.(viewers := s.viewers[id := s.viewers[id].(continuous := enabled)])
    case DirectJpeg(id, shown) =>
      s.(viewers := s.viewers[id := Viewer({}, {}, s.viewers[id].continuous, shown, All(|shown|), shown)])
    case Update(id, sequence, o, force, works) =>
      DecodeKeeps(s, sequence, o);
      var d := Decode(s, sequence, o).(latest := sequence);
      if DecodeOk(s, sequence, o) && SendOk(d, id, force, works) then Send(d, id, force) else d.(viewers := d.viewers - {id})
    case ResizeTo(w, h, survivors) =>
      Resized(s, w, h, survivors)
    case Clear => Cleared(s)
  }

  /** The frame round of one viewer. */
  lemma UpdateKeeps(s: Screen, ev: Event)
    requires Inv(s) && Enabled(s, ev) && ev.Update?
    ensures Inv(Step(s, ev))
  {
    hide Sound, Leftover, Send;
    DecodeKeeps(s, ev.sequence, ev.outcome);
    var d := Decode(s, ev.sequence, ev.outcome).(latest := ev.sequence);
    if DecodeOk(s, ev.sequence, ev.outcome) && SendOk(d, ev.id, ev.force, ev.works) {
      SendKeeps(d, ev.id, ev.force);
    }
  }

  lemma StepKeeps(s: Screen, ev: Event)
    requires Inv(s) && Enabled(s, ev)
    ensures Inv(Step(s, ev))
  {
    hide Decode, Send;
    if ev.Update? { UpdateKeeps(s, ev); }
  }

  function Initial(w: nat, h: nat): Screen {
    Screen(w, h, seq(w * h, _ => 0), [], 0, 0, 0, map[])
  }

  lemma InitialOk(w: nat, h: nat)
    requires w > 0 && h > 0
    ensures Inv(Initial(w, h)) && Initial(w, h).previous == []
  {
  }

  /** The screen after a sequence of events, None when one of them cannot happen. */
  ghost function Run(s: Screen, events: seq<Event>): (r: Option<Screen>)
    requires Inv(s)
    ensures r.Some? ==> Inv(r.value)
  {
    if events == [] then Some(s)
    else
      var before, ev := Run(s, events[..|events| - 1]), events[|events| - 1];
      if before.None? || !Enabled(before.value, ev) then None
      else
        StepKeeps(before.value, ev);
        Some(Step(before.value, ev))
  }

  // ---- the last decoded frame, from the events alone ----

  /** Pixels and sequence of a decoded frame; none yet is the empty picture. */
  datatype Decoding = Decoding(pixels: seq<Pixel>, sequence: nat)

  /** The newest decode that was needed and succeeded since the last resize or clear. */
  function LastDecoded(events: seq<Event>): Decoding {
    if events == [] then Decoding([], 0) else DecodedNext(LastDecoded(events[..|events| - 1]), events[|events| - 1])
  }

  function DecodedNext(d: Decoding, ev: Event): Decoding {
    match ev
    case Update(_, sequence, o, _, _) =>
      if o.Failed? || (d.pixels != [] && d.sequence == sequence) then d else Decoding(o.pixels, sequence)
    case ResizeTo(_, _, _) => Decoding([], 0)
    case Clear => Decoding([], 0)
    case _ => d
  }

  lemma StepDecodes(s: Screen, ev: Event, d: Decoding)
    requires Inv(s) && Enabled(s, ev) && s.previous == d.pixels && (d.pixels != [] ==> s.decoded == d.sequence)
    ensures var s', d' := Step(s, ev), DecodedNext(d, ev);
            s'.previous == d'.pixels && (d'.pixels != [] ==> s'.decoded == d'.sequence)
  {
    hide Sound, Leftover, Collected, Covered, MarkAll;
  }

  /** In every run the screen's last frame is the last one decoded. */
  lemma {:induction false} EveryRunKeepsLastDecoded(w: nat, h: nat, events: seq<Event>)
    requires w > 0 && h > 0 && Run(Initial(w, h), events).Some?
    ensures var s, d := Run(Initial(w, h), events).value, LastDecoded(events);
            s.previous == d.pixels && (d.pixels != [] ==> s.decoded == d.sequence)
  {
    InitialOk(w, h);
    hide Inv, Step, Enabled;
    if events != [] {
      var front, last := events[..|events| - 1], events[|events| - 1];
      EveryRunKeepsLastDecoded(w, h, front);
      StepDecodes(Run(Initial(w, h), front).value, last, LastDecoded(front));
    }
  }

  /** The JPEG pixel at a position where a viewer shows something that was never decoded. */
  predicate Foreign(v: Viewer, decoded: seq<Pixel>, i: nat) {
    i in v.direct && i < |v.jpeg| && i < |decoded| && v.jpeg[i] != decoded[i]
  }

  /** Over every run of joins, requests, fast and slow viewers, failed decodes, resizes and direct JPEGs: an
      undamaged position shows the last decoded frame if and only if it is not left over from a JPEG sent
      undecoded that differs there; what is left over is that JPEG's pixel. */
  lemma EveryRunIsSound(w: nat, h: nat, events: seq<Event>, id: nat)
    requires w > 0 && h > 0 && Run(Initial(w, h), events).Some? && id in Run(Initial(w, h), events).value.viewers
    ensures var v, frame := Run(Initial(w, h), events).value.viewers[id], LastDecoded(events).pixels;
            frame != [] ==>
              && |v.shown| == |frame|
              && (forall i: nat :: i < |v.shown| && i !in v.modified ==> (v.shown[i] == frame[i] <==> !Foreign(v, frame, i)))
              && (forall i :: i in v.direct ==> i < |v.shown| && i < |v.jpeg| && v.shown[i] == v.jpeg[i])
  {
    var s := Run(Initial(w, h), events).value;
    var v := s.viewers[id];
    EveryRunKeepsLastDecoded(w, h, events);
    assert Sound(s.previous, v) && Leftover(v);
  }

  /** The viewer was sent no JPEG undecoded since it came or since the last resize. */
  predicate OnFallback(events: seq<Event>, id: nat) {
    events == [] ||
    var last := events[|events| - 1];
    (last.Join? && last.id == id) || last.ResizeTo?
    || (!(last.DirectJpeg? && last.id == id) && OnFallback(events[..|events| - 1], id))
  }

  lemma {:induction false} FallbackIsNotDirect(w: nat, h: nat, events: seq<Event>, id: nat)
    requires w > 0 && h > 0 && Run(Initial(w, h), events).Some? && id in Run(Initial(w, h), events).value.viewers
    requires OnFallback(events, id)
    ensures Run(Initial(w, h), events).value.viewers[id].direct == {}
  {
    if events != [] {
      var front, last := events[..|events| - 1], events[|events| - 1];
      var before := Run(Initial(w, h), front).value;
      if !(last.Join? && last.id == id) && !last.ResizeTo? {
        KeptByOthers(before, last, id);
        FallbackIsNotDirect(w, h, front, id);
      }
    }
  }

  /** Only an undecoded JPEG, an arrival or a resize touches direct, apart from shrinking it. */
  lemma KeptByOthers(s: Screen, ev: Event, id: nat)
    requires Inv(s) && Enabled(s, ev) && id in Step(s, ev).viewers
    requires !(ev.Join? && ev.id == id) && !(ev.DirectJpeg? && ev.id == id) && !ev.ResizeTo?
    ensures id in s.viewers && Step(s, ev).viewers[id].direct <= s.viewers[id].direct
  {
  }

  /** The promise for viewers on the decoded path, whatever happens to the others: an undamaged position
      shows the last decoded frame, and a viewer without damage shows exactly that frame. */
  lemma FallbackViewersAreCurrent(w: nat, h: nat, events: seq<Event>, id: nat)
    requires w > 0 && h > 0 && Run(Initial(w, h), events).Some? && id in Run(Initial(w, h), events).value.viewers
    requires OnFallback(events, id)
    ensures var v, frame := Run(Initial(w, h), events).value.viewers[id], LastDecoded(events).pixels;
            frame != [] ==>
              && |v.shown| == |frame|
              && (forall i: nat :: i < |v.shown| && i !in v.modified ==> v.shown[i] == frame[i])
              && (v.modified == {} ==> v.shown == frame)
  {
    FallbackIsNotDirect(w, h, events, id);
    EveryRunIsSound(w, h, events, id);
  }

  /** Whenever a frame round sends pixels, in any run, the framebuffer is the last decoded frame, this round's
      included, also after decodes that failed halfway; and the round repaints exactly what is damaged and
      requested. */
  lemma EverySendIsDecoded(w: nat, h: nat, events: seq<Event>, ev: Event)
    requires w > 0 && h > 0 && Run(Initial(w, h), events).Some? && ev.Update?
    requires Enabled(Run(Initial(w, h), events).value, ev)
    requires DecodeOk(Run(Initial(w, h), events).value, ev.sequence, ev.outcome)
    requires SendOk(Decode(Run(Initial(w, h), events).value, ev.sequence, ev.outcome), ev.id, ev.force, ev.works)
    ensures var s := Run(Initial(w, h), events).value; var d := Decode(s, ev.sequence, ev.outcome);
            var frame := LastDecoded(events + [ev]).pixels;
            && d.framebuffer == frame != [] && Step(s, ev).framebuffer == frame
            && |s.viewers[ev.id].shown| == |frame|
            && forall i: nat :: i < |frame| ==>
                 Step(s, ev).viewers[ev.id].shown[i] ==
                 if i in Pending(Prepared(d.viewers[ev.id], ev.force, |frame|)) then frame[i] else s.viewers[ev.id].shown[i]
  {
    InitialOk(w, h);
    hide Inv, Step, Decode, DecodeOk, SendOk, Run, Prepared, Pending;
    var s := Run(Initial(w, h), events).value;
    assert (events + [ev])[..|events|] == events;
    EveryRunKeepsLastDecoded(w, h, events);
    SendStep(s, ev, LastDecoded(events));
  }

  lemma SendStep(s: Screen, ev: Event, before: Decoding)
    requires Inv(s) && Enabled(s, ev) && ev.Update? && DecodeOk(s, ev.sequence, ev.outcome)
    requires SendOk(Decode(s, ev.sequence, ev.outcome), ev.id, ev.force, ev.works)
    requires s.previous == before.pixels && (before.pixels != [] ==> s.decoded == before.sequence)
    ensures var d := Decode(s, ev.sequence, ev.outcome);
            var frame := DecodedNext(before, ev).pixels;
            && d.framebuffer == frame != [] && Step(s, ev).framebuffer == frame
            && |s.viewers[ev.id].shown| == |frame| && ev.id in d.viewers && ev.id in Step(s, ev).viewers
            && |Step(s, ev).viewers[ev.id].shown| == |frame|
            && forall i: nat :: i < |frame| ==>
                 Step(s, ev).viewers[ev.id].shown[i] ==
                 if i in Pending(Prepared(d.viewers[ev.id], ev.force, |frame|)) then frame[i] else s.viewers[ev.id].shown[i]
  {
    hide Sound, Leftover, Collected, Covered;
    DecodeKeeps(s, ev.sequence, ev.outcome);
    SendDelivers(Decode(s, ev.sequence, ev.outcome).(latest := ev.sequence), ev.id, ev.force);
  }

  /** A JPEG sent undecoded clears the damage although the decoder never saw it: a viewer that falls back
      afterwards keeps showing it when the next decoded frame equals the one decoded before. For every
      two different frames there is such a run. */
  lemma DirectJpegLeavesStalePixels(w: nat, h: nat, p: seq<Pixel>, jpeg: seq<Pixel>)
    returns (events: seq<Event>)
    requires w > 0 && h > 0 && IsFrame(p, w, h) && IsFrame(jpeg, w, h) && p != jpeg
    ensures Run(Initial(w, h), events).Some?
    ensures var s := Run(Initial(w, h), events).value;
            0 in s.viewers && s.previous == LastDecoded(events).pixels == p
            && s.viewers[0].shown == jpeg && s.viewers[0].modified == {}
  {
    hide LastDecoded;
    var s: Screen;
    events, s := Extend(Initial(w, h), [], Join(0, jpeg));
    events, s := Extend(Initial(w, h), events, Update(0, 1, Decoded(p), false, true));
    assert s.previous == p;
    events, s := Extend(Initial(w, h), events, DirectJpeg(0, jpeg));
    events, s := Extend(Initial(w, h), events, Request(0, All(|p|), {}));
    CollectedEmptyIffEqual(p, p, w, h);
    MarkNothing(s.viewers, w, |p|);
    events, s := Extend(Initial(w, h), events, Update(0, 2, Decoded(p), false, true));
    EveryRunKeepsLastDecoded(w, h, events);
  }

  lemma Extend(s: Screen, events: seq<Event>, ev: Event) returns (longer: seq<Event>, after: Screen)
    requires Inv(s) && Run(s, events).Some? && Enabled(Run(s, events).value, ev)
    ensures Run(s, longer) == Some(after) && Inv(after) && after == Step(Run(s, events).value, ev)
  {
    longer := events + [ev];
    assert longer[..|longer| - 1] == events;
    StepKeeps(Run(s, events).value, ev);
    after := Step(Run(s, events).value, ev);
  }
}
