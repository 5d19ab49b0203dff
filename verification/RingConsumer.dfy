/** The consumer side of the shared-memory frame ring: TakeLatestFrame and the leases it hands out, alone
    and against a concurrent producer that is not part of the repository. */
module RingConsumer {
  import opened Base

  datatype State = Free | Writing | Ready | Reading

  /** A slot: its state word and what the producer wrote, wellFormed when the header passes the checks. */
  datatype Slot = Slot(state: State, sequence: nat, payload: seq<byte>, wellFormed: bool)

  // ---- one call without interference ----

  /** The slot selected after scanning the first k: the newest ready one, the first of equals. */
  function Best(slots: seq<Slot>, k: nat): int
    requires k <= |slots|
    ensures -1 <= Best(slots, k) < k
  {
    if k == 0 then -1
    else
      var b := Best(slots, k - 1);
      if slots[k - 1].state == Ready && (b < 0 || slots[k - 1].sequence > slots[b].sequence) then k - 1 else b
  }

  lemma {:induction false} BestIsNewest(slots: seq<Slot>, k: nat)
    requires k <= |slots|
    ensures var b := Best(slots, k);
            && (b < 0 <==> forall j :: 0 <= j < k ==> slots[j].state != Ready)
            && (0 <= b ==> slots[b].state == Ready)
            && (forall j :: 0 <= j < k && slots[j].state == Ready ==> slots[j].sequence <= slots[b].sequence)
            && (forall j :: 0 <= j < b && slots[j].state == Ready ==> slots[j].sequence < slots[b].sequence)
  {
    if k > 0 { BestIsNewest(slots, k - 1); }
  }

  function Released(s: Slot): Slot { if s.state == Ready then s.(state := Free) else s }

  /** Every other ready slot among the first k is released. */
  function ReleaseOthers(slots: seq<Slot>, k: nat, selected: nat): (r: seq<Slot>)
    requires k <= |slots|
    ensures |r| == |slots|
  {
    seq(|slots|, i requires 0 <= i < |slots| => if i < k && i != selected then Released(slots[i]) else slots[i])
  }

  /** Slots and leased index after one undisturbed call. */
  function TakeLatest(slots: seq<Slot>): (seq<Slot>, Option<nat>) {
    var b := Best(slots, |slots|);
    if b < 0 then (slots, None)
    else
      var claimed := ReleaseOthers(slots[b := slots[b].(state := Reading)], |slots|, b);
      if slots[b].wellFormed then (claimed, Some(b)) else (claimed[b := slots[b].(state := Free)], None)
  }

  class RingLease {
    const slots: array<Slot>
    const index: nat

    constructor (slots: array<Slot>, index: nat)
      requires index < slots.Length
      ensures this.slots == slots && this.index == index
    {
      this.slots := slots;
      this.index := index;
    }

    /** The destructor. */
    method Drop()
      requires index < slots.Length
      modifies slots
      ensures slots[..] == old(slots[..])[index := old(slots[index]).(state := Free)]
    {
      slots[index] := slots[index].(state := Free);
    }
  }

  /** `TakeLatestFrame` on the mapped slots. */
  method TakeLatestFrame(slots: array<Slot>) returns (lease: RingLease?)
    modifies slots
    ensures slots[..] == TakeLatest(old(slots[..])).0
    ensures lease == null <==> TakeLatest(old(slots[..])).1.None?
    ensures lease != null ==> fresh(lease) && lease.slots == slots && Some(lease.index) == TakeLatest(old(slots[..])).1
  {
    ghost var before := slots[..];
    var selected, newest := -1, 0;
    for index := 0 to slots.Length
      invariant selected == Best(before, index) && (0 <= selected ==> newest == before[selected].sequence)
      invariant slots[..] == before
    {
      if slots[index].state == Ready {
        var sequence := slots[index].sequence;
        if selected < 0 || sequence > newest {
          selected, newest := index, sequence;
        }
      }
    }
    if selected < 0 {
      return null;
    }
    BestIsNewest(before, |before|);
    slots[selected] := slots[selected].(state := Reading);
    ghost var claimed := slots[..];
    for index := 0 to slots.Length
      invariant slots[..] == ReleaseOthers(claimed, index, selected)
    {
      if index != selected && slots[index].state == Ready {
        slots[index] := slots[index].(state := Free);
      }
    }
    if !slots[selected].wellFormed {
      slots[selected] := slots[selected].(state := Free);
      return null;
    }
    lease := new RingLease(slots, selected);
  }

  /** An undisturbed call leases the newest ready frame when its header is well formed, frees every other
      ready slot, and does not touch slots that were being written or read. */
  lemma TakeLatestIsNewest(slots: seq<Slot>)
    ensures var (after, leased) := TakeLatest(slots);
            && |after| == |slots|
            && (forall j :: 0 <= j < |slots| && slots[j].state == Ready && leased != Some(j) ==>
                  after[j] == slots[j].(state := Free))
            && (forall j :: 0 <= j < |slots| && slots[j].state != Ready ==> after[j] == slots[j])
            && (leased.Some? ==> var i := leased.value;
                  && i < |slots| && slots[i].state == Ready && slots[i].wellFormed && after[i] == slots[i].(state := Reading)
                  && forall j :: 0 <= j < |slots| && slots[j].state == Ready ==> slots[j].sequence <= slots[i].sequence)
            && (leased.None? ==> forall i :: 0 <= i < |slots| && slots[i].state == Ready && slots[i].wellFormed ==>
                  exists j :: 0 <= j < |slots| && slots[j].state == Ready && !slots[j].wellFormed
                              && slots[i].sequence <= slots[j].sequence)
  {
    BestIsNewest(slots, |slots|);
  }

  // ---- against the producer ----

  /** What the scan has chosen: slot and sequence as read, -1 for none yet; torn if the producer touched the
      slot between the load of its state and the read of its sequence. */
  datatype Pick = Pick(selected: int, newest: nat, torn: bool)

  const NO_PICK := Pick(-1, 0, false)

  datatype Consumer =
    | Idle
    | Scan(index: nat, pick: Pick)
    | ReadSequence(index: nat, pick: Pick, touched: bool)
    | Claim(slot: nat, pick: Pick)
    | FreeOthers(index: nat, slot: nat, pick: Pick)
    | Validate(slot: nat, pick: Pick)

  /** leases counts the live leases of each slot, held what their holders saw; published is the newest
      sequence the producer made ready so far. history is all of them in the order of publishing, behind a 0
      for slots never used; order tells which one each slot holds, passed how many there were when the scan
      loaded each slot's state. */
  datatype Machine = Machine(slots: seq<Slot>, published: nat, history: seq<nat>, order: seq<nat>,
                             consumer: Consumer, passed: seq<nat>,
                             leases: multiset<nat>, held: map<nat, Slot>, delivered: seq<nat>)

  datatype Event =
    | Reserve(slot: nat)
    | Publish(slot: nat, sequence: nat, payload: seq<byte>, wellFormed: bool)
    | Advance(read: nat)
    | DropLease(slot: nat)

  /** The producer never touches a slot being read and publishes increasing sequences; it may reclaim
      ready slots. Everything else is the consumer's. The eight bytes of a sequence are read without
      synchronization: an untouched slot gives its sequence, a touched one whatever the loads returned. */
  predicate Enabled(m: Machine, ev: Event) {
    match ev
    case Reserve(i) => i < |m.slots| && (m.slots[i].state == Free || m.slots[i].state == Ready)
    case Publish(i, sequence, _, _) => i < |m.slots| && m.slots[i].state == Writing && sequence > m.published
    case Advance(read) =>
      m.consumer.ReadSequence? && !m.consumer.touched ==>
        m.consumer.index < |m.slots| && read == m.slots[m.consumer.index].sequence
    case DropLease(i) => i in m.leases && i < |m.slots|
  }

  /** One atomic step of TakeLatestFrame. */
  function ConsumerStep(m: Machine, read: nat): Machine
    requires ConsumerInRange(m)
  {
    match m.consumer
    case Idle => m.(consumer := Scan(0, NO_PICK), passed := [])
    case Scan(i, pick) =>
      if i == |m.slots| then m.(consumer := if pick.selected < 0 then Idle else Claim(pick.selected, pick))
      else
        m.(passed := m.passed + [|m.history|],
           consumer := if m.slots[i].state == Ready then ReadSequence(i, pick, false) else Scan(i + 1, pick))
    case ReadSequence(i, pick, touched) =>
      m.(consumer := Scan(i + 1, if pick.selected < 0 || read > pick.newest then Pick(i, read, touched) else pick))
    case Claim(slot, pick) =>
      if m.slots[slot].state == Ready
      then m.(slots := m.slots[slot := m.slots[slot].(state := Reading)], consumer := FreeOthers(0, slot, pick))
      else m.(consumer := Idle)
    case FreeOthers(i, slot, pick) =>
      if i == |m.slots| then m.(consumer := Validate(slot, pick))
      else if i == slot then m.(consumer := FreeOthers(i + 1, slot, pick))
      else m.(slots := m.slots[i := Released(m.slots[i])], consumer := FreeOthers(i + 1, slot, pick))
    case Validate(slot, _) =>
      if m.slots[slot].wellFormed
      then m.(leases := m.leases + multiset{slot}, held := m.held[slot := m.slots[slot]],
              delivered := m.delivered + [m.slots[slot].sequence], consumer := Idle)
      else m.(slots := m.slots[slot := m.slots[slot].(state := Free)], consumer := Idle)
  }

  predicate ConsumerInRange(m: Machine) {
    match m.consumer
    case Idle => true
    case Scan(i, pick) => i <= |m.slots| && pick.selected < |m.slots|
    case ReadSequence(i, pick, _) => i < |m.slots| && pick.selected < |m.slots|
    case Claim(slot, pick) => slot < |m.slots| && pick.selected == slot
    case FreeOthers(i, slot, pick) => i <= |m.slots| && slot < |m.slots| && pick.selected == slot
    case Validate(slot, pick) => slot < |m.slots| && pick.selected == slot
  }

  /** The producer's access to a slot, noticed if the consumer is about to read that slot's sequence. */
  function Touched(c: Consumer, i: nat): Consumer {
    if c.ReadSequence? && c.index == i then c.(touched := true) else c
  }

  function Step(m: Machine, ev: Event): Machine
    requires Enabled(m, ev) && ConsumerInRange(m)
    ensures ConsumerInRange(Step(m, ev)) && |Step(m, ev).slots| == |m.slots|
  {
    match ev
    case Reserve(i) => m.(slots := m.slots[i := m.slots[i].(state := Writing)], consumer := Touched(m.consumer, i))
    case Publish(i, sequence, payload, wellFormed) =>
      m.(slots := m.slots[i := Slot(Ready, sequence, payload, wellFormed)], published := sequence,
         history := m.history + [sequence], order := if i < |m.order| then m.order[i := |m.history|] else m.order,
         consumer := Touched(m.consumer, i))
    case Advance(read) => ConsumerStep(m, read)
    case DropLease(i) =>
      m.(slots := m.slots[i := m.slots[i].(state := Free)], leases := m.leases - multiset{i}, held := m.held - {i})
  }

  function Delivered(m: Machine): int {
    if m.delivered == [] then -1 else m.delivered[|m.delivered| - 1]
  }

  /** The slot claimed but not leased yet. */
  function Claimed(c: Consumer): int {
    if c.FreeOthers? || c.Validate? then c.slot else -1
  }

  /** Which ready slots are known to be newer than the claimed one. */
  function Visited(m: Machine): int {
    match m.consumer
    case FreeOthers(i, _, _) => i
    case Validate(_, _) => |m.slots|
    case _ => 0
  }

  ghost predicate SlotOk(m: Machine, i: nat)
    requires i < |m.slots|
  {
    var s := m.slots[i];
    && s.sequence <= m.published
    && (s.state == Reading <==> i in m.leases || i == Claimed(m.consumer))
    && m.leases[i] <= 1 && (i in m.leases ==> i != Claimed(m.consumer) && i in m.held && m.held[i] == s)
    && (s.state == Ready ==> Delivered(m) < s.sequence)
    && (s.state == Ready && i < Visited(m) && 0 <= Claimed(m.consumer) < |m.slots| ==>
          m.slots[Claimed(m.consumer)].sequence < s.sequence)
  }

  ghost predicate Leasing(m: Machine) {
    && ConsumerInRange(m)
    && (forall i: nat :: i < |m.slots| ==> SlotOk(m, i))
    && (forall i :: i in m.leases ==> i < |m.slots|)
    && Delivered(m) <= m.published
    && (0 <= Claimed(m.consumer) ==> Delivered(m) < m.slots[Claimed(m.consumer)].sequence)
    && (forall i, j :: 0 <= i < j < |m.delivered| ==> m.delivered[i] < m.delivered[j])
  }

  // ---- what the scan knows ----

  /** Slots whose sequence has been looked at. */
  function Looked(m: Machine): nat {
    match m.consumer
    case Idle => 0
    case Scan(i, _) => i
    case ReadSequence(i, _, _) => i
    case _ => |m.slots|
  }

  /** The frame in a slot was published after the scan loaded that slot's state. */
  predicate Late(m: Machine, i: nat) {
    i < |m.order| && i < |m.passed| && m.order[i] >= m.passed[i]
  }

  /** A ready frame the scan could see is no newer than the sequence it chose. */
  predicate Compared(m: Machine, i: nat)
    requires i < |m.slots| && m.consumer != Idle
  {
    m.slots[i].state == Ready && !Late(m, i) ==> 0 <= m.consumer.pick.selected && m.slots[i].sequence <= m.consumer.pick.newest
  }

  ghost predicate Scanning(m: Machine) {
    m.consumer != Idle ==>
      && ConsumerInRange(m)
      && |m.passed| == Looked(m) + (if m.consumer.ReadSequence? then 1 else 0)
      && (forall i: nat :: i < |m.passed| ==> m.passed[i] <= |m.history|)
      && (forall i: nat :: i < Looked(m) && i < |m.slots| ==> Compared(m, i))
      && (m.consumer.ReadSequence? ==> BeingRead(m, m.consumer.index, m.consumer.touched))
      && PickOk(m, m.consumer.pick)
  }

  /** An untouched slot is still as the state load found it; a touched one, if ready, is late. */
  ghost predicate BeingRead(m: Machine, i: nat, touched: bool) {
    i < |m.slots| && m.slots[i].state == Ready && !Late(m, i) ==> !touched
  }

  /** A sequence read from an untouched slot is not above what that slot holds. */
  ghost predicate PickOk(m: Machine, pick: Pick) {
    0 <= pick.selected < |m.slots| && !pick.torn ==> pick.newest <= m.slots[pick.selected].sequence
  }

  /** Each slot holds what was published under its number, later frames have higher sequences. */
  ghost predicate Chronicle(m: Machine) {
    && |m.order| == |m.slots| && m.history != [] && m.published == m.history[|m.history| - 1]
    && (forall i :: 0 <= i < |m.slots| ==> m.order[i] < |m.history| && m.slots[i].sequence == m.history[m.order[i]])
    && (forall i, j :: 0 <= i < j < |m.history| ==> m.history[i] < m.history[j])
  }

  ghost predicate Inv(m: Machine) { Leasing(m) && Scanning(m) && Chronicle(m) }

  lemma ProducerKeeps(m: Machine, ev: Event)
    requires Leasing(m) && Enabled(m, ev) && (ev.Reserve? || ev.Publish?)
    ensures Leasing(Step(m, ev))
  {
    var m', c := Step(m, ev), Claimed(m.consumer);
    assert SlotOk(m, ev.slot);
    if 0 <= c { assert SlotOk(m, c); }
    forall i: nat | i < |m'.slots|
      ensures SlotOk(m', i)
    {
      assert SlotOk(m, i);
    }
  }

  lemma DropKeeps(m: Machine, slot: nat)
    requires Leasing(m) && Enabled(m, DropLease(slot))
    ensures Leasing(Step(m, DropLease(slot)))
  {
    var m', c := Step(m, DropLease(slot)), Claimed(m.consumer);
    assert SlotOk(m, slot);
    if 0 <= c { assert SlotOk(m, c); }
    forall i: nat | i < |m'.slots|
      ensures SlotOk(m', i)
    {
      assert SlotOk(m, i);
    }
  }

  lemma ClaimKeeps(m: Machine, read: nat)
    requires Leasing(m) && m.consumer.Claim?
    ensures Leasing(ConsumerStep(m, read))
  {
    var m' := ConsumerStep(m, read);
    assert SlotOk(m, m.consumer.slot);
    forall i: nat | i < |m'.slots|
      ensures SlotOk(m', i)
    {
      assert SlotOk(m, i);
    }
  }

  lemma ReleaseKeeps(m: Machine, read: nat)
    requires Leasing(m) && m.consumer.FreeOthers?
    ensures Leasing(ConsumerStep(m, read))
  {
    var m' := ConsumerStep(m, read);
    assert SlotOk(m, m.consumer.slot);
    if m.consumer.index < |m.slots| { assert SlotOk(m, m.consumer.index); }
    forall i: nat | i < |m'.slots|
      ensures SlotOk(m', i)
    {
      assert SlotOk(m, i);
    }
  }

  lemma ValidateKeeps(m: Machine, read: nat)
    requires Leasing(m) && m.consumer.Validate?
    ensures Leasing(ConsumerStep(m, read))
  {
    var m' := ConsumerStep(m, read);
    assert SlotOk(m, m.consumer.slot);
    forall i: nat | i < |m'.slots|
      ensures SlotOk(m', i)
    {
      assert SlotOk(m, i);
    }
  }

  /** Claiming, releasing the others and handing out the lease. */
  lemma TakingKeeps(m: Machine, read: nat)
    requires Leasing(m) && (m.consumer.Claim? || m.consumer.FreeOthers? || m.consumer.Validate?)
    ensures Leasing(ConsumerStep(m, read))
  {
    assert ConsumerInRange(m);
    hide Leasing, ConsumerStep;
    if m.consumer.Claim? { ClaimKeeps(m, read); }
    else if m.consumer.FreeOthers? { ReleaseKeeps(m, read); }
    else { ValidateKeeps(m, read); }
  }

  lemma ScanningKeeps(m: Machine, read: nat)
    requires Leasing(m) && (m.consumer.Idle? || m.consumer.Scan? || m.consumer.ReadSequence?)
    ensures Leasing(ConsumerStep(m, read))
  {
    var m' := ConsumerStep(m, read);
    forall i: nat | i < |m'.slots|
      ensures SlotOk(m', i)
    {
      assert SlotOk(m, i);
    }
  }

  /** What the producer does to a slot makes its frame late. */
  lemma ProducerIsLate(m: Machine, ev: Event)
    requires Inv(m) && Enabled(m, ev) && (ev.Reserve? || ev.Publish?)
    ensures Scanning(Step(m, ev))
  {
    var m' := Step(m, ev);
    assert SlotOk(m, ev.slot);
    if m.consumer != Idle {
      forall i: nat | i < Looked(m') && i < |m'.slots|
        ensures Compared(m', i)
      {
        assert Compared(m, i);
      }
    }
  }

  lemma DropScans(m: Machine, slot: nat)
    requires Inv(m) && Enabled(m, DropLease(slot))
    ensures Scanning(Step(m, DropLease(slot)))
  {
    var m' := Step(m, DropLease(slot));
    assert SlotOk(m, slot);
    if m.consumer != Idle {
      forall i: nat | i < Looked(m') && i < |m'.slots|
        ensures Compared(m', i)
      {
        assert Compared(m, i);
      }
    }
  }

  lemma ScanScans(m: Machine, read: nat)
    requires Inv(m) && Enabled(m, Advance(read)) && (m.consumer.Idle? || m.consumer.Scan? || m.consumer.ReadSequence?)
    ensures Scanning(ConsumerStep(m, read))
  {
    var m' := ConsumerStep(m, read);
    if m.consumer.Scan? && m.consumer.index < |m.slots| { assert SlotOk(m, m.consumer.index); }
    if m'.consumer != Idle {
      forall i: nat | i < Looked(m') && i < |m'.slots|
        ensures Compared(m', i)
      {
        if i < Looked(m) { assert Compared(m, i); }
      }
    }
  }

  lemma TakingScans(m: Machine, read: nat)
    requires Inv(m) && (m.consumer.Claim? || m.consumer.FreeOthers? || m.consumer.Validate?)
    ensures Scanning(ConsumerStep(m, read))
  {
    var m' := ConsumerStep(m, read);
    if m'.consumer != Idle {
      forall i: nat | i < |m'.slots|
        ensures Compared(m', i)
      {
        assert Compared(m, i);
      }
    }
  }

  lemma ChronicleKeeps(m: Machine, ev: Event)
    requires Chronicle(m) && ConsumerInRange(m) && Enabled(m, ev)
    ensures Chronicle(Step(m, ev))
  {
    match ev
    case Advance(read) =>
      ConsumerPublishesNothing(m, read);
      hide ConsumerStep;
    case _ =>
      hide ConsumerStep;
  }

  lemma ConsumerPublishesNothing(m: Machine, read: nat)
    requires ConsumerInRange(m)
    ensures var m' := ConsumerStep(m, read);
            && m'.history == m.history && m'.order == m.order && m'.published == m.published && |m'.slots| == |m.slots|
            && forall i :: 0 <= i < |m.slots| ==> m'.slots[i].sequence == m.slots[i].sequence
  {
  }

  lemma StepKeeps(m: Machine, ev: Event)
    requires Inv(m) && Enabled(m, ev)
    ensures Inv(Step(m, ev))
  {
    hide Leasing, Scanning, Chronicle, ConsumerStep;
    InRange(m);
    ChronicleKeeps(m, ev);
    match ev
    case Reserve(_) => ProducerKeeps(m, ev); ProducerIsLate(m, ev);
    case Publish(_, _, _, _) => ProducerKeeps(m, ev); ProducerIsLate(m, ev);
    case DropLease(slot) => DropKeeps(m, slot); DropScans(m, slot);
    case Advance(read) =>
      if m.consumer.Claim? || m.consumer.FreeOthers? || m.consumer.Validate? {
        TakingKeeps(m, read);
        TakingScans(m, read);
      } else {
        ScanningKeeps(m, read);
        ScanScans(m, read);
      }
  }

  lemma InRange(m: Machine)
    requires Inv(m)
    ensures ConsumerInRange(m)
  {
  }

  // ---- runs ----

  /** n free slots, nothing published, no lease. */
  function Initial(n: nat): Machine {
    Machine(seq(n, _ => Slot(Free, 0, [], false)), 0, [0], seq(n, _ => 0), Idle, [], multiset{}, map[], [])
  }

  lemma InitialOk(n: nat)
    ensures Inv(Initial(n))
  {
  }

  /** The machine after a sequence of events, None when one of them cannot happen. */
  ghost function Run(m: Machine, events: seq<Event>): (r: Option<Machine>)
    requires Inv(m)
    ensures r.Some? ==> Inv(r.value) && |r.value.slots| == |m.slots|
  {
    if events == [] then Some(m)
    else
      var before, ev := Run(m, events[..|events| - 1]), events[|events| - 1];
      if before.None? || !Enabled(before.value, ev) then None
      else
        StepKeeps(before.value, ev);
        Some(Step(before.value, ev))
  }

  /** A ring of n slots from its start. */
  ghost function Reached(n: nat, events: seq<Event>): (r: Option<Machine>)
    ensures r.Some? ==> Inv(r.value) && |r.value.slots| == n
  {
    InitialOk(n);
    Run(Initial(n), events)
  }

  /** Over every interleaving: delivered sequences strictly increase, also when a slot was reclaimed and
      republished between the scan and the claim; a slot being read has exactly one live lease unless the
      call in progress is about to create it; a leased slot still holds what its holder saw. */
  lemma EveryRunDelivers(n: nat, events: seq<Event>, slot: nat)
    requires Reached(n, events).Some? && slot < n
    ensures var m := Reached(n, events).value;
            && |m.slots| == n
            && (forall i, j :: 0 <= i < j < |m.delivered| ==> m.delivered[i] < m.delivered[j])
            && (m.slots[slot].state == Reading && slot != Claimed(m.consumer) <==> m.leases[slot] == 1)
            && m.leases[slot] <= 1
            && (m.leases[slot] == 1 ==> slot in m.held && m.slots[slot] == m.held[slot])
  {
    var m := Reached(n, events).value;
    assert SlotOk(m, slot);
  }

  /** No step but its own drop changes a leased slot. */
  lemma {:induction false} LeaseIsStable(m: Machine, events: seq<Event>, slot: nat)
    requires Inv(m) && Run(m, events).Some? && slot in m.leases && slot < |m.slots| && DropLease(slot) !in events
    ensures var m' := Run(m, events).value; slot in m'.leases && m'.slots[slot] == m.slots[slot] && m'.slots[slot].state == Reading
  {
    assert SlotOk(m, slot);
    if events != [] {
      var front, ev := events[..|events| - 1], events[|events| - 1];
      assert DropLease(slot) !in front && ev in events;
      LeaseIsStable(m, front, slot);
      StableStep(Run(m, front).value, ev, slot);
    }
  }

  lemma StableStep(m: Machine, ev: Event, slot: nat)
    requires Inv(m) && Enabled(m, ev) && slot in m.leases && slot < |m.slots| && ev != DropLease(slot)
    ensures slot in Step(m, ev).leases && Step(m, ev).slots[slot] == m.slots[slot]
  {
    assert SlotOk(m, slot);
  }

  lemma Extend(m: Machine, events: seq<Event>, ev: Event) returns (longer: seq<Event>, after: Machine)
    requires Inv(m) && Run(m, events).Some? && Enabled(Run(m, events).value, ev)
    ensures Run(m, longer) == Some(after) && after == Step(Run(m, events).value, ev) && longer == events + [ev]
  {
    longer := events + [ev];
    assert longer[..|longer| - 1] == events;
    after := Step(Run(m, events).value, ev);
  }

  // ---- the step machine without a producer is the plain call ----

  ghost predicate OnlyAdvances(events: seq<Event>) {
    forall e :: e in events ==> e.Advance?
  }

  function Chosen(slots: seq<Slot>, k: nat): Pick
    requires k <= |slots|
  {
    var b := Best(slots, k);
    if b < 0 then NO_PICK else Pick(b, slots[b].sequence, false)
  }

  /** An undisturbed scan after k slots. */
  function Scanned(m: Machine, k: nat): Machine
    requires k <= |m.slots|
  {
    m.(consumer := Scan(k, Chosen(m.slots, k)), passed := seq(k, _ => |m.history|))
  }

  lemma {:induction false} QuietScan(m: Machine, k: nat) returns (events: seq<Event>)
    requires Inv(m) && m.consumer == Idle && k <= |m.slots|
    ensures OnlyAdvances(events) && Run(m, events) == Some(Scanned(m, k))
  {
    hide Inv, ConsumerStep, Best, Scanned;
    var s: Machine;
    QuietScanStep(m, k);
    if k == 0 {
      assert Run(m, []) == Some(m);
      events, s := Extend(m, [], Advance(0));
    } else {
      events := QuietScan(m, k - 1);
      events, s := Extend(m, events, Advance(0));
      if m.slots[k - 1].state == Ready {
        events, s := Extend(m, events, Advance(m.slots[k - 1].sequence));
      }
    }
  }

  /** Starting the scan, and examining one slot. */
  lemma QuietScanStep(m: Machine, k: nat)
    requires m.consumer == Idle && k <= |m.slots|
    ensures k == 0 ==> ConsumerStep(m, 0) == Scanned(m, 0)
    ensures 0 < k ==> Scanned(m, k - 1).consumer.Scan? && Scanned(m, k - 1).slots == m.slots
    ensures 0 < k ==> ConsumerInRange(Scanned(m, k - 1))
    ensures 0 < k && m.slots[k - 1].state != Ready ==> Scanned(m, k) == ConsumerStep(Scanned(m, k - 1), 0)
    ensures 0 < k && m.slots[k - 1].state == Ready ==>
      var one := ConsumerStep(Scanned(m, k - 1), 0);
      && ConsumerInRange(one) && one.consumer.ReadSequence? && one.consumer.index == k - 1 && one.slots == m.slots
      && Scanned(m, k) == ConsumerStep(one, m.slots[k - 1].sequence)
  {
    if 0 < k { assert seq(k, _ => |m.history|) == seq(k - 1, _ => |m.history|) + [|m.history|]; }
  }

  lemma {:induction false} QuietRelease(m: Machine, k: nat) returns (events: seq<Event>)
    requires Inv(m) && m.consumer.FreeOthers? && m.consumer.index == 0 && k <= |m.slots|
    requires m.slots[m.consumer.slot].state == Reading
    ensures OnlyAdvances(events) && Run(m, events) == Some(ReleasedUpTo(m, k))
  {
    hide Inv, ConsumerStep, ReleaseOthers;
    InRange(m);
    QuietReleaseStep(m, k);
    if k == 0 {
      events := [];
      assert Run(m, []) == Some(m);
    } else {
      events := QuietRelease(m, k - 1);
      var s: Machine;
      events, s := Extend(m, events, Advance(0));
    }
  }

  function ReleasedUpTo(m: Machine, k: nat): Machine
    requires m.consumer.FreeOthers? && k <= |m.slots|
  {
    m.(slots := ReleaseOthers(m.slots, k, m.consumer.slot), consumer := m.consumer.(index := k))
  }

  lemma QuietReleaseStep(m: Machine, k: nat)
    requires m.consumer.FreeOthers? && m.consumer.index == 0 && k <= |m.slots|
    requires ConsumerInRange(m) && m.slots[m.consumer.slot].state == Reading
    ensures k == 0 ==> ReleasedUpTo(m, 0) == m
    ensures 0 < k ==> ConsumerInRange(ReleasedUpTo(m, k - 1)) && ConsumerStep(ReleasedUpTo(m, k - 1), 0) == ReleasedUpTo(m, k)
  {
    if k == 0 {
      assert ReleaseOthers(m.slots, 0, m.consumer.slot) == m.slots;
    } else {
      assert ConsumerStep(ReleasedUpTo(m, k - 1), 0).slots == ReleaseOthers(m.slots, k, m.consumer.slot);
    }
  }

  /** Run alone, the atomic steps compute exactly what the plain call computes. */
  lemma QuietCallIsTakeLatest(m: Machine)
    returns (first: seq<Event>, second: seq<Event>, claimed: Machine, after: Machine)
    requires Inv(m) && m.consumer == Idle
    ensures OnlyAdvances(first) && OnlyAdvances(second)
    ensures Run(m, first) == Some(claimed) && Inv(claimed) && Run(claimed, second) == Some(after)
    ensures after.consumer == Idle && after.slots == TakeLatest(m.slots).0
    ensures after.leases == m.leases + Leased(TakeLatest(m.slots).1)
  {
    hide Inv, Best, ConsumerStep, ReleaseOthers, TakeLatest, Run, Scanned, Leased;
    BestIsNewest(m.slots, |m.slots|);
    var b := Best(m.slots, |m.slots|);
    ScanEnds(m);
    first := QuietScan(m, |m.slots|);
    first, claimed := Extend(m, first, Advance(0));
    if b < 0 {
      RunNothing(claimed);
      second, after := [], claimed;
    } else {
      first, claimed := Extend(m, first, Advance(0));
      second := QuietRelease(claimed, |m.slots|);
      LeaseSteps(m, claimed, b);
      second, after := Extend(claimed, second, Advance(0));
      second, after := Extend(claimed, second, Advance(0));
    }
  }

  function Leased(taken: Option<nat>): multiset<nat> {
    if taken.Some? then multiset{taken.value} else multiset{}
  }

  lemma RunNothing(m: Machine)
    requires Inv(m)
    ensures Run(m, []) == Some(m)
  {
  }

  /** The step behind a complete scan, and the claim. */
  lemma ScanEnds(m: Machine)
    requires m.consumer == Idle
    ensures var b, scanned := Best(m.slots, |m.slots|), Scanned(m, |m.slots|);
            var chosen := ConsumerStep(scanned, 0);
            && ConsumerInRange(scanned) && scanned.consumer.Scan? && chosen.leases == m.leases && chosen.slots == m.slots
            && (b < 0 ==> chosen.consumer == Idle && TakeLatest(m.slots) == (m.slots, None)
                          && chosen.leases == m.leases + Leased(None))
            && (b >= 0 ==> chosen.consumer == Claim(b, Chosen(m.slots, |m.slots|)) && m.slots[b].state == Ready
                           && ConsumerInRange(chosen) && ClaimedFrom(m, ConsumerStep(chosen, 0), b))
  {
    BestIsNewest(m.slots, |m.slots|);
    assert m.leases + multiset{} == m.leases;
  }

  /** The state right behind the claim of slot b. */
  predicate ClaimedFrom(m: Machine, claimed: Machine, b: nat) {
    && b < |m.slots| && claimed.slots == m.slots[b := m.slots[b].(state := Reading)] && claimed.leases == m.leases
    && claimed.consumer.FreeOthers? && claimed.consumer.index == 0 && claimed.consumer.slot == b
    && claimed.consumer.pick.selected == b
  }

  /** The two steps behind the release of the others. */
  lemma LeaseSteps(m: Machine, claimed: Machine, b: int)
    requires b == Best(m.slots, |m.slots|) && b >= 0 && ClaimedFrom(m, claimed, b)
    ensures var released := ReleasedUpTo(claimed, |m.slots|); var validating := ConsumerStep(released, 0);
            && ConsumerInRange(released) && released.consumer.FreeOthers?
            && ConsumerInRange(validating) && validating.consumer.Validate?
            && var after := ConsumerStep(validating, 0);
               && after.consumer == Idle && after.slots == TakeLatest(m.slots).0
               && after.leases == m.leases + Leased(TakeLatest(m.slots).1)
  {
    hide Best;
    assert m.leases + multiset{} == m.leases;
  }

  // ---- not always the newest ----

  /** The sequence the scan chose was read while the producer was at the slot, and is above what the slot
      holds. */
  predicate Overread(m: Machine)
    requires ConsumerInRange(m) && m.consumer != Idle
  {
    var pick := m.consumer.pick;
    pick.torn && 0 <= pick.selected && pick.newest > m.slots[pick.selected].sequence
  }

  /** The call has chosen its frame and not yet released slot i. */
  predicate MayRelease(m: Machine, i: nat) {
    && ConsumerInRange(m) && i < |m.slots|
    && (m.consumer.Claim? || (m.consumer.FreeOthers? && m.consumer.index <= i)) && i != m.consumer.slot
    && m.slots[i].state == Ready
  }

  /** In every interleaving, from the choice up to its release a ready slot holds a frame with a higher
      sequence than the chosen one if and only if it was published after the chosen one, and either after
      the scan had passed its slot or losing against an overread sequence. */
  lemma NewerExactlyWhenLate(n: nat, events: seq<Event>, i: nat)
    requires Reached(n, events).Some? && MayRelease(Reached(n, events).value, i)
    ensures var m := Reached(n, events).value; var chosen, s := m.slots[m.consumer.slot].sequence, m.slots[i].sequence;
            && |m.order| == n && |m.passed| == n
            && (s > chosen <==> m.order[i] > m.order[m.consumer.slot]
                                && (m.order[i] >= m.passed[i] || (Overread(m) && s <= m.consumer.pick.newest)))
  {
    hide Reached, Leasing;
    var m := Reached(n, events).value;
    assert Compared(m, i);
  }

  /** So when nothing was published behind the scan and the chosen sequence was read in peace, the chosen
      frame is the newest of all that are released. */
  lemma NewestUnlessLate(n: nat, events: seq<Event>)
    requires Reached(n, events).Some?
    requires var m := Reached(n, events).value;
             (m.consumer.Claim? || m.consumer.FreeOthers?) && !m.consumer.pick.torn
             && forall i: nat :: i < n ==> !Late(m, i)
    ensures var m := Reached(n, events).value;
            forall i: nat :: MayRelease(m, i) ==> m.slots[i].sequence <= m.slots[m.consumer.slot].sequence
  {
    hide Leasing;
    var m := Reached(n, events).value;
    forall i: nat | MayRelease(m, i)
      ensures m.slots[i].sequence <= m.slots[m.consumer.slot].sequence
    {
      NewerExactlyWhenLate(n, events, i);
      assert !Late(m, i);
    }
  }

  /** A frame published after the scan passed its slot is released unseen: the call delivers the older one
      and the newer one is gone. */
  lemma NewestCanBeDropped(payload: seq<byte>) returns (events: seq<Event>, m: Machine)
    ensures Reached(2, events) == Some(m)
    ensures m.published == 2 && m.delivered == [1] && m.slots[1].sequence == 2 && m.slots[1].state == Free
  {
    hide Inv, Run;
    events, m := FirstLooked(payload, 1);
    events, m := Extend(Initial(2), events, Advance(1));
    events, m := Extend(Initial(2), events, Advance(0));
    assert m.consumer == Scan(2, Pick(0, 1, false));
    events, m := Extend(Initial(2), events, Reserve(1));
    events, m := Extend(Initial(2), events, Publish(1, 2, payload, true));
    events, m := ClaimFirst(Initial(2), events, m);
  }

  /** Nothing is late here: 255 gives way to 256 under the read, which returns the low byte of the one and
      the high byte of the other. The 257 next to it does not stand up to 511 and is released unseen. */
  lemma OverreadDropsNewest(payload: seq<byte>) returns (events: seq<Event>, m: Machine)
    ensures Reached(2, events) == Some(m)
    ensures m.published == 257 && m.delivered == [256] && m.slots[1].sequence == 257 && m.slots[1].state == Free
    ensures !Late(m, 1)
  {
    hide Inv, Run;
    events, m := FirstLooked(payload, 255);
    events, m := Extend(Initial(2), events, Reserve(0));
    events, m := Extend(Initial(2), events, Publish(0, 256, payload, true));
    events, m := Extend(Initial(2), events, Reserve(1));
    events, m := Extend(Initial(2), events, Publish(1, 257, payload, true));
    assert m.consumer == ReadSequence(0, NO_PICK, true);
    events, m := Extend(Initial(2), events, Advance(511));
    events, m := Extend(Initial(2), events, Advance(0));
    assert m.consumer == ReadSequence(1, Pick(0, 511, true), false) && m.slots[1].sequence == 257;
    assert m.order == [2, 3] && m.passed == [2, 4];
    events, m := Extend(Initial(2), events, Advance(257));
    events, m := ClaimFirst(Initial(2), events, m);
  }

  /** One frame published in slot 0, whose state the scan has just loaded. */
  lemma FirstLooked(payload: seq<byte>, sequence: nat) returns (events: seq<Event>, m: Machine)
    requires sequence > 0
    ensures Inv(Initial(2)) && Run(Initial(2), events) == Some(m)
    ensures m == Machine([Slot(Ready, sequence, payload, true), Slot(Free, 0, [], false)], sequence, [0, sequence], [1, 0],
                         ReadSequence(0, NO_PICK, false), [2], multiset{}, map[], [])
  {
    hide Inv;
    InitialOk(2);
    assert Run(Initial(2), []) == Some(Initial(2));
    events, m := Extend(Initial(2), [], Reserve(0));
    events, m := Extend(Initial(2), events, Publish(0, sequence, payload, true));
    assert m.slots == [Slot(Ready, sequence, payload, true), Slot(Free, 0, [], false)];
    assert m.order == [1, 0];
    events, m := Extend(Initial(2), events, Advance(0));
    events, m := Extend(Initial(2), events, Advance(0));
  }

  lemma ClaimFirst(start: Machine, events: seq<Event>, m: Machine) returns (longer: seq<Event>, after: Machine)
    requires Inv(start) && Run(start, events) == Some(m) && |m.slots| == 2
    requires m.consumer.Scan? && m.consumer.index == 2 && m.consumer.pick.selected == 0
    requires m.slots[0].state == Ready && m.slots[0].wellFormed && m.slots[1].state == Ready
    ensures Run(start, longer) == Some(after) && after.published == m.published
    ensures after.passed == m.passed && after.order == m.order
    ensures after.delivered == m.delivered + [m.slots[0].sequence]
    ensures |after.slots| == 2 && after.slots[1] == m.slots[1].(state := Free)
  {
    hide Inv, Run;
    var pick := m.consumer.pick;
    longer, after := Extend(start, events, Advance(0));
    assert after == m.(consumer := Claim(0, pick));
    longer, after := Extend(start, longer, Advance(0));
    var taken := m.slots[0 := m.slots[0].(state := Reading)];
    assert after == m.(slots := taken, consumer := FreeOthers(0, 0, pick));
    longer, after := Extend(start, longer, Advance(0));
    assert after == m.(slots := taken, consumer := FreeOthers(1, 0, pick));
    longer, after := Extend(start, longer, Advance(0));
    taken := taken[1 := m.slots[1].(state := Free)];
    assert after == m.(slots := taken, consumer := FreeOthers(2, 0, pick));
    longer, after := Extend(start, longer, Advance(0));
    assert after == m.(slots := taken, consumer := Validate(0, pick));
    longer, after := Extend(start, longer, Advance(0));
  }
}
