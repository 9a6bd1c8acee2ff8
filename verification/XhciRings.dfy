/**
 * The cycle-bit rings between driver and controller: the event ring the driver polls, and the
 * command and transfer rings it fills. Sections 4.9.2 to 4.9.4 of xHCI 1.1 give the partner's rules.
 */
module XhciRings {
  import opened Bytes

  // ---- TRBs ----

  datatype Trb = Trb(data: nat, status: u32, control: u32)

  const LINK: nat := 6

  function CycleOf(t: Trb): nat { t.control % 2 }

  /** `trb_type` */
  function TypeOf(t: Trb): nat { t.control / 0x400 % 0x40 }

  /** `make_trb_control` */
  function MakeControl(ty: nat, cycle: nat): u32
    requires ty < 0x40
  {
    cycle % 2 + ty * 0x400
  }

  /** The control word with its cycle bit forced. */
  function Stamp(t: Trb, cycle: nat): (r: Trb)
    requires cycle < 2
    ensures CycleOf(r) == cycle && TypeOf(r) == TypeOf(t)
    ensures r.data == t.data && r.status == t.status && r.control / 2 == t.control / 2
  {
    StampedType(t.control, cycle);
    t.(control := t.control - t.control % 2 + cycle)
  }

  lemma StampedType(control: u32, cycle: nat)
    requires cycle < 2
    ensures var c := control - control % 2 + cycle;
      0 <= c < 0x1_0000_0000 && c % 2 == cycle && c / 2 == control / 2 && c / 0x400 == control / 0x400
  {
    var h := control / 2;
    assert control - control % 2 == 2 * h;
    assert (2 * h + cycle) / 0x400 == h / 0x200 && control / 0x400 == h / 0x200;
  }

  const NullTrb: Trb := Trb(0, 0, 0)

  // ---- The event ring ----

  type Slots = s: seq<Trb> | |s| == 256 witness seq(256, _ => NullTrb)

  /** The shared ring, with the place and cycle state of the driver and of the controller. */
  datatype Events = Events(ring: Slots, index: nat, cycle: nat, ctlIndex: nat, ctlCycle: nat)

  const NoEvents: Events := Events(seq(256, _ => NullTrb), 0, 1, 0, 1)

  /** The controller posts an event with its own cycle state. */
  function Post(s: Events, t: Trb): Events
    requires s.ctlIndex < 256 && s.ctlCycle < 2
  {
    s.(ring := s.ring[s.ctlIndex := Stamp(t, s.ctlCycle)],
       ctlIndex := (s.ctlIndex + 1) % 256,
       ctlCycle := if s.ctlIndex == 255 then 1 - s.ctlCycle else s.ctlCycle)
  }

  /** `xhci_poll_event` finds an event exactly when the next slot carries the driver's cycle state. */
  predicate HasEvent(s: Events)
    requires s.index < 256
  {
    CycleOf(s.ring[s.index]) == s.cycle
  }

  function Poll(s: Events): Events
    requires s.index < 256 && s.cycle < 2
  {
    if HasEvent(s)
    then s.(index := (s.index + 1) % 256, cycle := if s.index == 255 then 1 - s.cycle else s.cycle)
    else s
  }

  datatype EventAction = PostEvent(trb: Trb) | PollEvent

  /** A run so far: the ring, what was posted and what the polls returned. */
  datatype EventRun = EventRun(s: Events, posted: seq<Trb>, polled: seq<Trb>)

  function LapCycle(k: nat): nat { (k / 256 + 1) % 2 }

  ghost predicate EventInv(r: EventRun) {
    var p, n := |r.posted|, |r.polled|;
    && n <= p <= n + 256
    && r.s.index == n % 256 && r.s.cycle == LapCycle(n)
    && r.s.ctlIndex == p % 256 && r.s.ctlCycle == LapCycle(p)
    && (forall k: nat :: k < 256 ==> r.s.ring[k] == Written(r.posted, k))
    && (forall k: nat :: k < n ==> r.polled[k] == Stamp(r.posted[k], LapCycle(k)))
  }

  /** The last event posted to slot `i`, or the cleared slot. */
  function Written(posted: seq<Trb>, i: nat): Trb
    requires i < 256
  {
    if |posted| <= i then NullTrb
    else
      var k := LastAt(|posted|, i);
      Stamp(posted[k], LapCycle(k))
  }

  /** The largest position below `p` that falls on slot `i`. */
  function LastAt(p: nat, i: nat): (k: nat)
    requires i < 256 && i < p
    ensures k < p <= k + 256 && k % 256 == i
  {
    i + (p - 1 - i) / 256 * 256
  }

  /** The controller never overruns the driver: at most 256 events are outstanding. */
  function EventStep(r: EventRun, a: EventAction): EventRun
    requires r.s.index < 256 && r.s.cycle < 2 && r.s.ctlIndex < 256 && r.s.ctlCycle < 2
  {
    match a
    case PostEvent(t) =>
      if |r.posted| - |r.polled| < 256 then r.(s := Post(r.s, t), posted := r.posted + [t]) else r
    case PollEvent =>
      if HasEvent(r.s) then r.(s := Poll(r.s), polled := r.polled + [r.s.ring[r.s.index]]) else r
  }

  lemma LastAtIs(p: nat, i: nat, k: nat)
    requires i < 256 && k < p <= k + 256 && k % 256 == i
    ensures i < p && LastAt(p, i) == k
  {
    var q := LastAt(p, i);
    assert q % 256 == k % 256;
    assert q == 256 * (q / 256) + i && k == 256 * (k / 256) + i;
  }

  lemma Wraps(k: nat)
    ensures (k + 1) % 256 == (k % 256 + 1) % 256
    ensures LapCycle(k + 1) == if k % 256 == 255 then 1 - LapCycle(k) else LapCycle(k)
    ensures LapCycle(k + 256) == 1 - LapCycle(k)
  {
    var q, m := k / 256, k % 256;
    assert k == 256 * q + m;
    assert (k + 1) / 256 == if m == 255 then q + 1 else q;
  }

  /** A poll fails exactly when nothing is outstanding; otherwise the slot holds the next event. */
  lemma NextEvent(r: EventRun)
    requires EventInv(r)
    ensures HasEvent(r.s) <==> |r.polled| < |r.posted|
    ensures |r.polled| < |r.posted| ==>
      r.s.ring[r.s.index] == Stamp(r.posted[|r.polled|], LapCycle(|r.polled|))
  {
    hide LastAt, LapCycle, Stamp, TypeOf;
    var p, n, i := |r.posted|, |r.polled|, r.s.index;
    assert r.s.ring[i] == Written(r.posted, i);
    if n < p {
      LastAtIs(p, i, n);
    } else if n >= 256 {
      SameSlot(n - 256);
      LastAtIs(p, i, n - 256);
      Wraps(n - 256);
    } else {
      FirstLap(n);
    }
  }

  lemma SameSlot(k: nat)
    ensures (k + 256) % 256 == k % 256
  {
  }

  lemma FirstLap(n: nat)
    requires n < 256
    ensures LapCycle(n) == 1 && n % 256 == n
  {
  }

  lemma WrittenNext(posted: seq<Trb>, t: Trb, k: nat)
    requires k < 256
    ensures var p := |posted|;
      Written(posted + [t], k) == if k == p % 256 then Stamp(t, LapCycle(p)) else Written(posted, k)
  {
    hide LastAt, LapCycle, Stamp;
    var p := |posted|;
    if k == p % 256 {
      LastAtIs(p + 1, k, p);
    } else if k < p {
      StaysLast(p, k);
    }
  }

  lemma EventStepInv(r: EventRun, a: EventAction)
    requires EventInv(r)
    ensures EventInv(EventStep(r, a))
  {
    hide LastAt, LapCycle, Stamp, TypeOf, Written;
    var p, n := |r.posted|, |r.polled|;
    NextEvent(r);
    Wraps(n);
    Wraps(p);
    var r' := EventStep(r, a);
    if a.PostEvent? && p - n < 256 {
      forall k: nat | k < 256
        ensures r'.s.ring[k] == Written(r'.posted, k)
      {
        WrittenNext(r.posted, a.trb, k);
      }
    }
  }

  lemma StaysLast(p: nat, i: nat)
    requires i < 256 && i < p && i != p % 256
    ensures LastAt(p + 1, i) == LastAt(p, i)
  {
    var k := LastAt(p, i);
    assert k + 256 != p;
    LastAtIs(p + 1, i, k);
  }

  function EventTrace(r: EventRun, acts: seq<EventAction>): EventRun
    requires EventInv(r)
    ensures EventInv(EventTrace(r, acts))
    decreases |acts|
  {
    if acts == [] then r
    else
      EventStepInv(r, acts[0]);
      EventTrace(EventStep(r, acts[0]), acts[1..])
  }

  /**
   * Exactly once and in order: in every interleaving the polls return a prefix of what was posted,
   * and a further poll fails exactly when nothing is outstanding.
   */
  lemma EventsDeliveredInOrder(acts: seq<EventAction>)
    ensures var start := EventRun(NoEvents, [], []);
      EventInv(start) &&
      var r := EventTrace(start, acts);
      && |r.polled| <= |r.posted|
      && (forall k :: 0 <= k < |r.polled| ==> r.polled[k] == Stamp(r.posted[k], LapCycle(k)))
      && (HasEvent(r.s) <==> |r.polled| < |r.posted|)
  {
    var start := EventRun(NoEvents, [], []);
    assert EventInv(start);
    NextEvent(EventTrace(start, acts));
  }

  /** The driver's side of the event ring. */
  class EventRing {
    const trbs: array<Trb>
    var index: nat
    var cycle: nat

    ghost predicate Valid()
      reads this, trbs
    {
      trbs.Length == 256 && index < 256 && cycle < 2
    }

    /** The ring together with where the controller is. */
    ghost function State(ctlIndex: nat, ctlCycle: nat): Events
      requires Valid()
      reads this, trbs
    {
      Events(trbs[..], index, cycle, ctlIndex, ctlCycle)
    }

    constructor ()
      ensures Valid() && fresh(trbs) && State(0, 1) == NoEvents
    {
      trbs := new Trb[256](_ => NullTrb);
      index := 0;
      cycle := 1;
    }

    /** `xhci_poll_event` */
    method PollEvent(ghost ctlIndex: nat, ghost ctlCycle: nat) returns (ok: bool, trb: Trb)
      requires Valid()
      modifies this`index, this`cycle
      ensures Valid()
      ensures ok <==> HasEvent(old(State(ctlIndex, ctlCycle)))
      ensures ok ==> trb == old(trbs[index])
      ensures State(ctlIndex, ctlCycle) == Poll(old(State(ctlIndex, ctlCycle)))
    {
      trb := trbs[index];
      if trb.control % 2 != cycle {
        return false, trb;
      }
      index := index + 1;
      if index >= 256 {
        index := 0;
        cycle := 1 - cycle;
      }
      ok := true;
    }
  }

  // ---- Command and transfer rings ----

  /** The Link TRB at the end of a ring at `base`: back to the start, toggling the cycle state. */
  function LinkTrb(base: nat): Trb {
    Trb(base, 0, MakeControl(LINK, 1) + 2)
  }

  function FreshSlots(base: nat): Slots {
    seq<Trb>(256, (i: nat) => if i == 255 then LinkTrb(base) else NullTrb)
  }

  /** A ring as the driver keeps it. */
  datatype Producer = Producer(ring: Slots, index: nat, cycle: nat)

  function Push(s: Producer, t: Trb): Producer
    requires s.index < 255 && s.cycle < 2
  {
    Producer(s.ring[s.index := Stamp(t, s.cycle)],
             if s.index == 254 then 0 else s.index + 1,
             if s.index == 254 then 1 - s.cycle else s.cycle)
  }

  /** The controller's side: where it reads next, its cycle state and how often it has wrapped. */
  datatype Consumer = Consumer(deq: nat, ccs: nat, lap: nat)

  /** A run so far: both sides, what was pushed and what the controller received. */
  datatype RingRun = RingRun(p: Producer, c: Consumer, pushed: seq<Trb>, received: seq<Trb>)

  /** The slot of a ring at `base` that an address points to, 16 bytes each; 256 when it points elsewhere. */
  function SlotOf(base: nat, ptr: nat): (slot: nat)
    ensures slot <= 256
  {
    if base <= ptr < base + 4096 && ptr % 16 == base % 16 then (ptr - base) / 16 else 256
  }

  /**
   * The controller of a ring at `base` looks at one slot: it waits, follows a link to where its pointer
   * leads, without the pointer's four low bits, or receives a TRB.
   */
  function Advance(base: nat, r: RingRun): RingRun
    requires r.c.deq < 256 && r.c.ccs < 2
  {
    var t := r.p.ring[r.c.deq];
    if CycleOf(t) != r.c.ccs then r
    else if TypeOf(t) == LINK then
      var slot := SlotOf(base, t.data - t.data % 16);
      r.(c := Consumer(slot, if t.control / 2 % 2 == 1 then 1 - r.c.ccs else r.c.ccs, r.c.lap + 1))
    else r.(c := r.c.(deq := r.c.deq + 1), received := r.received + [t])
  }

  datatype RingAction = PushTrb(trb: Trb) | Look

  /** Drivers push no Link TRBs of their own. */
  predicate ActionOk(a: RingAction) {
    a.PushTrb? ==> TypeOf(a.trb) != LINK
  }

  function RingStep(base: nat, r: RingRun, a: RingAction): RingRun
    requires r.p.index < 255 && r.p.cycle < 2 && r.c.deq < 256 && r.c.ccs < 2
  {
    match a
    case PushTrb(t) => r.(p := Push(r.p, t), pushed := r.pushed + [t])
    case Look => Advance(base, r)
  }

  /** The controller is told to start at the ring's address. */
  function Start(base: nat): RingRun {
    RingRun(Producer(FreshSlots(base), 0, 1), Consumer(SlotOf(base, base), 1, 0), [], [])
  }

  // ---- What holds in every interleaving ----

  /** The link is as allocated, nothing else is a link, and the controller has wrapped at most once. */
  ghost predicate RingInv(base: nat, r: RingRun) {
    && base % 4096 == 0 && r.p.index < 255 && r.p.cycle < 2
    && r.p.ring[255] == LinkTrb(base) && (forall k :: 0 <= k < 255 ==> TypeOf(r.p.ring[k]) != LINK)
    && r.c.deq < 256 && r.c.lap < 2 && r.c.ccs == 1 - r.c.lap
    && |r.received| == 255 * r.c.lap + r.c.deq
  }

  lemma LinkFields(base: nat)
    requires base % 4096 == 0
    ensures CycleOf(LinkTrb(base)) == 1 && TypeOf(LinkTrb(base)) == LINK && LinkTrb(base).control / 2 % 2 == 1
    ensures SlotOf(base, LinkTrb(base).data - LinkTrb(base).data % 16) == 0
  {
    hide SlotOf;
    BaseIsSlot(base);
  }

  lemma BaseIsSlot(base: nat)
    requires base % 4096 == 0
    ensures base % 16 == 0 && SlotOf(base, base) == 0
  {
    var q := base / 4096;
    assert base == 16 * (256 * q);
  }

  lemma RingStepInv(base: nat, r: RingRun, a: RingAction)
    requires RingInv(base, r) && ActionOk(a)
    ensures RingInv(base, RingStep(base, r, a))
  {
    hide Stamp, LinkTrb, SlotOf;
    LinkFields(base);
  }

  function RingTrace(base: nat, r: RingRun, acts: seq<RingAction>): RingRun
    requires RingInv(base, r) && forall a :: a in acts ==> ActionOk(a)
    ensures RingInv(base, RingTrace(base, r, acts))
    decreases |acts|
  {
    if acts == [] then r
    else
      RingStepInv(base, r, acts[0]);
      RingTrace(base, RingStep(base, r, acts[0]), acts[1..])
  }

  lemma StartInv(base: nat)
    requires base % 4096 == 0
    ensures RingInv(base, Start(base))
  {
    assert TypeOf(NullTrb) == 0;
  }

  /** However the driver pushes and the controller looks, it never receives a 511th TRB. */
  lemma NeverMoreThan510(base: nat, acts: seq<RingAction>)
    requires base % 4096 == 0 && forall a :: a in acts ==> ActionOk(a)
    ensures RingInv(base, Start(base))
    ensures |RingTrace(base, Start(base), acts).received| <= 510
  {
    StartInv(base);
  }

  // ---- Delivery with at most 255 outstanding ----

  function PushLap(k: nat): nat { (k / 255 + 1) % 2 }

  /** The largest position below `p` that falls on slot `i` of the 255. */
  function LastPush(p: nat, i: nat): (k: nat)
    requires i < 255 && i < p
    ensures k < p <= k + 255 && k % 255 == i
  {
    i + (p - 1 - i) / 255 * 255
  }

  function Pushed(pushed: seq<Trb>, i: nat): Trb
    requires i < 255
  {
    if |pushed| <= i then NullTrb
    else
      var k := LastPush(|pushed|, i);
      Stamp(pushed[k], PushLap(k))
  }

  ghost predicate Delivering(base: nat, r: RingRun) {
    var p, n := |r.pushed|, |r.received|;
    && RingInv(base, r) && n <= p <= n + 255
    && r.p.index == p % 255 && r.p.cycle == PushLap(p)
    && (forall k: nat :: k < 255 ==> r.p.ring[k] == Pushed(r.pushed, k))
    && (forall k: nat :: k < n ==> r.received[k] == Stamp(r.pushed[k], PushLap(k)))
  }

  /** The driver keeps at most 255 TRBs outstanding. */
  predicate Bounded(r: RingRun, a: RingAction) {
    a.PushTrb? ==> |r.pushed| - |r.received| < 255
  }

  lemma LastPushIs(p: nat, i: nat, k: nat)
    requires i < 255 && k < p <= k + 255 && k % 255 == i
    ensures i < p && LastPush(p, i) == k
  {
    var q := LastPush(p, i);
    assert q == 255 * (q / 255) + i && k == 255 * (k / 255) + i;
  }

  lemma PushWraps(k: nat)
    ensures (k + 1) % 255 == (if k % 255 == 254 then 0 else k % 255 + 1)
    ensures PushLap(k + 1) == if k % 255 == 254 then 1 - PushLap(k) else PushLap(k)
    ensures PushLap(k + 255) == 1 - PushLap(k) && (k + 255) % 255 == k % 255
    ensures k < 255 ==> PushLap(k) == 1 && k % 255 == k
  {
    var q, m := k / 255, k % 255;
    assert k == 255 * q + m;
    assert (k + 1) / 255 == if m == 254 then q + 1 else q;
  }

  lemma LapOf(lap: nat, deq: nat)
    requires lap < 2 && deq < 255
    ensures (255 * lap + deq) % 255 == deq && PushLap(255 * lap + deq) == 1 - lap
  {
  }

  /** Away from the link the next slot is ready exactly when something is outstanding. */
  lemma NextTrb(base: nat, r: RingRun)
    requires Delivering(base, r) && r.c.deq < 255
    ensures CycleOf(r.p.ring[r.c.deq]) == r.c.ccs <==> |r.received| < |r.pushed|
    ensures |r.received| < |r.pushed| ==>
      r.p.ring[r.c.deq] == Stamp(r.pushed[|r.received|], PushLap(|r.received|))
  {
    hide LastPush, PushLap, Stamp, TypeOf, LinkTrb, SlotOf;
    var p, n, i := |r.pushed|, |r.received|, r.c.deq;
    LapOf(r.c.lap, i);
    assert r.p.ring[i] == Pushed(r.pushed, i);
    if n < p {
      LastPushIs(p, i, n);
    } else if n >= 255 {
      PushWraps(n - 255);
      LastPushIs(p, i, n - 255);
    }
  }

  lemma DeliveringStep(base: nat, r: RingRun, a: RingAction)
    requires Delivering(base, r) && ActionOk(a) && Bounded(r, a)
    ensures Delivering(base, RingStep(base, r, a))
  {
    hide LastPush, PushLap, Stamp, TypeOf, LinkTrb, SlotOf;
    RingStepInv(base, r, a);
    LinkFields(base);
    var p := |r.pushed|;
    PushWraps(p);
    if r.c.deq < 255 {
      NextTrb(base, r);
    }
    var r' := RingStep(base, r, a);
    if a.PushTrb? {
      forall k: nat | k < 255
        ensures r'.p.ring[k] == Pushed(r'.pushed, k)
      {
        if k == p % 255 {
          LastPushIs(p + 1, k, p);
        } else if k < p {
          LastPushStays(p, k);
        } else {
          PushWraps(p);
        }
      }
    }
  }

  lemma LastPushStays(p: nat, i: nat)
    requires i < 255 && i < p && i != p % 255
    ensures LastPush(p + 1, i) == LastPush(p, i)
  {
    var k := LastPush(p, i);
    assert k + 255 != p;
    LastPushIs(p + 1, i, k);
  }

  predicate BoundedRun(base: nat, r: RingRun, acts: seq<RingAction>)
    requires RingInv(base, r) && forall a :: a in acts ==> ActionOk(a)
    decreases |acts|
  {
    acts == [] ||
    (RingStepInv(base, r, acts[0]);
     Bounded(r, acts[0]) && BoundedRun(base, RingStep(base, r, acts[0]), acts[1..]))
  }

  lemma {:induction false} TraceDelivers(base: nat, r: RingRun, acts: seq<RingAction>)
    requires (forall a :: a in acts ==> ActionOk(a)) && Delivering(base, r) && BoundedRun(base, r, acts)
    ensures Delivering(base, RingTrace(base, r, acts))
    decreases |acts|
  {
    if acts != [] {
      DeliveringStep(base, r, acts[0]);
      TraceDelivers(base, RingStep(base, r, acts[0]), acts[1..]);
    }
  }

  /**
   * With at most 255 outstanding the controller receives exactly the pushed TRBs, in order, for the
   * first 510: two looks are enough for the next one whenever fewer than 510 have arrived and one
   * is outstanding, and no look ever yields another.
   */
  lemma First510Delivered(base: nat, acts: seq<RingAction>)
    requires base % 4096 == 0 && forall a :: a in acts ==> ActionOk(a)
    ensures RingInv(base, Start(base))
    ensures BoundedRun(base, Start(base), acts) ==>
      var r := RingTrace(base, Start(base), acts);
      && |r.received| <= |r.pushed|
      && (forall k :: 0 <= k < |r.received| ==> r.received[k] == Stamp(r.pushed[k], PushLap(k)))
      && RingInv(base, Advance(base, r))
      && (|Advance(base, Advance(base, r)).received| > |r.received| <==> |r.received| < |r.pushed| && |r.received| < 510)
  {
    StartInv(base);
    if BoundedRun(base, Start(base), acts) {
      StartDelivers(base);
      TraceDelivers(base, Start(base), acts);
      TwoLooks(base, RingTrace(base, Start(base), acts));
    }
  }

  lemma StartDelivers(base: nat)
    requires base % 4096 == 0
    ensures Delivering(base, Start(base))
  {
    StartInv(base);
  }

  lemma TwoLooks(base: nat, r: RingRun)
    requires Delivering(base, r)
    ensures Delivering(base, Advance(base, r))
    ensures |Advance(base, Advance(base, r)).received| > |r.received| <==> |r.received| < |r.pushed| && |r.received| < 510
  {
    hide PushLap, Stamp, TypeOf, LinkTrb, SlotOf, Pushed;
    LinkFields(base);
    DeliveringStep(base, r, Look);
    var r' := Advance(base, r);
    if r.c.deq < 255 {
      NextTrb(base, r);
    }
    if r'.c.deq < 255 {
      NextTrb(base, r');
    }
  }

  /** The command ring, the EP0 rings and the interrupt rings, which are filled alike. */
  class TransferRing {
    const trbs: array<Trb>
    var index: nat
    var cycle: nat

    ghost predicate Valid()
      reads this, trbs
    {
      trbs.Length == 256 && index < 255 && cycle < 2
    }

    ghost function State(): Producer
      requires Valid()
      reads this, trbs
    {
      Producer(trbs[..], index, cycle)
    }

    /** `xhci_alloc_tr_ring`, and the set-up of the command ring; `base` is the ring's address. */
    constructor (base: nat)
      ensures Valid() && fresh(trbs) && State() == Start(base).p
      ensures trbs[255] == Trb(base, 0, 0x1803) && forall k :: 0 <= k < 255 ==> trbs[k] == Trb(0, 0, 0)
    {
      trbs := new Trb[256](_ => NullTrb);
      index := 0;
      cycle := 1;
      new;
      trbs[255] := Trb(base, 0, MakeControl(LINK, 1) + 2);
      assert trbs[..] == FreshSlots(base);
    }

    /** `xhci_cmd_ring_push`, `xhci_ep0_ring_push` and `xhci_intr_ring_push` */
    method PushTrb(trb: Trb)
      requires Valid()
      modifies this`index, this`cycle, trbs
      ensures Valid() && State() == Push(old(State()), trb)
    {
      var c := trb.control - trb.control % 2 + cycle % 2;
      StampedType(trb.control, cycle);
      trbs[index] := trb.(control := c);
      index := index + 1;
      if index == 255 {
        index := 0;
        cycle := 1 - cycle;
      }
    }
  }
}
