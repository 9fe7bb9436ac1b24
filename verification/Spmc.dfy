/** The single-producer, multiple-consumer ring of src/spmc.c as a transition system: every
    atomic access is one step, and any number of threads take steps in any order. */
module Spmc {
  import opened Wrappers
  import opened Bits
  import opened Sequences

  /** The power of two a3_spmc_init rounds the capacity up to, and the mask it derives. */
  method RoundCapacity(wanted: nat) returns (cap: nat, mask: nat, ghost order: nat)
    ensures cap == Pow2(order) && mask == cap - 1 && wanted <= cap
    ensures forall k: nat :: wanted <= Pow2(k) ==> cap <= Pow2(k)
  {
    cap, order := 1, 0;
    while cap < wanted
      invariant cap == Pow2(order)
      invariant forall k: nat :: wanted <= Pow2(k) ==> cap <= Pow2(k)
      decreases wanted - cap
    {
      forall k: nat | wanted <= Pow2(k) ensures cap * 2 <= Pow2(k) {
        if k <= order {
          Pow2Monotone(k, order);
        } else {
          Pow2Monotone(order + 1, k);
        }
      }
      cap, order := cap * 2, order + 1;
    }
    mask := cap - 1;
  }

  /** Where the producer is: the access it makes next. */
  datatype Producer<T> =
    | Resting
    | LoadEnd(elem: T, blocking: bool)
    | LoadHead(elem: T, blocking: bool, end: nat)
    | LoadSlot(elem: T, blocking: bool, end: nat)
    | StoreSlot(elem: T, blocking: bool, end: nat)
    | AddEnd(elem: T, blocking: bool, end: nat)

  /** Where a consumer is: the access it makes next. */
  datatype Consumer =
    | Idle
    | TryLoadEnd
    | TryLoadHead(end: nat)
    | TryClaim(end: nat, head: nat, attempts: nat)
    | AddHead
    | AwaitEnd(ticket: nat)
    | Exchange(ticket: nat)

  /** The shared queue, the threads, and three records of the past: the elements in order of
      publication, the thread that claimed each ticket, and what each claimed ticket yielded. */
  datatype State<T> = State(
    mask: nat, slots: seq<Option<T>>, head: nat, end: nat,
    producer: Producer<T>, consumers: map<nat, Consumer>,
    enqueued: seq<T>, claims: seq<nat>, delivered: map<nat, Option<T>>)

  datatype Action<T> =
    | StartTryEnqueue(elem: T) | StartEnqueue(elem: T) | StepProducer
    | StartTryDequeue(tid: nat) | StartDequeue(tid: nat) | StepConsumer(tid: nat)

  datatype Event<T> = Silent | EnqueueReturns(ok: bool) | DequeueReturns(tid: nat, value: Option<T>)

  datatype Transition<T> = To(state: State<T>, event: Event<T>)

  const MAX_ATTEMPTS: nat := 5

  function Index<T>(s: State<T>, ticket: nat): (i: nat)
    ensures i <= s.mask
  {
    AndBound(ticket, s.mask);
    And(ticket, s.mask)
  }

  function ThreadOf<T>(s: State<T>, tid: nat): Consumer {
    if tid in s.consumers then s.consumers[tid] else Idle
  }

  /** The queue that a3_spmc_init leaves, with nobody at work. */
  function InitialState<T>(order: nat): (s: State<T>)
    ensures Inv(s) && |s.slots| == Pow2(order) && s.head == s.end == 0
    ensures s.producer.Resting? && s.consumers == map[] && forall i | 0 <= i < |s.slots| :: s.slots[i] == None
  {
    State(Pow2(order) - 1, seq(Pow2(order), _ => None), 0, 0, Resting, map[], [], [], map[])
  }

  /** A step, and what the stepping call returns if it ends. Starting an operation on a busy
      thread and stepping an idle one change nothing. */
  function Step<T>(s: State<T>, a: Action<T>): Transition<T>
    requires |s.slots| == s.mask + 1
  {
    match a
    case StartTryEnqueue(elem) =>
      To(if s.producer.Resting? then s.(producer := LoadEnd(elem, false)) else s, Silent)
    case StartEnqueue(elem) =>
      To(if s.producer.Resting? then s.(producer := LoadEnd(elem, true)) else s, Silent)
    case StepProducer => ProducerStep(s)
    case StartTryDequeue(tid) =>
      To(if ThreadOf(s, tid).Idle? then Move(s, tid, TryLoadEnd) else s, Silent)
    case StartDequeue(tid) =>
      To(if ThreadOf(s, tid).Idle? then Move(s, tid, AddHead) else s, Silent)
    case StepConsumer(tid) => ConsumerStep(s, tid)
  }

  function ProducerStep<T>(s: State<T>): Transition<T>
    requires |s.slots| == s.mask + 1
  {
    match s.producer
    case Resting => To(s, Silent)
    case LoadEnd(elem, blocking) =>
      To(s.(producer := LoadHead(elem, blocking, s.end)), Silent)
    case LoadHead(elem, blocking, end) =>
      if end < s.head + |s.slots| then To(s.(producer := LoadSlot(elem, blocking, end)), Silent)
      else if blocking then To(s, Silent)
      else To(s.(producer := Resting), EnqueueReturns(false))
    case LoadSlot(elem, blocking, end) =>
      if s.slots[Index(s, end)] == None then To(s.(producer := StoreSlot(elem, blocking, end)), Silent)
      else if blocking then To(s, Silent)
      else To(s.(producer := Resting), EnqueueReturns(false))
    case StoreSlot(elem, blocking, end) =>
      To(s.(slots := s.slots[Index(s, end) := Some(elem)], producer := AddEnd(elem, blocking, end)), Silent)
    case AddEnd(elem, _, _) =>
      To(s.(end := s.end + 1, enqueued := s.enqueued + [elem], producer := Resting),
         EnqueueReturns(true))
  }

  function ConsumerStep<T>(s: State<T>, tid: nat): Transition<T>
    requires |s.slots| == s.mask + 1
  {
    match ThreadOf(s, tid)
    case Idle => To(s, Silent)
    case TryLoadEnd => To(Move(s, tid, TryLoadHead(s.end)), Silent)
    case TryLoadHead(end) => To(Move(s, tid, TryClaim(end, s.head, 0)), Silent)
    case TryClaim(end, head, attempts) =>
      if attempts >= MAX_ATTEMPTS || head >= end then To(Move(s, tid, Idle), DequeueReturns(tid, None))
      else if head == s.head then To(Claim(s, tid, Exchange(s.head)), Silent)
      else To(Move(s, tid, TryClaim(end, s.head, attempts + 1)), Silent)
    case AddHead => To(Claim(s, tid, AwaitEnd(s.head)), Silent)
    case AwaitEnd(ticket) =>
      To(if ticket < s.end then Move(s, tid, Exchange(ticket)) else s, Silent)
    case Exchange(ticket) =>
      To(TakeSlot(s, tid, ticket), DequeueReturns(tid, s.slots[Index(s, ticket)]))
  }

  function Move<T>(s: State<T>, tid: nat, next: Consumer): State<T> {
    s.(consumers := s.consumers[tid := next])
  }

  function TakeSlot<T>(s: State<T>, tid: nat, ticket: nat): State<T>
    requires |s.slots| == s.mask + 1
  {
    var i := Index(s, ticket);
    Move(s, tid, Idle).(slots := s.slots[i := None], delivered := s.delivered[ticket := s.slots[i]])
  }

  /** The compare-and-exchange or fetch-and-add that takes the next ticket. */
  function Claim<T>(s: State<T>, tid: nat, next: Consumer): State<T> {
    Move(s, tid, next).(head := s.head + 1, claims := s.claims + [tid])
  }

  // ----- Slots are tickets modulo the capacity

  function SlotOf(t: int, cap: nat): (i: nat)
    requires cap > 0
    ensures i < cap
  {
    t % cap
  }

  lemma SlotsApart(t: int, u: int, cap: nat)
    requires cap > 0 && t - u < cap && u - t < cap && SlotOf(t, cap) == SlotOf(u, cap)
    ensures t == u
  {
    var d := t / cap - u / cap;
    assert t == (t / cap) * cap + t % cap && u == (u / cap) * cap + u % cap;
    assert d * cap == t - u by {
      assert d * cap == (t / cap) * cap - (u / cap) * cap;
    }
    SmallMultiple(d, cap);
  }

  lemma SlotsRepeat(t: int, cap: nat)
    requires cap > 0
    ensures SlotOf(t - cap, cap) == SlotOf(t, cap)
  {
    var q, r := t / cap, t % cap;
    assert t - cap == (q - 1) * cap + r by {
      assert (q - 1) * cap == q * cap - cap;
    }
    ModUnique(t - cap, cap, q - 1, r);
  }

  lemma WindowCovers(end: int, cap: nat, i: nat) returns (t: int)
    requires i < cap
    ensures end - cap <= t < end && SlotOf(t, cap) == i
  {
    var back := (end - 1 - i) % cap;
    t := end - 1 - back;
    var q := (end - 1 - i) / cap;
    assert end - 1 - i == q * cap + back;
    ModUnique(t, cap, q, i);
  }

  // ----- The invariant

  /** What the slot of ticket t holds: its element if published and not yet taken. */
  function Content<T>(s: State<T>, t: int): Option<T>
    requires t < |s.enqueued|
  {
    if t < 0 || t in s.delivered then None else Some(s.enqueued[t])
  }

  function TicketOf(c: Consumer): Option<nat> {
    match c
    case AwaitEnd(t) => Some(t)
    case Exchange(t) => Some(t)
    case _ => None
  }

  ghost predicate Shape<T>(s: State<T>) {
    && (exists k: nat :: s.mask + 1 == Pow2(k))
    && |s.slots| == s.mask + 1 && |s.enqueued| == s.end && |s.claims| == s.head
  }

  /** Every claimed ticket is held by its one claimant or has been delivered to it. */
  ghost predicate Tickets<T>(s: State<T>)
    requires Shape(s)
  {
    && (forall tid | tid in s.consumers && TicketOf(s.consumers[tid]).Some? ::
          var t := TicketOf(s.consumers[tid]).value;
          t < s.head && s.claims[t] == tid && t !in s.delivered)
    && (forall t: nat | t < s.head && t !in s.delivered ::
          s.claims[t] in s.consumers && TicketOf(s.consumers[s.claims[t]]) == Some(t))
    && (forall t | t in s.delivered ::
          t < s.head && t < s.end && s.delivered[t] == Some(s.enqueued[t]))
    && (forall tid | tid in s.consumers ::
          match s.consumers[tid]
          case Exchange(t) => t < s.end
          case TryLoadHead(end) => end <= s.end
          case TryClaim(end, head, attempts) => end <= s.end && head <= s.head
          case _ => true)
  }

  /** Each of the last cap tickets owns its slot; older ones have all been delivered. While an
      element is stored but not published, it has replaced a delivered ticket. */
  ghost predicate Window<T>(s: State<T>)
    requires Shape(s)
  {
    var cap := |s.slots|;
    && (forall t: nat | t < s.end - cap :: t in s.delivered)
    && (forall t: int | s.end - cap <= t < s.end && !(s.producer.AddEnd? && t == s.end - cap) ::
          s.slots[SlotOf(t, cap)] == Content(s, t))
    && (match s.producer
        case LoadHead(_, _, end) => end == s.end
        case LoadSlot(_, _, end) => end == s.end
        case StoreSlot(_, _, end) => end == s.end && s.slots[SlotOf(end, cap)] == None
        case AddEnd(elem, _, end) =>
          end == s.end && s.slots[SlotOf(end, cap)] == Some(elem) && Content(s, end - cap) == None
        case _ => true)
  }

  ghost predicate Inv<T>(s: State<T>) {
    Shape(s) && Tickets(s) && Window(s)
  }

  lemma IndexIsSlot<T>(s: State<T>, t: nat)
    requires Shape(s)
    ensures Index(s, t) == SlotOf(t, |s.slots|)
  {
    var k: nat :| s.mask + 1 == Pow2(k);
    MaskIsMod(t, k);
  }

  /** A claimant about to exchange finds the element of its own ticket. */
  lemma OwnElement<T>(s: State<T>, t: nat)
    requires Inv(s) && t < s.end && t !in s.delivered
    ensures Index(s, t) < |s.slots| && s.slots[Index(s, t)] == Some(s.enqueued[t])
  {
    IndexIsSlot(s, t);
    assert t >= s.end - |s.slots|;
    assert s.producer.AddEnd? ==> t != s.end - |s.slots|;
  }

  /** Tickets stay as they are while the producer only publishes more. */
  lemma PublishingKeepsTickets<T>(s: State<T>, s': State<T>)
    requires Shape(s) && Tickets(s) && Shape(s')
    requires s'.head == s.head && s'.claims == s.claims && s'.consumers == s.consumers
    requires s'.delivered == s.delivered && s.enqueued <= s'.enqueued
    ensures Tickets(s')
  {
  }

  lemma StoreKeepsInv<T>(s: State<T>)
    requires Inv(s) && s.producer.StoreSlot?
    ensures Inv(ProducerStep(s).state)
  {
    var s' := ProducerStep(s).state;
    var end, cap := s.end, |s.slots|;
    PublishingKeepsTickets(s, s');
    IndexIsSlot(s, end);
    SlotsRepeat(end, cap);
    assert s.slots[SlotOf(end - cap, cap)] == Content(s, end - cap);
    forall t: int | end - cap < t < end ensures s'.slots[SlotOf(t, cap)] == Content(s', t) {
      if SlotOf(t, cap) == SlotOf(end, cap) {
        SlotsApart(t, end, cap);
      }
    }
  }

  lemma PublishKeepsInv<T>(s: State<T>)
    requires Inv(s) && s.producer.AddEnd?
    ensures Inv(ProducerStep(s).state)
  {
    var s' := ProducerStep(s).state;
    PublishingKeepsTickets(s, s');
    assert forall t: int | t < s.end :: Content(s', t) == Content(s, t);
    assert Content(s', s.end) == Some(s.producer.elem);
  }

  /** A step of the producer that only looks keeps the records and the slots. */
  lemma LookingKeepsWindow<T>(s: State<T>, s': State<T>)
    requires Shape(s) && Window(s) && Shape(s') && !s.producer.AddEnd?
    requires s' == s.(producer := s'.producer)
    requires match s'.producer
             case LoadHead(_, _, end) => end == s.end
             case LoadSlot(_, _, end) => end == s.end
             case StoreSlot(_, _, end) => end == s.end && s.slots[SlotOf(end, |s.slots|)] == None
             case AddEnd(_, _, _) => false
             case _ => true
    ensures Window(s')
  {
    assert forall t: int | t < s.end :: Content(s', t) == Content(s, t);
  }

  lemma LookingKeepsInv<T>(s: State<T>)
    requires Inv(s) && !s.producer.StoreSlot? && !s.producer.AddEnd?
    ensures Inv(ProducerStep(s).state)
  {
    var s' := ProducerStep(s).state;
    IndexIsSlot(s, s.end);
    LookingKeepsWindow(s, s');
    PublishingKeepsTickets(s, s');
  }

  lemma ProducerKeepsInv<T>(s: State<T>)
    requires Inv(s)
    ensures Inv(ProducerStep(s).state)
  {
    if s.producer.StoreSlot? {
      StoreKeepsInv(s);
    } else if s.producer.AddEnd? {
      PublishKeepsInv(s);
    } else {
      LookingKeepsInv(s);
    }
  }

  lemma ClaimKeepsTickets<T>(s: State<T>, tid: nat, next: Consumer)
    requires Shape(s) && Tickets(s) && TicketOf(ThreadOf(s, tid)) == None && TicketOf(next) == Some(s.head)
    requires next.Exchange? ==> s.head < s.end
    ensures Shape(Claim(s, tid, next)) && Tickets(Claim(s, tid, next))
  {
  }

  /** The window does not depend on what consumers claim or are about to do. */
  lemma MovingKeepsWindow<T>(s: State<T>, s': State<T>)
    requires Shape(s) && Window(s) && Shape(s')
    requires s'.slots == s.slots && s'.end == s.end && s'.producer == s.producer
    requires s'.enqueued == s.enqueued && s'.delivered == s.delivered
    ensures Window(s')
  {
    assert forall t: int | t < s.end :: Content(s', t) == Content(s, t);
  }

  lemma ClaimKeepsInv<T>(s: State<T>, tid: nat, next: Consumer)
    requires Inv(s) && TicketOf(ThreadOf(s, tid)) == None && TicketOf(next) == Some(s.head)
    requires next.Exchange? ==> s.head < s.end
    ensures Inv(Claim(s, tid, next))
  {
    ClaimKeepsTickets(s, tid, next);
    MovingKeepsWindow(s, Claim(s, tid, next));
  }

  lemma MoveKeepsInv<T>(s: State<T>, tid: nat, next: Consumer)
    requires Inv(s) && TicketOf(ThreadOf(s, tid)) == TicketOf(next)
    requires match next
             case Exchange(t) => t < s.end
             case TryLoadHead(end) => end <= s.end
             case TryClaim(end, head, _) => end <= s.end && head <= s.head
             case _ => true
    ensures Inv(Move(s, tid, next))
  {
    MovingKeepsWindow(s, Move(s, tid, next));
  }

  lemma TakeKeepsTickets<T>(s: State<T>, tid: nat, ticket: nat)
    requires Inv(s) && ThreadOf(s, tid) == Exchange(ticket)
    ensures ticket < s.end && ticket !in s.delivered
    ensures Shape(TakeSlot(s, tid, ticket)) && Tickets(TakeSlot(s, tid, ticket))
  {
    assert TicketOf(s.consumers[tid]) == Some(ticket);
    OwnElement(s, ticket);
  }

  lemma TakeKeepsWindow<T>(s: State<T>, tid: nat, ticket: nat)
    requires Inv(s) && ThreadOf(s, tid) == Exchange(ticket) && ticket < s.end && ticket !in s.delivered
    requires Shape(TakeSlot(s, tid, ticket))
    ensures Window(TakeSlot(s, tid, ticket))
  {
    var s' := TakeSlot(s, tid, ticket);
    var end, cap := s.end, |s.slots|;
    IndexIsSlot(s, ticket);
    SlotsRepeat(end, cap);
    assert ticket >= end - cap;
    forall t: int | end - cap <= t < end && !(s.producer.AddEnd? && t == end - cap)
      ensures s'.slots[SlotOf(t, cap)] == Content(s', t)
    {
      if t != ticket && SlotOf(t, cap) == SlotOf(ticket, cap) {
        SlotsApart(t, ticket, cap);
      }
    }
    if s.producer.AddEnd? && SlotOf(end, cap) == SlotOf(ticket, cap) {
      SlotsApart(end - cap, ticket, cap);
    }
  }

  lemma LoadedBounds<T>(s: State<T>, tid: nat)
    requires Shape(s) && Tickets(s) && ThreadOf(s, tid).TryClaim?
    ensures ThreadOf(s, tid).end <= s.end && ThreadOf(s, tid).head <= s.head
  {
  }

  lemma TryClaimKeepsInv<T>(s: State<T>, tid: nat)
    requires Inv(s) && ThreadOf(s, tid).TryClaim?
    ensures Inv(ConsumerStep(s, tid).state)
  {
    var c, t := s.consumers[tid], ConsumerStep(s, tid).state;
    LoadedBounds(s, tid);
    if c.attempts >= MAX_ATTEMPTS || c.head >= c.end {
      assert t == Move(s, tid, Idle);
      MoveKeepsInv(s, tid, Idle);
    } else if c.head == s.head {
      assert t == Claim(s, tid, Exchange(s.head));
      ClaimKeepsInv(s, tid, Exchange(s.head));
    } else {
      var next := TryClaim(c.end, s.head, c.attempts + 1);
      assert t == Move(s, tid, next);
      MoveKeepsInv(s, tid, next);
    }
  }

  lemma ConsumerKeepsInv<T>(s: State<T>, tid: nat)
    requires Inv(s)
    ensures Inv(ConsumerStep(s, tid).state)
  {
    match ThreadOf(s, tid)
    case Idle =>
    case TryLoadEnd => MoveKeepsInv(s, tid, TryLoadHead(s.end));
    case TryLoadHead(end) => MoveKeepsInv(s, tid, TryClaim(end, s.head, 0));
    case TryClaim(_, _, _) => TryClaimKeepsInv(s, tid);
    case AddHead => ClaimKeepsInv(s, tid, AwaitEnd(s.head));
    case AwaitEnd(ticket) =>
      if ticket < s.end {
        MoveKeepsInv(s, tid, Exchange(ticket));
      }
    case Exchange(ticket) =>
      TakeKeepsTickets(s, tid, ticket);
      TakeKeepsWindow(s, tid, ticket);
  }

  lemma StepKeepsInv<T>(s: State<T>, a: Action<T>)
    requires Inv(s)
    ensures Inv(Step(s, a).state)
  {
    match a
    case StepProducer => ProducerKeepsInv(s);
    case StepConsumer(tid) => ConsumerKeepsInv(s, tid);
    case StartTryDequeue(tid) =>
      if ThreadOf(s, tid).Idle? {
        MoveKeepsInv(s, tid, TryLoadEnd);
      }
    case StartDequeue(tid) =>
      if ThreadOf(s, tid).Idle? {
        MoveKeepsInv(s, tid, AddHead);
      }
    case _ =>
  }

  // ----- Runs

  /** The state after the actions, from any state that satisfies the invariant. */
  ghost function Run<T>(s: State<T>, actions: seq<Action<T>>): (s': State<T>)
    requires Inv(s)
    ensures Inv(s')
    decreases |actions|
  {
    if actions == [] then s
    else
      StepKeepsInv(s, actions[0]);
      Run(Step(s, actions[0]).state, actions[1..])
  }

  predicate Takes<T>(s: State<T>, a: Action<T>) {
    a.StepConsumer? && ThreadOf(s, a.tid).Exchange?
  }

  predicate Publishes<T>(s: State<T>, a: Action<T>) {
    a.StepProducer? && s.producer.AddEnd?
  }

  lemma QuietStep<T>(s: State<T>, a: Action<T>)
    requires |s.slots| == s.mask + 1 && !Takes(s, a)
    ensures var s', e := Step(s, a).state, Step(s, a).event;
            s'.delivered == s.delivered && !(e.DequeueReturns? && e.value.Some?)
            && s'.enqueued == s.enqueued + (if Publishes(s, a) then [s.producer.elem] else [])
            && s.claims <= s'.claims
  {
  }

  lemma TakingStep<T>(s: State<T>, tid: nat, t: nat)
    requires Inv(s) && ThreadOf(s, tid) == Exchange(t)
    ensures t < s.end && t < s.head && t !in s.delivered && s.claims[t] == tid
    ensures var step := Step(s, StepConsumer(tid));
            && step.event == DequeueReturns(tid, Some(s.enqueued[t])) && step.state.enqueued == s.enqueued
            && step.state.claims == s.claims && step.state.delivered == s.delivered[t := Some(s.enqueued[t])]
  {
    assert TicketOf(s.consumers[tid]) == Some(t);
    OwnElement(s, t);
  }

  /** A call that returns an element yields the element of a ticket that its thread had
      claimed and that nobody had been given before; no step rewrites the past. */
  lemma StepExtendsPast<T>(s: State<T>, a: Action<T>)
    requires Inv(s)
    ensures var s', e := Step(s, a).state, Step(s, a).event;
            && s.enqueued <= s'.enqueued && s.claims <= s'.claims
            && (if e.DequeueReturns? && e.value.Some? then
                  exists t: nat :: t < s.end && t < s.head && t !in s.delivered && s.claims[t] == e.tid
                    && e.value == Some(s.enqueued[t]) && s'.delivered == s.delivered[t := e.value]
                else s'.delivered == s.delivered)
  {
    if Takes(s, a) {
      TakingStep(s, a.tid, s.consumers[a.tid].ticket);
    } else {
      QuietStep(s, a);
    }
  }

  /** No element is handed out as NULL: a dequeue returns nothing exactly where a try gives up,
      after its last attempt or at a head that was not below the end it had loaded; then every
      ticket below that end is claimed. */
  lemma DequeueReturnsNothing<T>(s: State<T>, a: Action<T>, tid: nat)
    requires Inv(s)
    ensures Step(s, a).event == DequeueReturns(tid, None) <==>
              && a == StepConsumer(tid) && ThreadOf(s, tid).TryClaim?
              && (ThreadOf(s, tid).attempts >= 5 || ThreadOf(s, tid).head >= ThreadOf(s, tid).end)
    ensures ThreadOf(s, tid).TryClaim? && ThreadOf(s, tid).head >= ThreadOf(s, tid).end ==>
              ThreadOf(s, tid).end <= |s.claims|
  {
    if a.StepConsumer? && ThreadOf(s, a.tid).Exchange? {
      TakingStep(s, a.tid, ThreadOf(s, a.tid).ticket);
    }
    if ThreadOf(s, tid).TryClaim? {
      LoadedBounds(s, tid);
    }
  }

  // ----- What calls do when nobody interferes

  /** A try_dequeue that runs alone takes the oldest element, and returns nothing exactly if
      there is none that is not spoken for. */
  lemma TryDequeueAlone<T>(s: State<T>, tid: nat)
    requires Inv(s) && ThreadOf(s, tid).Idle?
    ensures var go: Action<T> := StepConsumer(tid);
            var s1 := NextState(NextState(NextState(s, StartTryDequeue(tid)), go), go);
            if s.head < s.end then
              && Step(s1, go).event == Silent && Step(s1, go).state.claims == s.claims + [tid]
              && Step(NextState(s1, go), go).event == DequeueReturns(tid, Some(s.enqueued[s.head]))
            else
              Step(s1, go) == To(Move(s1, tid, Idle), DequeueReturns(tid, None)) && s1.head == s.head
  {
    var s1 := Move(s, tid, TryClaim(s.end, s.head, 0));
    TryLoads(s, tid);
    if s.head < s.end {
      ClaimThenTake(s, s1, tid);
    }
  }

  lemma TryLoads<T>(s: State<T>, tid: nat)
    requires |s.slots| == s.mask + 1 && ThreadOf(s, tid).Idle?
    ensures var go: Action<T> := StepConsumer(tid);
            var s1 := Move(s, tid, TryClaim(s.end, s.head, 0));
            && NextState(NextState(NextState(s, StartTryDequeue(tid)), go), go) == s1
            && Step(s1, go) == if s.head < s.end then To(Claim(s1, tid, Exchange(s.head)), Silent)
                               else To(Move(s1, tid, Idle), DequeueReturns(tid, None))
  {
    var go: Action<T> := StepConsumer(tid);
    var t0 := NextState(s, StartTryDequeue(tid));
    assert t0 == Move(s, tid, TryLoadEnd);
    var t1 := NextState(t0, go);
    assert t1 == Move(s, tid, TryLoadHead(s.end));
  }

  lemma ClaimThenTake<T>(s: State<T>, s1: State<T>, tid: nat)
    requires Inv(s) && ThreadOf(s, tid).Idle? && s.head < s.end && s1 == Move(s, tid, TryClaim(s.end, s.head, 0))
    ensures var s2 := Claim(s1, tid, Exchange(s.head));
            && |s2.slots| == s2.mask + 1
            && Step(s2, StepConsumer(tid)).event == DequeueReturns(tid, Some(s.enqueued[s.head]))
  {
    var s2 := Claim(s1, tid, Exchange(s.head));
    assert s2 == Claim(s, tid, Exchange(s.head));
    ClaimKeepsInv(s, tid, Exchange(s.head));
    TakingStep(s2, tid, s.head);
  }

  /** A dequeue that runs alone takes the oldest element; with none left it takes a ticket and
      waits. */
  lemma DequeueAlone<T>(s: State<T>, tid: nat)
    requires Inv(s) && ThreadOf(s, tid).Idle?
    ensures var go: Action<T> := StepConsumer(tid);
            var s1 := NextState(NextState(s, StartDequeue(tid)), go);
            && s1.claims == s.claims + [tid] && ThreadOf(s1, tid) == AwaitEnd(s.head)
            && (if s.head < s.end then
                  && Step(s1, go).event == Silent
                  && Step(NextState(s1, go), go).event == DequeueReturns(tid, Some(s.enqueued[s.head]))
                else Step(s1, go) == To(s1, Silent))
  {
    var go: Action<T> := StepConsumer(tid);
    var s1 := Claim(s, tid, AwaitEnd(s.head));
    assert NextState(s, StartDequeue(tid)) == Move(s, tid, AddHead);
    assert NextState(Move(s, tid, AddHead), go) == s1;
    if s.head < s.end {
      WaitThenTake(s, s1, tid);
    }
  }

  lemma WaitThenTake<T>(s: State<T>, s1: State<T>, tid: nat)
    requires Inv(s) && ThreadOf(s, tid).Idle? && s.head < s.end && s1 == Claim(s, tid, AwaitEnd(s.head))
    ensures var s2 := Move(s1, tid, Exchange(s.head));
            && |s2.slots| == s2.mask + 1
            && Step(s2, StepConsumer(tid)).event == DequeueReturns(tid, Some(s.enqueued[s.head]))
  {
    var s2 := Move(s1, tid, Exchange(s.head));
    ClaimKeepsInv(s, tid, AwaitEnd(s.head));
    MoveKeepsInv(s1, tid, Exchange(s.head));
    TakingStep(s2, tid, s.head);
  }

  /** A failed exchange loads the current head, so the next attempt claims its ticket if nobody
      else does before. */
  lemma FailedClaimReloads<T>(s: State<T>, tid: nat)
    requires |s.slots| == s.mask + 1 && ThreadOf(s, tid).TryClaim?
    requires var c := ThreadOf(s, tid); c.attempts < 5 && c.head < c.end && c.head != s.head
    ensures var c, go: Action<T> := ThreadOf(s, tid), StepConsumer(tid);
            && Step(s, go) == To(Move(s, tid, TryClaim(c.end, s.head, c.attempts + 1)), Silent)
            && (c.attempts + 1 < 5 && s.head < c.end ==>
                  && Step(NextState(s, go), go).state.claims == s.claims + [tid]
                  && ThreadOf(Step(NextState(s, go), go).state, tid) == Exchange(s.head))
  {
  }

  /** The next ticket can be published: the capacity check and the slot check both pass. */
  predicate HasRoom<T>(s: State<T>) {
    s.end < s.head + |s.slots| && (s.end < |s.slots| || s.end - |s.slots| in s.delivered)
  }

  /** An enqueue of either kind that runs alone publishes its element if there is room. If not,
      the try returns false and the other one waits where it is. */
  lemma EnqueueAlone<T>(s: State<T>, x: T, blocking: bool)
    requires Inv(s) && s.producer.Resting?
    ensures var go: Action<T> := StepProducer;
            var s1 := NextState(NextState(s, if blocking then StartEnqueue(x) else StartTryEnqueue(x)), go);
            var s2 := NextState(s1, go);
            if HasRoom(s) then
              var last := NextState(NextState(s2, go), go);
              && Step(s1, go).event == Step(s2, go).event == Step(NextState(s2, go), go).event == Silent
              && Step(last, go).event == EnqueueReturns(true)
              && Step(last, go).state == s.(slots := s.slots[Index(s, s.end) := Some(x)], end := s.end + 1,
                                            enqueued := s.enqueued + [x])
            else if s.end >= s.head + |s.slots| then
              Step(s1, go) == if blocking then To(s1, Silent) else To(s, EnqueueReturns(false))
            else
              Step(s2, go) == if blocking then To(s2, Silent) else To(s, EnqueueReturns(false))
  {
    SlotFreeExactly(s);
    EnqueueSteps(s, x, blocking, HasRoom(s));
  }

  lemma EnqueueSteps<T>(s: State<T>, x: T, blocking: bool, room: bool)
    requires |s.slots| == s.mask + 1 && s.producer.Resting?
    requires room <==> s.end < s.head + |s.slots| && s.slots[Index(s, s.end)] == None
    ensures var go: Action<T> := StepProducer;
            var s1 := NextState(NextState(s, if blocking then StartEnqueue(x) else StartTryEnqueue(x)), go);
            var s2 := NextState(s1, go);
            if room then
              var last := NextState(NextState(s2, go), go);
              && Step(s1, go).event == Step(s2, go).event == Step(NextState(s2, go), go).event == Silent
              && Step(last, go).event == EnqueueReturns(true)
              && Step(last, go).state == s.(slots := s.slots[Index(s, s.end) := Some(x)], end := s.end + 1,
                                            enqueued := s.enqueued + [x])
            else if s.end >= s.head + |s.slots| then
              Step(s1, go) == if blocking then To(s1, Silent) else To(s, EnqueueReturns(false))
            else
              Step(s2, go) == if blocking then To(s2, Silent) else To(s, EnqueueReturns(false))
  {
    var go: Action<T> := StepProducer;
    var s1 := s.(producer := LoadHead(x, blocking, s.end));
    assert s1 == NextState(NextState(s, if blocking then StartEnqueue(x) else StartTryEnqueue(x)), go);
    if s.end < s.head + |s.slots| {
      var s2 := s.(producer := LoadSlot(x, blocking, s.end));
      assert s2 == NextState(s1, go);
      if room {
        var s3 := s.(producer := StoreSlot(x, blocking, s.end));
        assert s3 == NextState(s2, go);
      }
    }
  }

  lemma SlotFreeExactly<T>(s: State<T>)
    requires Inv(s) && s.producer.Resting?
    ensures s.slots[Index(s, s.end)] == None <==> s.end < |s.slots| || s.end - |s.slots| in s.delivered
  {
    IndexIsSlot(s, s.end);
    SlotsRepeat(s.end, |s.slots|);
    assert s.slots[SlotOf(s.end - |s.slots|, |s.slots|)] == Content(s, s.end - |s.slots|);
  }

  // ----- What enqueue calls report

  /** A call reports true exactly where it publishes, and only a try reports false. A blocking
      call that finds no room stays where it is. */
  lemma EnqueueReports<T>(s: State<T>)
    requires Inv(s)
    ensures ProducerStep(s).event == EnqueueReturns(true) <==> s.producer.AddEnd?
    ensures ProducerStep(s).event == EnqueueReturns(false) ==> !s.producer.Resting? && !s.producer.blocking
    ensures s.producer.LoadHead? && s.producer.blocking && s.end >= s.head + |s.slots| ==>
              ProducerStep(s) == To(s, Silent)
    ensures s.producer.LoadSlot? && s.producer.blocking && s.end >= |s.slots| && s.end - |s.slots| !in s.delivered ==>
              ProducerStep(s) == To(s, Silent)
  {
    IndexIsSlot(s, s.end);
    SlotsRepeat(s.end, |s.slots|);
    if s.producer.LoadSlot? {
      assert s.slots[SlotOf(s.end - |s.slots|, |s.slots|)] == Content(s, s.end - |s.slots|);
    }
  }

  /** The argument of the enqueue call under way, given that of the one before. */
  function CallAfter<T>(s: State<T>, call: Option<T>, a: Action<T>): Option<T> {
    if s.producer.Resting? && (a.StartTryEnqueue? || a.StartEnqueue?) then Some(a.elem) else call
  }

  /** The arguments of the enqueue calls that report success during a run, in order. */
  ghost function Accepted<T>(s: State<T>, call: Option<T>, actions: seq<Action<T>>): seq<Option<T>>
    requires Inv(s)
    decreases |actions|
  {
    if actions == [] then []
    else
      StepKeepsInv(s, actions[0]);
      var step, now := Step(s, actions[0]), CallAfter(s, call, actions[0]);
      (if step.event == EnqueueReturns(true) then [now] else []) + Accepted(step.state, now, actions[1..])
  }

  function Wrapped<T>(elems: seq<T>): seq<Option<T>> {
    seq(|elems|, i requires 0 <= i < |elems| => Some(elems[i]))
  }

  lemma StepAccepts<T>(s: State<T>, call: Option<T>, a: Action<T>)
    requires |s.slots| == s.mask + 1 && (!s.producer.Resting? ==> call == Some(s.producer.elem))
    ensures var step, now := Step(s, a), CallAfter(s, call, a);
            && (!step.state.producer.Resting? ==> now == Some(step.state.producer.elem))
            && Wrapped(step.state.enqueued) ==
               Wrapped(s.enqueued) + if step.event == EnqueueReturns(true) then [now] else []
  {
  }

  lemma {:induction false} AcceptedFrom<T>(s: State<T>, call: Option<T>, actions: seq<Action<T>>)
    requires Inv(s) && (!s.producer.Resting? ==> call == Some(s.producer.elem))
    ensures Wrapped(Run(s, actions).enqueued) == Wrapped(s.enqueued) + Accepted(s, call, actions)
    decreases |actions|
  {
    if actions == [] {
    } else {
      var now := CallAfter(s, call, actions[0]);
      StepKeepsInv(s, actions[0]);
      StepAccepts(s, call, actions[0]);
      var step := Step(s, actions[0]);
      var out := if step.event == EnqueueReturns(true) then [now] else [];
      AcceptedFrom(step.state, now, actions[1..]);
      var later := Accepted(step.state, now, actions[1..]);
      AppendTwice(Wrapped(s.enqueued), out, later, Wrapped(step.state.enqueued), Wrapped(Run(s, actions).enqueued));
      assert Accepted(s, call, actions) == out + later;
    }
  }

  lemma AppendTwice<A>(first: seq<A>, out: seq<A>, later: seq<A>, middle: seq<A>, all: seq<A>)
    requires middle == first + out && all == middle + later
    ensures all == first + (out + later)
  {
  }

  /** Over every run the elements published are those passed to the enqueue calls that reported
      success, in the order of the calls. */
  lemma AcceptedIsEnqueued<T>(order: nat, actions: seq<Action<T>>)
    ensures var s := InitialState<T>(order);
            Wrapped(Run(s, actions).enqueued) == Accepted(s, None, actions)
  {
    AcceptedFrom(InitialState<T>(order), None, actions);
  }

  /** In every interleaving: a ticket has one claimant, no two threads hold the same ticket,
      and each claimed ticket t yields exactly the t-th enqueued element. */
  lemma TicketSafety<T>(order: nat, actions: seq<Action<T>>)
    ensures var s := Run(InitialState<T>(order), actions);
            && |s.claims| == s.head && |s.enqueued| == s.end
            && (forall t | t in s.delivered :: t < s.end && s.delivered[t] == Some(s.enqueued[t]))
            && (forall a, b | a in s.consumers && b in s.consumers && a != b && TicketOf(s.consumers[a]).Some? ::
                  TicketOf(s.consumers[a]) != TicketOf(s.consumers[b]))
            && (forall t: nat | t < s.head ::
                  (t in s.delivered) != (TicketOf(ThreadOf(s, s.claims[t])) == Some(t)))
  {
  }

  // ----- Every consumer gets elements in the order they were enqueued

  /** A ticket that a thread holds is the latest one it has claimed. */
  ghost predicate HoldsLatest<T>(s: State<T>) {
    forall u: nat | u < |s.claims| && TicketOf(ThreadOf(s, s.claims[u])).Some? ::
      u <= TicketOf(ThreadOf(s, s.claims[u])).value
  }

  /** A step that claims nothing and gives no thread another ticket. */
  lemma NoClaimKeepsLatest<T>(s: State<T>, s': State<T>)
    requires HoldsLatest(s) && s'.claims == s.claims
    requires forall tid :: TicketOf(ThreadOf(s', tid)) in {None, TicketOf(ThreadOf(s, tid))}
    ensures HoldsLatest(s')
  {
  }

  lemma ClaimKeepsLatest<T>(s: State<T>, tid: nat, next: Consumer)
    requires |s.claims| == s.head && HoldsLatest(s) && TicketOf(next) == Some(s.head)
    ensures HoldsLatest(Claim(s, tid, next))
  {
    var s' := Claim(s, tid, next);
    forall u: nat | u < |s'.claims| && TicketOf(ThreadOf(s', s'.claims[u])).Some?
      ensures u <= TicketOf(ThreadOf(s', s'.claims[u])).value
    {
      assert u < s.head ==> s'.claims[u] == s.claims[u];
    }
  }

  lemma StepKeepsLatest<T>(s: State<T>, a: Action<T>)
    requires |s.slots| == s.mask + 1 && |s.claims| == s.head && HoldsLatest(s)
    ensures HoldsLatest(Step(s, a).state)
  {
    if a.StepConsumer? && ThreadOf(s, a.tid).AddHead? {
      ClaimKeepsLatest(s, a.tid, AwaitEnd(s.head));
    } else if Claims(s, a) {
      ClaimKeepsLatest(s, a.tid, Exchange(s.head));
    } else {
      NoClaimKeepsLatest(s, Step(s, a).state);
    }
  }

  predicate Claims<T>(s: State<T>, a: Action<T>) {
    a.StepConsumer? &&
    match ThreadOf(s, a.tid)
    case AddHead => true
    case TryClaim(end, head, attempts) => attempts < MAX_ATTEMPTS && head < end && head == s.head
    case _ => false
  }

  lemma {:induction false} RunKeepsLatest<T>(s: State<T>, actions: seq<Action<T>>)
    requires Inv(s) && HoldsLatest(s)
    ensures HoldsLatest(Run(s, actions))
    decreases |actions|
  {
    if actions == [] {
    } else {
      StepKeepsInv(s, actions[0]);
      StepKeepsLatest(s, actions[0]);
      RunKeepsLatest(Step(s, actions[0]).state, actions[1..]);
    }
  }

  /** At any point of any run, the element a thread is given was enqueued after all those it has
      been given before. */
  lemma ConsumerOrder<T>(order: nat, actions: seq<Action<T>>, tid: nat, x: T)
    requires var s := Run(InitialState<T>(order), actions);
             Step(s, StepConsumer(tid)).event == DequeueReturns(tid, Some(x))
    ensures var s := Run(InitialState<T>(order), actions);
            var t := s.consumers[tid].ticket;
            && ThreadOf(s, tid) == Exchange(t) && t < s.end && x == s.enqueued[t]
            && forall u: nat | u in s.delivered && u < |s.claims| && s.claims[u] == tid :: u < t
  {
    var s0 := InitialState<T>(order);
    var s := Run(s0, actions);
    RunKeepsLatest(s0, actions);
    var t := s.consumers[tid].ticket;
    TakingStep(s, tid, t);
  }

  // ----- Elements are neither lost nor duplicated

  /** The elements that dequeue calls return during a run. */
  ghost function Returned<T>(s: State<T>, actions: seq<Action<T>>): multiset<T>
    requires Inv(s)
    decreases |actions|
  {
    if actions == [] then multiset{}
    else
      StepKeepsInv(s, actions[0]);
      var step := Step(s, actions[0]);
      (if step.event.DequeueReturns? && step.event.value.Some? then multiset{step.event.value.value} else multiset{})
      + Returned(step.state, actions[1..])
  }

  /** The elements of the given tickets. */
  ghost function Yield<T>(elems: seq<T>, tickets: set<nat>): multiset<T> {
    if elems == [] then multiset{}
    else
      var last := |elems| - 1;
      Yield(elems[..last], tickets) + if last in tickets then multiset{elems[last]} else multiset{}
  }

  lemma {:induction false} YieldAdd<T>(elems: seq<T>, tickets: set<nat>, t: nat)
    requires t < |elems| && t !in tickets
    ensures Yield(elems, tickets + {t}) == Yield(elems, tickets) + multiset{elems[t]}
  {
    var last := |elems| - 1;
    var rest := elems[..last];
    if t < last {
      YieldAdd(rest, tickets, t);
      assert rest[t] == elems[t] && (last in tickets + {t} <==> last in tickets);
    } else {
      YieldOutside(rest, tickets, t);
    }
  }

  lemma YieldAppend<T>(elems: seq<T>, x: T, tickets: set<nat>)
    requires |elems| !in tickets
    ensures Yield(elems + [x], tickets) == Yield(elems, tickets)
  {
    assert (elems + [x])[..|elems|] == elems;
  }

  lemma {:induction false} YieldOutside<T>(elems: seq<T>, tickets: set<nat>, t: nat)
    requires |elems| <= t
    ensures Yield(elems, tickets + {t}) == Yield(elems, tickets)
  {
    if elems == [] {
    } else {
      YieldOutside(elems[..|elems| - 1], tickets, t);
    }
  }

  lemma {:induction false} YieldPart<T>(elems: seq<T>, tickets: set<nat>)
    ensures Yield(elems, tickets) <= multiset(elems)
    ensures (forall t: nat | t < |elems| :: t in tickets) ==> Yield(elems, tickets) == multiset(elems)
  {
    if elems == [] {
    } else {
      var last := |elems| - 1;
      YieldPart(elems[..last], tickets);
      assert elems == elems[..last] + [elems[last]];
    }
  }

  lemma TakingYield<T>(elems: seq<T>, delivered: map<nat, Option<T>>, t: nat)
    requires t < |elems| && t !in delivered
    ensures Yield(elems, delivered[t := Some(elems[t])].Keys) == Yield(elems, delivered.Keys) + multiset{elems[t]}
  {
    assert delivered[t := Some(elems[t])].Keys == delivered.Keys + {t};
    YieldAdd(elems, delivered.Keys, t);
  }

  lemma QuietYield<T>(s: State<T>, a: Action<T>)
    requires |s.slots| == s.mask + 1 && !Takes(s, a) && |s.enqueued| !in s.delivered
    ensures var s', e := Step(s, a).state, Step(s, a).event;
            && Yield(s'.enqueued, s'.delivered.Keys) == Yield(s.enqueued, s.delivered.Keys)
            && !(e.DequeueReturns? && e.value.Some?)
  {
    QuietStep(s, a);
    if Publishes(s, a) {
      YieldAppend(s.enqueued, s.producer.elem, s.delivered.Keys);
    }
  }

  lemma StepYield<T>(s: State<T>, a: Action<T>)
    requires Inv(s)
    ensures var s', e := Step(s, a).state, Step(s, a).event;
            Yield(s'.enqueued, s'.delivered.Keys) ==
            Yield(s.enqueued, s.delivered.Keys)
            + if e.DequeueReturns? && e.value.Some? then multiset{e.value.value} else multiset{}
  {
    if Takes(s, a) {
      var t := s.consumers[a.tid].ticket;
      TakingStep(s, a.tid, t);
      TakingYield(s.enqueued, s.delivered, t);
    } else {
      QuietYield(s, a);
    }
  }

  lemma {:induction false} ReturnedIsYield<T>(s: State<T>, actions: seq<Action<T>>)
    requires Inv(s)
    ensures var s' := Run(s, actions);
            Yield(s'.enqueued, s'.delivered.Keys) == Yield(s.enqueued, s.delivered.Keys) + Returned(s, actions)
    decreases |actions|
  {
    if actions == [] {
    } else {
      StepKeepsInv(s, actions[0]);
      StepYield(s, actions[0]);
      ReturnedIsYield(Step(s, actions[0]).state, actions[1..]);
    }
  }

  /** Over every run the consumers get each enqueued element at most once, and all of them once
      every published ticket has been delivered. */
  lemma NoLossNoDuplication<T>(order: nat, actions: seq<Action<T>>)
    ensures var s := Run(InitialState<T>(order), actions);
            var got := Returned(InitialState<T>(order), actions);
            && got <= multiset(s.enqueued)
            && ((forall t: nat | t < s.end :: t in s.delivered) ==> got == multiset(s.enqueued))
  {
    var s := Run(InitialState<T>(order), actions);
    ReturnedIsYield(InitialState<T>(order), actions);
    YieldPart(s.enqueued, s.delivered.Keys);
  }

  // ----- Full, blocked and quiescent queues

  /** The slot check of an enqueue fails exactly while the element cap tickets ago is untaken;
      the capacity check fails exactly while that ticket is not even claimed. */
  lemma EnqueueFailsWhenFull<T>(s: State<T>)
    requires Inv(s)
    ensures s.producer.LoadSlot? && !s.producer.blocking ==>
              (ProducerStep(s).event == EnqueueReturns(false) <==>
               s.end >= |s.slots| && s.end - |s.slots| !in s.delivered)
    ensures s.producer.LoadHead? && !s.producer.blocking ==>
              (ProducerStep(s).event == EnqueueReturns(false) <==>
               s.end >= |s.slots| && s.head <= s.end - |s.slots|)
    ensures ProducerStep(s).event == EnqueueReturns(false) ==>
              s.end >= |s.slots| && s.end - |s.slots| !in s.delivered
  {
    if s.producer.LoadSlot? {
      IndexIsSlot(s, s.end);
      SlotsRepeat(s.end, |s.slots|);
      assert s.slots[SlotOf(s.end - |s.slots|, |s.slots|)] == Content(s, s.end - |s.slots|);
    }
  }

  /** The producer stores only into a slot whose last element has been taken, and leaves
      every published, untaken element in place. */
  lemma StoreOverwritesNothing<T>(s: State<T>, t: nat)
    requires Inv(s) && s.producer.StoreSlot? && t < s.end && t !in s.delivered
    ensures Index(s, t) != Index(s, s.end)
    ensures ProducerStep(s).state.slots[Index(s, t)] == Some(s.enqueued[t])
  {
    OwnElement(s, t);
    IndexIsSlot(s, s.end);
  }

  lemma {:induction false} RunCompose<T>(s: State<T>, first: seq<Action<T>>, rest: seq<Action<T>>)
    requires Inv(s)
    ensures Run(s, first + rest) == Run(Run(s, first), rest)
    decreases |first|
  {
    if first == [] {
      assert first + rest == rest;
    } else {
      StepKeepsInv(s, first[0]);
      assert (first + rest)[1..] == first[1..] + rest;
      RunCompose(Step(s, first[0]).state, first[1..], rest);
    }
  }

  function ThreeSteps<T>(s: State<T>, a: Action<T>, b: Action<T>, c: Action<T>): (t: State<T>)
    requires |s.slots| == s.mask + 1
    ensures |t.slots| == t.mask + 1
  {
    var s1 := NextState(s, a);
    var s2 := NextState(s1, b);
    NextState(s2, c)
  }

  function NextState<T>(s: State<T>, a: Action<T>): (t: State<T>)
    requires |s.slots| == s.mask + 1
    ensures |t.slots| == t.mask + 1
  {
    Step(s, a).state
  }

  lemma RunThree<T>(s: State<T>, past: seq<Action<T>>, a: Action<T>, b: Action<T>, c: Action<T>)
    requires Inv(s)
    ensures Run(s, past + [a, b, c]) == ThreeSteps(Run(s, past), a, b, c)
  {
    RunCompose(s, past, [a, b, c]);
    var s0 := Run(s, past);
    StepKeepsInv(s0, a);
    var s1 := Step(s0, a).state;
    StepKeepsInv(s1, b);
    var s2 := Step(s1, b).state;
    assert [a, b, c][1..] == [b, c] && [b, c][1..] == [c] && [c][1..] == [];
    assert Run(s2, [c]) == Step(s2, c).state;
  }

  lemma TwoEnqueuesMeet<T>(s0: State<T>, x: T, y: T, tid: nat)
    requires s0 == InitialState<T>(0)
    ensures var s1 := ThreeSteps(s0, StartEnqueue(x), StepProducer, StepProducer);
            var s2 := ThreeSteps(s1, StepProducer, StepProducer, StepProducer);
            var s3 := ThreeSteps(s2, StartDequeue(tid), StepConsumer(tid), StartEnqueue(y));
            var s4 := ThreeSteps(s3, StepConsumer(tid), StepProducer, StepProducer);
            && s4.producer == LoadSlot(y, true, 1) && s4.head == 1
            && s4.slots == [Some(x)] && ThreadOf(s4, tid) == Exchange(0)
  {
    var s1 := ThreeSteps(s0, StartEnqueue(x), StepProducer, StepProducer);
    assert s1 == s0.(producer := LoadSlot(x, true, 0));
    var s2 := ThreeSteps(s1, StepProducer, StepProducer, StepProducer);
    assert s2 == s0.(slots := [Some(x)], end := 1, enqueued := [x]);
    var s3 := ThreeSteps(s2, StartDequeue(tid), StepConsumer(tid), StartEnqueue(y));
    assert s3.producer == LoadEnd(y, true) && s3.head == 1 && ThreadOf(s3, tid) == AwaitEnd(0);
  }

  /** The slot check is needed: in a ring of one slot, a consumer that has claimed its ticket
      but not yet emptied the slot lets the next enqueue past the capacity check. */
  lemma CapacityCheckIsNotEnough<T>(x: T, y: T, tid: nat) returns (actions: seq<Action<T>>)
    ensures var s := Run(InitialState<T>(0), actions);
            && s.producer == LoadSlot(y, true, 1) && s.head == 1
            && s.slots == [Some(x)] && ThreadOf(s, tid) == Exchange(0)
  {
    var s0 := InitialState<T>(0);
    RunThree(s0, [], StartEnqueue(x), StepProducer, StepProducer);
    actions := [] + [StartEnqueue(x), StepProducer, StepProducer];
    RunThree(s0, actions, StepProducer, StepProducer, StepProducer);
    actions := actions + [StepProducer, StepProducer, StepProducer];
    RunThree(s0, actions, StartDequeue(tid), StepConsumer(tid), StartEnqueue(y));
    actions := actions + [StartDequeue(tid), StepConsumer(tid), StartEnqueue(y)];
    RunThree(s0, actions, StepConsumer(tid), StepProducer, StepProducer);
    actions := actions + [StepConsumer(tid), StepProducer, StepProducer];
    TwoEnqueuesMeet(s0, x, y, tid);
  }

  /** Published elements that nobody has taken yet are in different slots. */
  lemma UntakenApart<T>(s: State<T>, t: nat, u: nat)
    requires Inv(s) && t < u < s.end && t !in s.delivered && u !in s.delivered
    ensures Index(s, t) != Index(s, u)
  {
    IndexIsSlot(s, t);
    IndexIsSlot(s, u);
    assert t >= s.end - |s.slots|;
    if Index(s, t) == Index(s, u) {
      SlotsApart(t, u, |s.slots|);
    }
  }

  ghost function Blocked<T>(s: State<T>): set<nat> {
    set tid | tid in s.consumers && s.consumers[tid].AwaitEnd? && s.consumers[tid].ticket >= s.end
  }

  lemma ClaimantWaits<T>(s: State<T>, t: nat)
    requires Inv(s) && s.end <= t < s.head
    ensures s.claims[t] in Blocked(s) && ThreadOf(s, s.claims[t]) == AwaitEnd(t)
  {
    assert TicketOf(s.consumers[s.claims[t]]) == Some(t);
  }

  lemma WaiterClaims<T>(s: State<T>, tid: nat)
    requires Inv(s) && tid in Blocked(s)
    ensures s.end <= s.consumers[tid].ticket < s.head && s.claims[s.consumers[tid].ticket] == tid
  {
    assert TicketOf(s.consumers[tid]) == Some(s.consumers[tid].ticket);
  }

  /** When consumers have overtaken the producer, exactly head - end of them wait, and they
      hold the tickets from end to head. */
  lemma BlockedConsumers<T>(s: State<T>)
    requires Inv(s) && s.head >= s.end
    ensures |Blocked(s)| == s.head - s.end
    ensures forall t: nat | s.end <= t < s.head :: ThreadOf(s, s.claims[t]) == AwaitEnd(t)
    ensures forall tid | tid in Blocked(s) ::
              s.end <= s.consumers[tid].ticket < s.head && s.claims[s.consumers[tid].ticket] == tid
  {
    var waiting := s.claims[s.end..];
    forall t: nat | s.end <= t < s.head
      ensures s.claims[t] in Blocked(s) && ThreadOf(s, s.claims[t]) == AwaitEnd(t)
    {
      ClaimantWaits(s, t);
    }
    forall tid | tid in Blocked(s)
      ensures s.end <= s.consumers[tid].ticket < s.head && s.claims[s.consumers[tid].ticket] == tid
    {
      WaiterClaims(s, tid);
    }
    BlockedAreWaiting(waiting, Blocked(s), s.consumers, s.end);
  }

  /** Threads that wait for consecutive tickets are as many as the tickets. */
  lemma BlockedAreWaiting(waiting: seq<nat>, blocked: set<nat>, consumers: map<nat, Consumer>, end: nat)
    requires forall i | 0 <= i < |waiting| ::
               waiting[i] in blocked && waiting[i] in consumers && consumers[waiting[i]] == AwaitEnd(end + i)
    requires forall tid | tid in blocked ::
               && tid in consumers && consumers[tid].AwaitEnd?
               && end <= consumers[tid].ticket < end + |waiting| && waiting[consumers[tid].ticket - end] == tid
    ensures |blocked| == |waiting|
  {
    DistinctCount(waiting);
    assert Elements(waiting) == blocked;
  }

  ghost predicate Quiescent<T>(s: State<T>) {
    s.head == s.end && s.producer.Resting? && forall tid | tid in s.consumers :: s.consumers[tid].Idle?
  }

  /** A queue with no operation under way and as many claims as elements is empty, and what
      was delivered, in ticket order, is what was enqueued. */
  lemma QuiescentIsEmpty<T>(s: State<T>)
    requires Inv(s) && Quiescent(s)
    ensures forall i | 0 <= i < |s.slots| :: s.slots[i] == None
    ensures forall t: nat | t < s.end :: t in s.delivered
    ensures s.delivered == map t: nat | t < s.end :: Some(s.enqueued[t])
  {
    assert forall t: nat | t < s.end :: t in s.delivered;
    forall i | 0 <= i < |s.slots| ensures s.slots[i] == None {
      var t := WindowCovers(s.end, |s.slots|, i);
      assert s.slots[SlotOf(t, |s.slots|)] == Content(s, t);
    }
  }
}
