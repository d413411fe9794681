/** Callers, the pending-request table and the fail-closed shutdown, over the ordered pipeline of
    module Transport. Any number of callers, the dispatcher and one shutdown interleave freely; each
    atomic access to shared state in the program is one step here. */
module Requests {
  import opened Wrappers
  import opened Transport

  /** What a one-shot reply slot can receive: the answer or the decode failure of the frame with this
      sequence, or the marker that the transport died. */
  datatype Reply = Answer(sequence: nat, body: string) | BadFrame(sequence: nat) | Dead

  datatype WireEvent = WireEvent(sequence: nat, name: string, params: string)

  /** The shared state one dispatched item can change. */
  datatype Desk = Desk(pending: set<int>, replies: map<int, Reply>, events: seq<WireEvent>)

  /** The request a dispatched item answers, and with what. */
  function Addressee(sequence: nat, item: OrderedItem): Option<(int, Reply)> {
    match item
    case Undecodable(Some(id)) => Some((id, BadFrame(sequence)))
    case Decoded(Response(id, body)) => Some((id, Answer(sequence, body)))
    case _ => None
  }

  function Announced(sequence: nat, item: OrderedItem): seq<WireEvent> {
    if item.Decoded? && item.message.Event? then [WireEvent(sequence, item.message.name, item.message.params)] else []
  }

  /** The events of a list of items whose first has sequence 0, in order. */
  function EventsOf(items: seq<OrderedItem>): seq<WireEvent> {
    if items == [] then []
    else EventsOf(items[..|items| - 1]) + Announced(|items| - 1, items[|items| - 1])
  }

  /** Dispatching one item as a single action: fill the addressee's slot if it is still pending, or
      broadcast the event; a late or unknown id is dropped. */
  function Dispatch(d: Desk, sequence: nat, item: OrderedItem): Desk {
    match Addressee(sequence, item)
    case Some((id, reply)) =>
      if id in d.pending then d.(pending := d.pending - {id}, replies := d.replies[id := reply]) else d
    case None => d.(events := d.events + Announced(sequence, item))
  }

  function DispatchAll(d: Desk, first: nat, items: seq<OrderedItem>): Desk {
    if items == [] then d
    else Dispatch(DispatchAll(d, first, items[..|items| - 1]), first + |items| - 1, items[|items| - 1])
  }

  // -- the machine ----------------------------------------------------------

  datatype Caller =
    | Numbered           // has an id, not yet in the table
    | Registered         // in the table, frame not yet queued
    | Waiting            // frame queued, awaiting its slot
    | TimedOut           // gave up, about to remove its entry
    | Rejected           // queueing failed, about to remove its entry
    | Left(result: CallResult)

  /** How a caller left. An abandoned one was dropped while it waited: it took nothing with it and cleaned nothing
      up. */
  datatype CallResult = Got(reply: Reply) | ConnectionClosed | Timeout | Abandoned

  /** Progress of the one effective shutdown. */
  datatype Shutdown = Live | FlagCleared | WriterTaken | Drained

  /** The request table, the reply slots and the shutdown state. */
  datatype Table = Table(
    shutdown: Shutdown,
    writerOpen: bool,            // the writer slot still holds the sender
    writerTaskUp: bool,          // the writer task still receives
    admitted: nat,               // callers past the liveness test without an id
    nextId: nat,
    callers: map<int, Caller>,
    pending: set<int>,
    hand: map<int, Reply>,       // senders taken from the table, reply not yet delivered
    slots: map<int, Reply>)      // filled reply slots, whether or not somebody is left to read them

  datatype Op =
    | Take(id: int, reply: Reply)  // the dispatcher removes the sender it is about to use
    | Deliver(id: int)             // whoever took a sender from the table completes its send
    | Admit | TakeId
    | Register(id: int) | Queue(id: int) | CleanUpRejected(id: int)
    | Receive(id: int) | GiveUp(id: int) | CleanUpTimedOut(id: int) | Abandon(id: int)
    | WriterTaskEnds
    | ClearFlag | TakeWriter | DrainPending

  predicate Is(t: Table, id: int, phase: Caller) { id in t.callers && t.callers[id] == phase }

  predicate Possible(t: Table, op: Op) {
    match op
    case Take(id, _) => id in t.pending
    case Deliver(id) => id in t.hand
    case Admit => t.shutdown == Live
    case TakeId => t.admitted > 0
    case Register(id) => Is(t, id, Numbered)
    case Queue(id) => Is(t, id, Registered)
    case CleanUpRejected(id) => Is(t, id, Rejected)
    case Receive(id) => Is(t, id, Waiting) && id in t.slots
    case GiveUp(id) => Is(t, id, Waiting) && id !in t.slots
    case CleanUpTimedOut(id) => Is(t, id, TimedOut)
    case Abandon(id) => Is(t, id, Waiting)
    case WriterTaskEnds => true
    case ClearFlag => t.shutdown == Live
    case TakeWriter => t.shutdown == FlagCleared
    case DrainPending => t.shutdown == WriterTaken
  }

  function Perform(t: Table, op: Op): Table
    requires Possible(t, op)
  {
    match op
    case Take(id, reply) => t.(pending := t.pending - {id}, hand := t.hand[id := reply])
    case Deliver(id) => t.(hand := t.hand - {id}, slots := t.slots[id := t.hand[id]])
    case Admit => t.(admitted := t.admitted + 1)
    case TakeId => t.(admitted := t.admitted - 1, nextId := t.nextId + 1, callers := t.callers[t.nextId := Numbered])
    case Register(id) => t.(callers := t.callers[id := Registered], pending := t.pending + {id})
    case Queue(id) => t.(callers := t.callers[id := if t.writerOpen && t.writerTaskUp then Waiting else Rejected])
    case CleanUpRejected(id) => t.(callers := t.callers[id := Left(ConnectionClosed)], pending := t.pending - {id})
    case Receive(id) => t.(callers := t.callers[id := Left(Got(t.slots[id]))])
    case GiveUp(id) => t.(callers := t.callers[id := TimedOut])
    case CleanUpTimedOut(id) => t.(callers := t.callers[id := Left(Timeout)], pending := t.pending - {id})
    case Abandon(id) => t.(callers := t.callers[id := Left(Abandoned)])
    case WriterTaskEnds => t.(writerTaskUp := false)
    case ClearFlag => t.(shutdown := FlagCleared)
    case TakeWriter => t.(shutdown := WriterTaken, writerOpen := false)
    case DrainPending =>
      t.(shutdown := Drained, pending := {}, hand := t.hand + (map id | id in t.pending :: Dead))
  }

  // -- invariants of the table ----------------------------------------------

  /** A sender is in the table, in someone's hand, or used up: never in two places. */
  ghost predicate OneOwner(t: Table) {
    && t.pending !! t.hand.Keys
    && t.pending !! t.slots.Keys
    && t.hand.Keys !! t.slots.Keys
  }

  ghost predicate SendersHaveCallers(t: Table) {
    && (forall id | id in t.callers :: id < t.nextId)
    && (forall id | id in t.pending :: id in t.callers && t.callers[id] != Numbered)
    && (forall id | id in t.pending :: t.callers[id].Left? ==> t.callers[id] == Left(Abandoned))
    && (forall id | id in t.hand :: id in t.callers && t.callers[id] != Numbered)
    && (forall id | id in t.slots :: id in t.callers && t.callers[id] != Numbered)
  }

  /** Every caller that waits, or was dropped while it did, has its sender somewhere. */
  ghost predicate WaitersAreServed(t: Table) {
    forall id | Is(t, id, Registered) || Is(t, id, Waiting) || Is(t, id, Left(Abandoned)) ::
      id in t.pending || id in t.hand || id in t.slots
  }

  /** The shutdown takes the writer before it empties the table, so nobody starts waiting afterwards, and nobody who
      has waited is left in it. */
  ghost predicate FailClosed(t: Table) {
    && (t.writerOpen <==> t.shutdown.Live? || t.shutdown.FlagCleared?)
    && (t.shutdown == Drained ==> forall id | id in t.pending :: !Is(t, id, Waiting) && !Is(t, id, Left(Abandoned)))
  }

  ghost predicate TableInv(t: Table) {
    OneOwner(t) && SendersHaveCallers(t) && WaitersAreServed(t) && FailClosed(t)
  }

  lemma OpKeepsOneOwner(t: Table, op: Op)
    requires OneOwner(t) && SendersHaveCallers(t) && Possible(t, op)
    ensures OneOwner(Perform(t, op))
  {
  }

  lemma OpKeepsSenders(t: Table, op: Op)
    requires SendersHaveCallers(t) && Possible(t, op)
    requires OneOwner(t)
    ensures SendersHaveCallers(Perform(t, op))
  {
  }

  lemma OpKeepsWaiters(t: Table, op: Op)
    requires TableInv(t) && Possible(t, op)
    ensures WaitersAreServed(Perform(t, op))
  {
    var u := Perform(t, op);
    forall id | Is(u, id, Registered) || Is(u, id, Waiting) || Is(u, id, Left(Abandoned))
      ensures id in u.pending || id in u.hand || id in u.slots
    {
      if op != Register(id) { assert Is(t, id, Registered) || Is(t, id, Waiting) || Is(t, id, Left(Abandoned)); }
    }
  }

  lemma OpKeepsFailClosed(t: Table, op: Op)
    requires TableInv(t) && Possible(t, op)
    ensures FailClosed(Perform(t, op))
  {
    var u := Perform(t, op);
    forall id | u.shutdown == Drained && id in u.pending
      ensures !Is(u, id, Waiting) && !Is(u, id, Left(Abandoned))
    {
      if op != Register(id) { assert id in t.pending && !Is(t, id, Waiting); }
    }
  }

  lemma OpKeepsTableInv(t: Table, op: Op)
    requires TableInv(t) && Possible(t, op)
    ensures TableInv(Perform(t, op))
  {
    OpKeepsOneOwner(t, op);
    OpKeepsSenders(t, op);
    OpKeepsWaiters(t, op);
    OpKeepsFailClosed(t, op);
  }

  // -- the whole system -----------------------------------------------------

  datatype System = System(
    pipe: Pipeline,
    cursor: nat,                 // released items whose dispatch has taken place
    events: seq<WireEvent>,
    table: Table)

  datatype Act = Pipe(step: Step) | DispatchNext | Other(op: Op)

  function Initial(): System {
    System(Transport.Start(), 0, [], Table(Live, true, true, 0, 1, map[], {}, map[], map[]))
  }

  function Log(s: System): seq<OrderedItem> { s.pipe.loop.core.log }

  predicate CanAct(s: System, act: Act) {
    match act
    case Pipe(step) => Enabled(s.pipe, step)
    case DispatchNext => s.cursor < |Log(s)|
    case Other(op) => !op.Take? && Possible(s.table, op)
  }

  /** The dispatcher's next dispatch: take the addressee's sender if it is still in the table, or
      broadcast; the send itself is a later Deliver. */
  function TakeFor(t: Table, addressee: Option<(int, Reply)>): Table {
    match addressee
    case Some((id, reply)) => if Possible(t, Take(id, reply)) then Perform(t, Take(id, reply)) else t
    case None => t
  }

  function Do(cfg: Config, s: System, act: Act): System
    requires CanAct(s, act)
  {
    match act
    case Pipe(step) => s.(pipe := Apply(cfg, s.pipe, step))
    case DispatchNext =>
      var item := Log(s)[s.cursor];
      s.(cursor := s.cursor + 1, events := s.events + Announced(s.cursor, item),
         table := TakeFor(s.table, Addressee(s.cursor, item)))
    case Other(op) => s.(table := Perform(s.table, op))
  }

  /** The state after a list of acts, or None when some act was not possible. */
  function Acts(cfg: Config, s: System, acts: seq<Act>): Option<System>
    decreases |acts|
  {
    if acts == [] then Some(s)
    else if !CanAct(s, acts[0]) then None
    else Acts(cfg, Do(cfg, s, acts[0]), acts[1..])
  }

  /** Reply `r` to request `id` was earned: the frame it names was dispatched and carries that id. */
  ghost predicate Earned(log: seq<OrderedItem>, shutdown: Shutdown, id: int, r: Reply) {
    match r
    case Dead => shutdown == Drained
    case Answer(n, body) => n < |log| && log[n] == Decoded(Response(id, body))
    case BadFrame(n) => n < |log| && log[n] == Undecodable(Some(id))
  }

  ghost predicate AllEarned(log: seq<OrderedItem>, shutdown: Shutdown, replies: map<int, Reply>) {
    forall id | id in replies :: Earned(log, shutdown, id, replies[id])
  }

  ghost predicate SysInv(cfg: Config, s: System) {
    && Transport.Inv(cfg, s.pipe) && TableInv(s.table)
    && s.cursor <= |Log(s)|
    && s.events == EventsOf(Log(s)[..s.cursor])
    && AllEarned(Log(s)[..s.cursor], s.table.shutdown, s.table.hand)
    && AllEarned(Log(s)[..s.cursor], s.table.shutdown, s.table.slots)
  }

  lemma {:induction false} DrainOnlyAppends(c: Core)
    ensures c.log <= Drain(c).log
    decreases |c.buffer|
  {
    if c.expected in c.buffer {
      Smaller(c.buffer, c.expected);
      DrainOnlyAppends(ReleaseOne(c));
    }
  }

  lemma TakingOnlyAppends(cfg: Config, p: Pipeline)
    requires Enabled(p, TakeInbound)
    ensures p.loop.core.log <= Apply(cfg, p, TakeInbound).loop.core.log
  {
    var f := p.inbound[0];
    var item := if f.Raw? then DecodeInline(f.frame) else Undecodable(f.idHint);
    DrainOnlyAppends(p.loop.core.(buffer := p.loop.core.buffer[f.sequence := item]));
  }

  lemma LogOnlyGrows(cfg: Config, p: Pipeline, step: Step)
    requires Enabled(p, step)
    ensures p.loop.core.log <= Apply(cfg, p, step).loop.core.log
  {
    match step
    case TakeInbound => TakingOnlyAppends(cfg, p);
    case Complete(s) =>
      DrainOnlyAppends(p.loop.core.(buffer := p.loop.core.buffer[s := DecodeOffloaded(p.inFlight[s].parsed)]));
    case Exit => DrainOnlyAppends(p.loop.core);
    case _ =>
  }

  lemma EarnedStays(log: seq<OrderedItem>, item: OrderedItem, shutdown: Shutdown, replies: map<int, Reply>)
    requires AllEarned(log, shutdown, replies)
    ensures AllEarned(log + [item], shutdown, replies)
  {
    forall id | id in replies
      ensures Earned(log + [item], shutdown, id, replies[id])
    {
      assert Earned(log, shutdown, id, replies[id]);
    }
  }

  lemma DispatchNextKeeps(cfg: Config, s: System)
    requires SysInv(cfg, s) && CanAct(s, DispatchNext)
    ensures SysInv(cfg, Do(cfg, s, DispatchNext))
  {
    var log, item := Log(s), Log(s)[s.cursor];
    assert log[..s.cursor + 1] == log[..s.cursor] + [item];
    EarnedStays(log[..s.cursor], item, s.table.shutdown, s.table.hand);
    EarnedStays(log[..s.cursor], item, s.table.shutdown, s.table.slots);
    TakeForKeeps(s.table, Addressee(s.cursor, item));
    TakeForIsEarned(log[..s.cursor + 1], s.table, s.cursor, item);
  }

  lemma TakeForKeeps(t: Table, addressee: Option<(int, Reply)>)
    requires TableInv(t)
    ensures TableInv(TakeFor(t, addressee))
  {
    match addressee
    case Some((id, reply)) => if id in t.pending { OpKeepsTableInv(t, Take(id, reply)); }
    case None =>
  }

  lemma TakeForIsEarned(log: seq<OrderedItem>, t: Table, n: nat, item: OrderedItem)
    requires n < |log| && log[n] == item && AllEarned(log, t.shutdown, t.hand)
    requires forall id, r | Addressee(n, item) == Some((id, r)) :: r != Dead && r.sequence == n
    ensures var u := TakeFor(t, Addressee(n, item));
      AllEarned(log, u.shutdown, u.hand) && u.slots == t.slots && u.shutdown == t.shutdown
  {
    var u := TakeFor(t, Addressee(n, item));
    forall id | id in u.hand
      ensures Earned(log, u.shutdown, id, u.hand[id])
    {
      if id in t.hand && u.hand[id] == t.hand[id] { assert Earned(log, t.shutdown, id, t.hand[id]); }
    }
  }

  lemma OtherKeeps(cfg: Config, s: System, op: Op)
    requires SysInv(cfg, s) && CanAct(s, Other(op))
    ensures SysInv(cfg, Do(cfg, s, Other(op)))
  {
    OpKeepsTableInv(s.table, op);
    var t := Perform(s.table, op);
    var log := Log(s)[..s.cursor];
    forall id | id in t.hand ensures Earned(log, t.shutdown, id, t.hand[id]) {
      if id in s.table.hand { assert Earned(log, s.table.shutdown, id, s.table.hand[id]); }
    }
    forall id | id in t.slots ensures Earned(log, t.shutdown, id, t.slots[id]) {
      if id in s.table.slots { assert Earned(log, s.table.shutdown, id, s.table.slots[id]); }
      else { assert Earned(log, s.table.shutdown, id, s.table.hand[id]); }
    }
  }

  lemma ActKeepsInv(cfg: Config, s: System, act: Act)
    requires SysInv(cfg, s) && CanAct(s, act)
    ensures SysInv(cfg, Do(cfg, s, act))
  {
    match act
    case Pipe(step) =>
      StepKeepsInv(cfg, s.pipe, step);
      LogOnlyGrows(cfg, s.pipe, step);
      assert Log(Do(cfg, s, act))[..s.cursor] == Log(s)[..s.cursor];
    case DispatchNext => DispatchNextKeeps(cfg, s);
    case Other(op) => OtherKeeps(cfg, s, op);
  }

  lemma {:induction false} ActsKeepInv(cfg: Config, s: System, acts: seq<Act>)
    requires SysInv(cfg, s) && Acts(cfg, s, acts).Some?
    ensures SysInv(cfg, Acts(cfg, s, acts).value)
    decreases |acts|
  {
    if acts != [] {
      ActKeepsInv(cfg, s, acts[0]);
      ActsKeepInv(cfg, Do(cfg, s, acts[0]), acts[1..]);
    }
  }

  lemma ReachableIsSound(cfg: Config, acts: seq<Act>, s: System)
    requires Acts(cfg, Initial(), acts) == Some(s)
    ensures SysInv(cfg, s)
  {
    var i := Initial();
    assert Transport.Inv(cfg, i.pipe) && TableInv(i.table);
    ActsKeepInv(cfg, i, acts);
  }

  lemma WaiterCanLeave(t: Table, id: int)
    requires TableInv(t) && t.shutdown == Drained && Is(t, id, Waiting)
    ensures id !in t.pending
    ensures Possible(t, Receive(id)) || (Possible(t, Deliver(id)) && Possible(Perform(t, Deliver(id)), Receive(id)))
  {
  }

  lemma {:induction false} FilledSlotStays(cfg: Config, s: System, acts: seq<Act>, t: System, id: int)
    requires SysInv(cfg, s) && Acts(cfg, s, acts) == Some(t) && id in s.table.slots
    ensures SysInv(cfg, t) && id in t.table.slots && t.table.slots[id] == s.table.slots[id]
    decreases |acts|
  {
    if acts != [] {
      ActKeepsInv(cfg, s, acts[0]);
      ActKeepsSlot(cfg, s, acts[0], id);
      FilledSlotStays(cfg, Do(cfg, s, acts[0]), acts[1..], t, id);
    }
  }

  lemma ActKeepsSlot(cfg: Config, s: System, act: Act, id: int)
    requires TableInv(s.table) && CanAct(s, act) && id in s.table.slots
    ensures var t := Do(cfg, s, act).table; id in t.slots && t.slots[id] == s.table.slots[id]
  {
    match act
    case Pipe(_) =>
    case DispatchNext =>
      var addressee := Addressee(s.cursor, Log(s)[s.cursor]);
      if addressee.Some? && Possible(s.table, Take(addressee.value.0, addressee.value.1)) {
        OpKeepsSlot(s.table, Take(addressee.value.0, addressee.value.1), id);
      }
    case Other(op) => OpKeepsSlot(s.table, op, id);
  }

  lemma OpKeepsSlot(t: Table, op: Op, id: int)
    requires OneOwner(t) && Possible(t, op) && id in t.slots
    ensures id in Perform(t, op).slots && Perform(t, op).slots[id] == t.slots[id]
  {
  }

  // -- the promises, over every interleaving ---------------------------------

  /** Once the shutdown has drained the table, no caller that queued its frame is still waiting in it:
      each has been answered or its answer is being delivered, so it can leave without any timeout. */
  lemma ShutdownLosesNobody(cfg: Config, acts: seq<Act>, s: System, id: int)
    requires Acts(cfg, Initial(), acts) == Some(s) && s.table.shutdown == Drained && Is(s.table, id, Waiting)
    ensures id !in s.table.pending
    ensures Possible(s.table, Receive(id))
        || (Possible(s.table, Deliver(id)) && Possible(Perform(s.table, Deliver(id)), Receive(id)))
  {
    ReachableIsSound(cfg, acts, s);
    WaiterCanLeave(s.table, id);
  }

  /** Each slot is filled at most once: a filled slot keeps its reply through everything that follows,
      and no sender for it exists any more. */
  lemma SlotsAreWrittenOnce(cfg: Config, before: seq<Act>, s: System, after: seq<Act>, t: System, id: int)
    requires Acts(cfg, Initial(), before) == Some(s) && Acts(cfg, s, after) == Some(t) && id in s.table.slots
    ensures id in t.table.slots && t.table.slots[id] == s.table.slots[id]
    ensures id !in t.table.pending && id !in t.table.hand
  {
    ReachableIsSound(cfg, before, s);
    FilledSlotStays(cfg, s, after, t, id);
  }

  /** Every reply a caller gets was earned: the frame it names was read at that position and is a response
      (or an undecodable frame) carrying the caller's own id; the death marker appears only once the
      shutdown has drained the table. Events are broadcast in wire order, none skipped. */
  lemma RepliesAndEventsFollowTheWire(cfg: Config, acts: seq<Act>, s: System)
    requires Acts(cfg, Initial(), acts) == Some(s)
    ensures s.cursor <= |s.pipe.wire| && s.events == EventsOf(ItemsOf(cfg, s.pipe.wire[..s.cursor]))
    ensures AllEarned(ItemsOf(cfg, s.pipe.wire[..s.cursor]), s.table.shutdown, s.table.slots)
  {
    ReachableIsSound(cfg, acts, s);
    assert Log(s)[..s.cursor] == ItemsOf(cfg, s.pipe.wire[..s.cursor]);
  }

  // -- what becomes of an item, in the item's own terms -------------------------------

  /** What a dispatch does: a response or an undecodable frame takes the sender of the request it names, if that is
      still in the table; an event is broadcast; nothing else changes. */
  lemma DispatchNextInPlainTerms(cfg: Config, s: System)
    requires CanAct(s, DispatchNext)
    ensures var n, was, now := s.cursor, s.table, Do(cfg, s, DispatchNext);
      now.pipe == s.pipe && now.cursor == n + 1
      && match Log(s)[n]
        case Decoded(Response(id, body)) =>
          && now.events == s.events
          && now.table == (if id in was.pending
              then was.(pending := was.pending - {id}, hand := was.hand[id := Answer(n, body)]) else was)
        case Undecodable(Some(id)) =>
          && now.events == s.events
          && now.table == (if id in was.pending
              then was.(pending := was.pending - {id}, hand := was.hand[id := BadFrame(n)]) else was)
        case Decoded(Event(name, params)) => now.events == s.events + [WireEvent(n, name, params)] && now.table == was
        case _ => now.events == s.events && now.table == was
  {
  }

  /** The same of a dispatch as one action. */
  lemma DispatchInPlainTerms(d: Desk, n: nat, item: OrderedItem)
    ensures Dispatch(d, n, item) == match item
      case Decoded(Response(id, body)) =>
        if id in d.pending then d.(pending := d.pending - {id}, replies := d.replies[id := Answer(n, body)]) else d
      case Undecodable(Some(id)) =>
        if id in d.pending then d.(pending := d.pending - {id}, replies := d.replies[id := BadFrame(n)]) else d
      case Decoded(Event(name, params)) => d.(events := d.events + [WireEvent(n, name, params)])
      case _ => d
  {
  }

  /** The sender of request `id` has left the table with this reply, and the reply is in hand or in the slot. */
  predicate OnItsWay(t: Table, id: int, r: Reply) {
    && id !in t.pending
    && ((id in t.hand && t.hand[id] == r) || (id in t.slots && t.slots[id] == r))
  }

  lemma OpKeepsOnItsWay(t: Table, op: Op, id: int, r: Reply)
    requires OneOwner(t) && SendersHaveCallers(t) && Possible(t, op) && OnItsWay(t, id, r)
    ensures OnItsWay(Perform(t, op), id, r)
  {
  }

  lemma ActKeepsOnItsWay(cfg: Config, s: System, act: Act, id: int, r: Reply)
    requires TableInv(s.table) && CanAct(s, act) && OnItsWay(s.table, id, r)
    ensures OnItsWay(Do(cfg, s, act).table, id, r)
  {
    match act
    case Pipe(_) =>
    case DispatchNext =>
      var addressee := Addressee(s.cursor, Log(s)[s.cursor]);
      if addressee.Some? && Possible(s.table, Take(addressee.value.0, addressee.value.1)) {
        OpKeepsOnItsWay(s.table, Take(addressee.value.0, addressee.value.1), id, r);
      }
    case Other(op) => OpKeepsOnItsWay(s.table, op, id, r);
  }

  lemma {:induction false} StaysOnItsWay(cfg: Config, s: System, acts: seq<Act>, t: System, id: int, r: Reply)
    requires TableInv(s.table) && Acts(cfg, s, acts) == Some(t) && OnItsWay(s.table, id, r)
    ensures OnItsWay(t.table, id, r)
    decreases |acts|
  {
    if acts != [] {
      ActKeepsTableInv(cfg, s, acts[0]);
      ActKeepsOnItsWay(cfg, s, acts[0], id, r);
      StaysOnItsWay(cfg, Do(cfg, s, acts[0]), acts[1..], t, id, r);
    }
  }

  /** The steps of the transport among these acts. */
  function PipeSteps(acts: seq<Act>): seq<Step> {
    if acts == [] then [] else (if acts[0].Pipe? then [acts[0].step] else []) + PipeSteps(acts[1..])
  }

  lemma {:induction false} TransportRuns(cfg: Config, s: System, acts: seq<Act>, t: System)
    requires Acts(cfg, s, acts) == Some(t)
    ensures Run(cfg, s.pipe, PipeSteps(acts)) == Some(t.pipe)
    decreases |acts|
  {
    if acts != [] {
      TransportRuns(cfg, Do(cfg, s, acts[0]), acts[1..], t);
      if acts[0].Pipe? {
        assert PipeSteps(acts)[1..] == PipeSteps(acts[1..]);
      } else {
        assert PipeSteps(acts) == PipeSteps(acts[1..]);
      }
    }
  }

  /** The data frames read in these acts, in order. */
  function FramesOf(acts: seq<Act>): seq<WireFrame> { FramesRead(PipeSteps(acts)) }

  /** The frame was neither oversized nor anything but text, and it parses as this message. */
  predicate Reads(cfg: Config, f: WireFrame, m: Message) {
    f.bytes <= cfg.maxBytes && f.utf8 && f.parsed == Some(m)
  }

  lemma LogReads(cfg: Config, acts: seq<Act>, s: System, i: nat, m: Message)
    requires Acts(cfg, Initial(), acts) == Some(s) && i < s.pipe.loop.core.expected
    ensures i < |Log(s)| == s.pipe.loop.core.expected <= |FramesOf(acts)|
    ensures Log(s)[i] == Decoded(m) <==> Reads(cfg, FramesOf(acts)[i], m)
  {
    TransportRuns(cfg, Initial(), acts, s);
    EveryFrameIsDispatchedAsItParses(cfg, PipeSteps(acts), s.pipe, i);
  }

  lemma LogIsComplete(cfg: Config, acts: seq<Act>, s: System)
    requires Acts(cfg, Initial(), acts) == Some(s)
    ensures |Log(s)| == s.pipe.loop.core.expected
  {
    TransportRuns(cfg, Initial(), acts, s);
    DispatchFollowsTheWire(cfg, PipeSteps(acts), s.pipe);
  }

  /** Every response finds its caller: when the turn of a frame comes that reads as a response to a request still in
      the table, the request leaves the table for good, with that response in hand or in its slot ever after. */
  lemma ResponsesReachTheirCallers(cfg: Config, before: seq<Act>, s: System, after: seq<Act>, t: System, id: int,
      body: string)
    requires Acts(cfg, Initial(), before) == Some(s) && CanAct(s, DispatchNext) && id in s.table.pending
    requires s.cursor < |FramesOf(before)| && Reads(cfg, FramesOf(before)[s.cursor], Response(id, body))
    requires Acts(cfg, Do(cfg, s, DispatchNext), after) == Some(t)
    ensures id !in t.table.pending
    ensures (id in t.table.hand && t.table.hand[id] == Answer(s.cursor, body))
         || (id in t.table.slots && t.table.slots[id] == Answer(s.cursor, body))
  {
    ReachableIsSound(cfg, before, s);
    LogIsComplete(cfg, before, s);
    LogReads(cfg, before, s, s.cursor, Response(id, body));
    DispatchNextInPlainTerms(cfg, s);
    ActKeepsTableInv(cfg, s, DispatchNext);
    StaysOnItsWay(cfg, Do(cfg, s, DispatchNext), after, t, id, Answer(s.cursor, body));
  }

  lemma {:induction false} EventsOfAreExactly(items: seq<OrderedItem>, e: WireEvent)
    ensures e in EventsOf(items) <==> e.sequence < |items| && items[e.sequence] == Decoded(Event(e.name, e.params))
  {
    if items != [] {
      EventsOfAreExactly(items[..|items| - 1], e);
    }
  }

  lemma {:induction false} EventsOfAscend(items: seq<OrderedItem>)
    ensures forall i, j | 0 <= i < j < |EventsOf(items)| :: EventsOf(items)[i].sequence < EventsOf(items)[j].sequence
  {
    if items != [] {
      var front := items[..|items| - 1];
      EventsOfAscend(front);
      forall i | 0 <= i < |EventsOf(front)| ensures EventsOf(front)[i].sequence < |front| {
        EventsOfAreExactly(front, EventsOf(front)[i]);
      }
    }
  }

  /** What has been broadcast is exactly what the frames dispatched so far read as events, each once, in the order
      they were read. */
  lemma EventsAreExactlyThoseRead(cfg: Config, acts: seq<Act>, s: System, e: WireEvent)
    requires Acts(cfg, Initial(), acts) == Some(s)
    ensures s.cursor <= |FramesOf(acts)|
    ensures e in s.events
      <==> e.sequence < s.cursor && Reads(cfg, FramesOf(acts)[e.sequence], Event(e.name, e.params))
    ensures forall i, j | 0 <= i < j < |s.events| :: s.events[i].sequence < s.events[j].sequence
  {
    ReachableIsSound(cfg, acts, s);
    LogIsComplete(cfg, acts, s);
    if s.cursor > 0 { LogReads(cfg, acts, s, s.cursor - 1, Neither); }
    EventsOfAreExactly(Log(s)[..s.cursor], e);
    EventsOfAscend(Log(s)[..s.cursor]);
    if e.sequence < s.cursor { LogReads(cfg, acts, s, e.sequence, Event(e.name, e.params)); }
  }

  // -- callers dropped while they wait ------------------------------------------------

  /** The act takes the sender of request `id`: it is the drain, or it dispatches a frame that carries the id. */
  predicate TakesSender(s: System, act: Act, id: int)
    requires CanAct(s, act)
  {
    || act == Other(DrainPending)
    || (act == DispatchNext && CarriesId(Log(s)[s.cursor], id))
  }

  /** The item is a response to request `id`, or a frame that could not be decoded but for that id. */
  predicate CarriesId(item: OrderedItem, id: int) {
    match item
    case Decoded(Response(i, _)) => i == id
    case Undecodable(Some(i)) => i == id
    case _ => false
  }

  /** Some act of these takes the sender. */
  predicate SenderTaken(cfg: Config, s: System, acts: seq<Act>, id: int)
    decreases |acts|
  {
    acts != [] && CanAct(s, acts[0])
    && (TakesSender(s, acts[0], id) || SenderTaken(cfg, Do(cfg, s, acts[0]), acts[1..], id))
  }

  /** The k-th act drops caller `id` while its sender is still in the table, and from there on nothing takes it. */
  predicate LeftBehindAt(cfg: Config, s: System, acts: seq<Act>, k: nat, id: int) {
    && k < |acts| && acts[k] == Other(Abandon(id))
    && var m := Acts(cfg, s, acts[..k]);
      m.Some? && id in m.value.table.pending && !SenderTaken(cfg, m.value, acts[k..], id)
  }

  lemma {:induction false} ActsSplit(cfg: Config, s: System, acts: seq<Act>, k: nat)
    requires Acts(cfg, s, acts).Some? && k <= |acts|
    ensures Acts(cfg, s, acts[..k]).Some?
    ensures Acts(cfg, Acts(cfg, s, acts[..k]).value, acts[k..]) == Acts(cfg, s, acts)
    decreases |acts|
  {
    if k == 0 {
      assert acts[..0] == [] && acts[0..] == acts;
    } else {
      ActsSplit(cfg, Do(cfg, s, acts[0]), acts[1..], k - 1);
      assert acts[..k][1..] == acts[1..][..k - 1] && acts[1..][k - 1..] == acts[k..];
    }
  }

  lemma OpKeepsAbandoned(t: Table, op: Op, id: int)
    requires Possible(t, op) && Is(t, id, Left(Abandoned)) && (forall i | i in t.callers :: i < t.nextId)
    ensures Is(Perform(t, op), id, Left(Abandoned))
    ensures id in Perform(t, op).pending
      <==> id in t.pending && op != DrainPending && !(op.Take? && op.id == id)
  {
  }

  lemma ActKeepsAbandoned(cfg: Config, s: System, act: Act, id: int)
    requires CanAct(s, act) && TableInv(s.table) && Is(s.table, id, Left(Abandoned))
    ensures Is(Do(cfg, s, act).table, id, Left(Abandoned))
    ensures id in Do(cfg, s, act).table.pending <==> id in s.table.pending && !TakesSender(s, act, id)
  {
    match act
    case Pipe(_) =>
    case DispatchNext =>
      var addressee := Addressee(s.cursor, Log(s)[s.cursor]);
      if addressee.Some? && Possible(s.table, Take(addressee.value.0, addressee.value.1)) {
        OpKeepsAbandoned(s.table, Take(addressee.value.0, addressee.value.1), id);
      }
    case Other(op) => OpKeepsAbandoned(s.table, op, id);
  }

  lemma {:induction false} AbandonedStays(cfg: Config, s: System, acts: seq<Act>, t: System, id: int)
    requires Acts(cfg, s, acts) == Some(t) && TableInv(s.table) && Is(s.table, id, Left(Abandoned))
    ensures Is(t.table, id, Left(Abandoned))
    ensures id in t.table.pending <==> id in s.table.pending && !SenderTaken(cfg, s, acts, id)
    decreases |acts|
  {
    if acts != [] {
      ActKeepsTableInv(cfg, s, acts[0]);
      ActKeepsAbandoned(cfg, s, acts[0], id);
      AbandonedStays(cfg, Do(cfg, s, acts[0]), acts[1..], t, id);
    }
  }

  lemma {:induction false} ActsKeepTableInv(cfg: Config, s: System, acts: seq<Act>)
    requires TableInv(s.table) && Acts(cfg, s, acts).Some?
    ensures TableInv(Acts(cfg, s, acts).value.table)
    decreases |acts|
  {
    if acts != [] {
      ActKeepsTableInv(cfg, s, acts[0]);
      ActsKeepTableInv(cfg, Do(cfg, s, acts[0]), acts[1..]);
    }
  }

  /** From the act that drops the caller on. */
  lemma DroppedThere(cfg: Config, s: System, acts: seq<Act>, t: System, k: nat, id: int) returns (m: System)
    requires TableInv(s.table) && Acts(cfg, s, acts) == Some(t)
    requires k < |acts| && acts[k] == Other(Abandon(id))
    ensures Acts(cfg, s, acts[..k]) == Some(m)
    ensures Is(t.table, id, Left(Abandoned))
    ensures id in t.table.pending <==> id in m.table.pending && !SenderTaken(cfg, m, acts[k..], id)
  {
    ActsSplit(cfg, s, acts, k);
    m := Acts(cfg, s, acts[..k]).value;
    ActsKeepTableInv(cfg, s, acts[..k]);
    assert acts[k..][0] == acts[k] && acts[k..][1..] == acts[k + 1..];
    ActKeepsTableInv(cfg, m, acts[k]);
    AbandonedStays(cfg, Do(cfg, m, acts[k]), acts[k + 1..], t, id);
  }

  lemma {:induction false} AbandonedSomewhere(cfg: Config, s: System, acts: seq<Act>, t: System, id: int)
    requires Acts(cfg, s, acts) == Some(t) && !Is(s.table, id, Left(Abandoned)) && Is(t.table, id, Left(Abandoned))
    ensures Other(Abandon(id)) in acts
    decreases |acts|
  {
    if acts[0] != Other(Abandon(id)) {
      OnlyAbandonAbandons(cfg, s, acts[0], id);
      AbandonedSomewhere(cfg, Do(cfg, s, acts[0]), acts[1..], t, id);
      assert acts == [acts[0]] + acts[1..];
    }
  }

  lemma OnlyAbandonAbandons(cfg: Config, s: System, act: Act, id: int)
    requires CanAct(s, act) && act != Other(Abandon(id)) && !Is(s.table, id, Left(Abandoned))
    ensures !Is(Do(cfg, s, act).table, id, Left(Abandoned))
  {
    match act
    case Pipe(_) =>
    case DispatchNext => assert Do(cfg, s, act).table.callers == s.table.callers;
    case Other(op) => OtherOpsAbandonNobody(s.table, op, id);
  }

  lemma OtherOpsAbandonNobody(t: Table, op: Op, id: int)
    requires Possible(t, op) && op != Abandon(id) && !Is(t, id, Left(Abandoned))
    ensures !Is(Perform(t, op), id, Left(Abandoned))
  {
  }

  lemma AbandonedExactlyWhen(cfg: Config, s: System, acts: seq<Act>, t: System, id: int)
    requires TableInv(s.table) && Acts(cfg, s, acts) == Some(t) && !Is(s.table, id, Left(Abandoned))
    ensures Is(t.table, id, Left(Abandoned)) <==> Other(Abandon(id)) in acts
  {
    if Other(Abandon(id)) in acts {
      var k: nat :| k < |acts| && acts[k] == Other(Abandon(id));
      var m := DroppedThere(cfg, s, acts, t, k, id);
    } else if Is(t.table, id, Left(Abandoned)) {
      AbandonedSomewhere(cfg, s, acts, t, id);
    }
  }

  /** A caller that has left is still in the table exactly when it was dropped with its sender there, and nothing took
      the sender since: no frame with its id was dispatched, and there was no drain. */
  lemma LeftBehindExactlyWhen(cfg: Config, acts: seq<Act>, t: System, id: int)
    requires Acts(cfg, Initial(), acts) == Some(t) && id in t.table.callers && t.table.callers[id].Left?
    ensures id in t.table.pending <==> exists k: nat :: LeftBehindAt(cfg, Initial(), acts, k, id)
  {
    var i := Initial();
    ReachableIsSound(cfg, acts, t);
    if id in t.table.pending {
      AbandonedSomewhere(cfg, i, acts, t, id);
      var k: nat :| k < |acts| && acts[k] == Other(Abandon(id));
      var m := DroppedThere(cfg, i, acts, t, k, id);
      assert LeftBehindAt(cfg, i, acts, k, id);
    }
    if k: nat :| LeftBehindAt(cfg, i, acts, k, id) {
      var m := DroppedThere(cfg, i, acts, t, k, id);
    }
  }

  /** Once all callers have left, the table is empty exactly when none was left behind; so it is when nobody was
      dropped, and when it has been drained. */
  lemma TableEmptiesExactlyWhen(cfg: Config, acts: seq<Act>, t: System)
    requires Acts(cfg, Initial(), acts) == Some(t)
    requires forall id | id in t.table.callers :: t.table.callers[id].Left?
    ensures t.table.pending == {} <==> !exists id, k: nat :: LeftBehindAt(cfg, Initial(), acts, k, id)
    ensures (forall id :: Other(Abandon(id)) !in acts) ==> t.table.pending == {}
    ensures t.table.shutdown == Drained ==> t.table.pending == {}
  {
    ReachableIsSound(cfg, acts, t);
    forall id, k: nat | LeftBehindAt(cfg, Initial(), acts, k, id)
      ensures id in t.table.pending
    {
      var m := DroppedThere(cfg, Initial(), acts, t, k, id);
      LeftBehindExactlyWhen(cfg, acts, t, id);
    }
    forall id | id in t.table.pending
      ensures exists k: nat :: LeftBehindAt(cfg, Initial(), acts, k, id)
    {
      LeftBehindExactlyWhen(cfg, acts, t, id);
    }
    assert t.table.pending == {} <==> forall id :: id !in t.table.pending;
  }

  // -- timeouts after the death of the transport ------------------------------------

  /** A caller that has queued its frame can give up exactly while its reply is undelivered: its sender is still in
      the table, or in the hand of whoever took it. Once the table has been drained only the latter is left. A caller
      whose slot is filled can only receive. */
  lemma CanGiveUpExactlyWhen(cfg: Config, acts: seq<Act>, s: System, id: int)
    requires Acts(cfg, Initial(), acts) == Some(s) && Is(s.table, id, Waiting)
    ensures Possible(s.table, GiveUp(id)) <==> id in s.table.pending || id in s.table.hand
    ensures Possible(s.table, GiveUp(id)) <==> !Possible(s.table, Receive(id))
    ensures s.table.shutdown == Drained ==> (Possible(s.table, GiveUp(id)) <==> id in s.table.hand)
  {
    ReachableIsSound(cfg, acts, s);
    WaiterGivesUpExactlyWhen(s.table, id);
  }

  lemma WaiterGivesUpExactlyWhen(t: Table, id: int)
    requires TableInv(t) && Is(t, id, Waiting)
    ensures Possible(t, GiveUp(id)) <==> id in t.pending || id in t.hand
    ensures Possible(t, GiveUp(id)) <==> !Possible(t, Receive(id))
    ensures t.shutdown == Drained ==> (Possible(t, GiveUp(id)) <==> id in t.hand)
  {
  }

  lemma ActKeepsTableInv(cfg: Config, s: System, act: Act)
    requires TableInv(s.table) && CanAct(s, act)
    ensures TableInv(Do(cfg, s, act).table)
  {
    match act
    case Pipe(_) =>
    case DispatchNext =>
      var addressee := Addressee(s.cursor, Log(s)[s.cursor]);
      if addressee.Some? && addressee.value.0 in s.table.pending {
        OpKeepsTableInv(s.table, Take(addressee.value.0, addressee.value.1));
      }
    case Other(op) => OpKeepsTableInv(s.table, op);
  }

  /** A waiting caller whose slot is filled leaves with that reply, is still there to, or was dropped. */
  ghost predicate LeavesWith(t: Table, id: int, r: Reply) {
    && id in t.callers && id in t.slots && t.slots[id] == r
    && t.callers[id] in {Waiting, Left(Got(r)), Left(Abandoned)}
  }

  lemma ActKeepsLeaving(cfg: Config, s: System, act: Act, id: int, r: Reply)
    requires TableInv(s.table) && CanAct(s, act) && LeavesWith(s.table, id, r)
    ensures LeavesWith(Do(cfg, s, act).table, id, r)
  {
    match act
    case Pipe(_) =>
    case DispatchNext => ActKeepsSlot(cfg, s, act, id);
    case Other(op) => OpKeepsLeaving(s.table, op, id, r);
  }

  lemma OpKeepsLeaving(t: Table, op: Op, id: int, r: Reply)
    requires TableInv(t) && Possible(t, op) && LeavesWith(t, id, r)
    ensures LeavesWith(Perform(t, op), id, r)
  {
    OpKeepsSlot(t, op, id);
  }

  lemma {:induction false} FilledSlotIsReceived(cfg: Config, s: System, acts: seq<Act>, t: System, id: int, r: Reply)
    requires TableInv(s.table) && Acts(cfg, s, acts) == Some(t) && LeavesWith(s.table, id, r)
    ensures LeavesWith(t.table, id, r)
    decreases |acts|
  {
    if acts != [] {
      ActKeepsTableInv(cfg, s, acts[0]);
      ActKeepsLeaving(cfg, s, acts[0], id, r);
      FilledSlotIsReceived(cfg, Do(cfg, s, acts[0]), acts[1..], t, id, r);
    }
  }

  /** A reply delivered in time is never lost to a timeout, before or after the death: its caller leaves with it, unless
      it is dropped first. */
  lemma DeliveredRepliesAreReceived(cfg: Config, before: seq<Act>, s: System, after: seq<Act>, t: System, id: int)
    requires Acts(cfg, Initial(), before) == Some(s) && Acts(cfg, s, after) == Some(t)
    requires Is(s.table, id, Waiting) && id in s.table.slots
    ensures id in t.table.callers
    ensures if Other(Abandon(id)) in after then t.table.callers[id] == Left(Abandoned)
            else t.table.callers[id] in {Waiting, Left(Got(s.table.slots[id]))}
  {
    ReachableIsSound(cfg, before, s);
    FilledSlotIsReceived(cfg, s, after, t, id, s.table.slots[id]);
    AbandonedExactlyWhen(cfg, s, after, t, id);
  }

  /** The caller has not got as far as waiting for a reply, and has not timed out. */
  predicate NotYetWaiting(t: Table, id: int) {
    id in t.callers ==> t.callers[id] in {Numbered, Registered, Rejected, Left(ConnectionClosed)}
  }

  /** The writer task no longer receives, or the shutdown has taken the way to it. */
  predicate WriterIsGone(t: Table) { t.shutdown.WriterTaken? || t.shutdown.Drained? || !t.writerTaskUp }

  lemma OpKeepsOut(t: Table, op: Op, id: int)
    requires FailClosed(t) && SendersHaveCallers(t) && Possible(t, op) && WriterIsGone(t) && NotYetWaiting(t, id)
    ensures WriterIsGone(Perform(t, op)) && NotYetWaiting(Perform(t, op), id)
  {
  }

  lemma ActKeepsOut(cfg: Config, s: System, act: Act, id: int)
    requires TableInv(s.table) && CanAct(s, act) && WriterIsGone(s.table) && NotYetWaiting(s.table, id)
    ensures WriterIsGone(Do(cfg, s, act).table) && NotYetWaiting(Do(cfg, s, act).table, id)
  {
    match act
    case Pipe(_) =>
    case DispatchNext =>
      var addressee := Addressee(s.cursor, Log(s)[s.cursor]);
      if addressee.Some? && Possible(s.table, Take(addressee.value.0, addressee.value.1)) {
        OpKeepsOut(s.table, Take(addressee.value.0, addressee.value.1), id);
      }
    case Other(op) => OpKeepsOut(s.table, op, id);
  }

  lemma {:induction false} StaysOut(cfg: Config, s: System, acts: seq<Act>, t: System, id: int)
    requires TableInv(s.table) && Acts(cfg, s, acts) == Some(t) && WriterIsGone(s.table) && NotYetWaiting(s.table, id)
    ensures NotYetWaiting(t.table, id)
    decreases |acts|
  {
    if acts != [] {
      ActKeepsTableInv(cfg, s, acts[0]);
      ActKeepsOut(cfg, s, acts[0], id);
      StaysOut(cfg, Do(cfg, s, acts[0]), acts[1..], t, id);
    }
  }

  /** Once the writer is gone, by its own end or by the shutdown, a caller that is not waiting yet never will be, and
      never times out: it ends with the connection closed. */
  lemma LateCallersNeverTimeOut(cfg: Config, before: seq<Act>, s: System, after: seq<Act>, t: System, id: int)
    requires Acts(cfg, Initial(), before) == Some(s) && Acts(cfg, s, after) == Some(t)
    requires WriterIsGone(s.table) && NotYetWaiting(s.table, id)
    ensures id in t.table.callers ==> t.table.callers[id] in {Numbered, Registered, Rejected, Left(ConnectionClosed)}
  {
    ReachableIsSound(cfg, before, s);
    StaysOut(cfg, s, after, t, id);
  }

  lemma {:induction false} AdmissionsEnd(cfg: Config, s: System, acts: seq<Act>, t: System)
    requires Acts(cfg, s, acts) == Some(t) && s.table.shutdown != Live
    ensures t.table.shutdown != Live && t.table.nextId + t.table.admitted == s.table.nextId + s.table.admitted
    decreases |acts|
  {
    if acts != [] {
      ActAdmitsNobody(cfg, s, acts[0]);
      AdmissionsEnd(cfg, Do(cfg, s, acts[0]), acts[1..], t);
    }
  }

  lemma ActAdmitsNobody(cfg: Config, s: System, act: Act)
    requires CanAct(s, act) && s.table.shutdown != Live
    ensures var t := Do(cfg, s, act).table;
      t.shutdown != Live && t.nextId + t.admitted == s.table.nextId + s.table.admitted
  {
    match act
    case Pipe(_) =>
    case DispatchNext => assert Do(cfg, s, act).table.nextId == s.table.nextId;
    case Other(op) => OpAdmitsNobody(s.table, op);
  }

  lemma OpAdmitsNobody(t: Table, op: Op)
    requires Possible(t, op) && t.shutdown != Live
    ensures Perform(t, op).shutdown != Live && Perform(t, op).nextId + Perform(t, op).admitted == t.nextId + t.admitted
  {
  }

  /** Once the liveness flag is cleared, nobody gets in any more: the ids ever given out stay below those given out or
      promised by then. */
  lemma NobodyIsAdmittedAfterDeath(cfg: Config, before: seq<Act>, s: System, after: seq<Act>, t: System, id: int)
    requires Acts(cfg, Initial(), before) == Some(s) && Acts(cfg, s, after) == Some(t) && s.table.shutdown != Live
    ensures id in t.table.callers ==> id < s.table.nextId + s.table.admitted
  {
    AdmissionsEnd(cfg, s, after, t);
    ReachableIsSound(cfg, before, s);
    ActsKeepTableInv(cfg, s, after);
  }

  // -- and yet a timeout --------------------------------------------------------

  function Performed(t: Table, ops: seq<Op>): Option<Table>
    decreases |ops|
  {
    if ops == [] then Some(t)
    else if ops[0].Take? || !Possible(t, ops[0]) then None
    else Performed(Perform(t, ops[0]), ops[1..])
  }

  function AsActs(ops: seq<Op>): seq<Act> {
    if ops == [] then [] else [Other(ops[0])] + AsActs(ops[1..])
  }

  lemma {:induction false} OpsAreActs(cfg: Config, s: System, ops: seq<Op>)
    requires Performed(s.table, ops).Some?
    ensures Acts(cfg, s, AsActs(ops)) == Some(s.(table := Performed(s.table, ops).value))
    decreases |ops|
  {
    if ops != [] {
      var q := Do(cfg, s, Other(ops[0]));
      OpsAreActs(cfg, q, ops[1..]);
      assert AsActs(ops)[1..] == AsActs(ops[1..]);
    } else {
      assert AsActs(ops) == [];
    }
  }

  /** A caller queues its frame; the transport dies and the drain takes the caller's sender; before the death marker
      is delivered the caller's deadline fires. It leaves with a timeout, on a dead connection. */
  lemma ADeadConnectionCanTimeOut(cfg: Config)
    ensures exists acts, s ::
      Acts(cfg, Initial(), acts) == Some(s) && s.table.shutdown == Drained && Is(s.table, 1, Left(Timeout))
  {
    var start := Initial().table;
    var queued := [Admit, TakeId] + [Register(1), Queue(1)];
    var died := [ClearFlag, TakeWriter, DrainPending];
    var gaveUp := [GiveUp(1), CleanUpTimedOut(1)];
    var numbered := NumberedRun(start);
    var a := QueuedRun(numbered);
    PerformedJoins(start, [Admit, TakeId], [Register(1), Queue(1)]);
    var b := DeathRun(a);
    var c := GiveUpRun(b);
    PerformedJoins(start, queued, died);
    PerformedJoins(start, queued + died, gaveUp);
    OpsAreActs(cfg, Initial(), queued + died + gaveUp);
    assert Acts(cfg, Initial(), AsActs(queued + died + gaveUp)) == Some(Initial().(table := c));
  }

  /** A caller queues its frame and is dropped. Every caller has left, and the table is not empty. */
  lemma ADroppedCallerIsLeftBehind(cfg: Config)
    ensures exists acts, s ::
      && Acts(cfg, Initial(), acts) == Some(s) && s.table.pending == {1}
      && forall id | id in s.table.callers :: s.table.callers[id].Left?
  {
    var start := Initial().table;
    var a := NumberedRun(start);
    var b := QueuedRun(a);
    var c := Perform(b, Abandon(1));
    var queued := [Admit, TakeId] + [Register(1), Queue(1)];
    PerformedJoins(start, [Admit, TakeId], [Register(1), Queue(1)]);
    PerformedJoins(start, queued, [Abandon(1)]);
    assert [Abandon(1)][1..] == [] && Performed(c, []) == Some(c) && Performed(b, [Abandon(1)]) == Some(c);
    OpsAreActs(cfg, Initial(), queued + [Abandon(1)]);
    assert Acts(cfg, Initial(), AsActs(queued + [Abandon(1)])) == Some(Initial().(table := c));
  }

  lemma {:induction false} PerformedJoins(t: Table, a: seq<Op>, b: seq<Op>)
    requires Performed(t, a).Some?
    ensures Performed(t, a + b) == Performed(Performed(t, a).value, b)
    decreases |a|
  {
    if a == [] {
      assert a + b == b;
    } else {
      assert (a + b)[1..] == a[1..] + b;
      PerformedJoins(Perform(t, a[0]), a[1..], b);
    }
  }

  lemma TwoOps(t: Table, a: Op, b: Op)
    requires !a.Take? && !b.Take? && Possible(t, a) && Possible(Perform(t, a), b)
    ensures Performed(t, [a, b]) == Some(Perform(Perform(t, a), b))
  {
    assert [a, b][1..] == [b] && [b][1..] == [];
    var u := Perform(Perform(t, a), b);
    assert Performed(Perform(t, a), [b]) == Performed(u, []) == Some(u);
  }

  lemma NumberedRun(t: Table) returns (u: Table)
    requires t == Initial().table
    ensures Performed(t, [Admit, TakeId]) == Some(u)
    ensures u.shutdown == Live && u.writerOpen && u.writerTaskUp && Is(u, 1, Numbered) && 1 !in u.slots
    ensures u.callers.Keys == {1} && u.pending == {}
  {
    TwoOps(t, Admit, TakeId);
    u := Perform(Perform(t, Admit), TakeId);
  }

  lemma QueuedRun(t: Table) returns (u: Table)
    requires t.shutdown == Live && t.writerOpen && t.writerTaskUp && Is(t, 1, Numbered) && 1 !in t.slots
    requires t.callers.Keys == {1} && t.pending == {}
    ensures Performed(t, [Register(1), Queue(1)]) == Some(u) && u.callers.Keys == {1} && u.pending == {1}
    ensures u.shutdown == Live && Is(u, 1, Waiting) && 1 in u.pending && 1 !in u.slots
  {
    TwoOps(t, Register(1), Queue(1));
    u := Perform(Perform(t, Register(1)), Queue(1));
  }

  lemma DeathRun(t: Table) returns (u: Table)
    requires t.shutdown == Live && Is(t, 1, Waiting) && 1 in t.pending && 1 !in t.slots
    ensures Performed(t, [ClearFlag, TakeWriter, DrainPending]) == Some(u)
    ensures u.shutdown == Drained && Is(u, 1, Waiting) && 1 !in u.slots
  {
    var t1 := Perform(t, ClearFlag);
    var t2 := Perform(t1, TakeWriter);
    u := Perform(t2, DrainPending);
    var ops := [ClearFlag, TakeWriter, DrainPending];
    assert ops[1..] == [TakeWriter, DrainPending] && ops[1..][1..] == [DrainPending] && ops[1..][1..][1..] == [];
    assert Performed(t2, [DrainPending]) == Performed(u, []) == Some(u);
  }

  lemma GiveUpRun(t: Table) returns (u: Table)
    requires t.shutdown == Drained && Is(t, 1, Waiting) && 1 !in t.slots
    ensures Performed(t, [GiveUp(1), CleanUpTimedOut(1)]) == Some(u)
    ensures u.shutdown == Drained && Is(u, 1, Left(Timeout))
  {
    TwoOps(t, GiveUp(1), CleanUpTimedOut(1));
    u := Perform(Perform(t, GiveUp(1)), CleanUpTimedOut(1));
  }
}
