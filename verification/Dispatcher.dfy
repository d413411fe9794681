/** The dispatcher task and the shared transport state in the form the program has them: mutable fields,
    a drain loop and a fail-closed shutdown. Each method is proved against the functions of modules
    Transport and Requests. */
module Dispatcher {
  import opened Wrappers
  import opened Transport
  import opened Requests

  lemma OneMore(d: Desk, first: nat, start: seq<OrderedItem>, log: seq<OrderedItem>, item: OrderedItem, now: Desk,
      next: nat)
    requires start <= log && next == first + |log| - |start|
    requires now == Dispatch(DispatchAll(d, first, log[|start|..]), next, item)
    ensures now == DispatchAll(d, first, (log + [item])[|start|..])
  {
    var items := (log + [item])[|start|..];
    assert items[..|items| - 1] == log[|start|..];
  }

  lemma {:induction false} DispatchesJoin(d: Desk, first: nat, a: seq<OrderedItem>, b: seq<OrderedItem>)
    ensures DispatchAll(DispatchAll(d, first, a), first + |a|, b) == DispatchAll(d, first, a + b)
  {
    if b == [] {
      assert a + b == a;
    } else {
      DispatchesJoin(d, first, a, b[..|b| - 1]);
      assert (a + b)[..|a + b| - 1] == a + b[..|b| - 1];
    }
  }

  /** From the first state to the second, exactly the new items of the log were dispatched, in order, each under
      its own sequence number, and `expected` moved on by as many. */
  predicate Dispatched(d: Desk, expected: nat, log: seq<OrderedItem>, d': Desk, expected': nat,
      log': seq<OrderedItem>) {
    log <= log' && expected' == expected + |log'| - |log| && d' == DispatchAll(d, expected, log'[|log|..])
  }

  lemma TwoStretches(d0: Desk, e0: nat, l0: seq<OrderedItem>, d1: Desk, e1: nat, l1: seq<OrderedItem>, d2: Desk,
      e2: nat, l2: seq<OrderedItem>)
    requires Dispatched(d0, e0, l0, d1, e1, l1) && Dispatched(d1, e1, l1, d2, e2, l2)
    ensures Dispatched(d0, e0, l0, d2, e2, l2)
  {
    DispatchesJoin(d0, e0, l1[|l0|..], l2[|l1|..]);
    assert l1[|l0|..] + l2[|l1|..] == l2[|l0|..];
  }

  lemma OneTurn(cfg: Config, l: Loop, arrivals: seq<Arrival>, i: nat)
    requires i < |arrivals| && !MayLeave(l)
    ensures Turns(cfg, l, arrivals[i..]) ==
      if ArrivalPanics(cfg, l, arrivals[i]) then (l, Crashed)
      else Turns(cfg, OnArrival(cfg, l, arrivals[i]), arrivals[i + 1..])
  {
    assert arrivals[i..][0] == arrivals[i] && arrivals[i..][1..] == arrivals[i + 1..];
  }

  /** The decode job a frame is turned into, if it is large enough. */
  function JobFor(cfg: Config, f: InboundFrame): Option<(nat, WireFrame)> {
    if IsOffloaded(cfg, f) then Some((f.sequence, f.frame)) else None
  }

  class Connection {
    const cfg: Config
    // dispatcher-local
    var expected: nat
    var buffer: map<nat, OrderedItem>
    var inboundOpen: bool
    var pendingOffloads: nat
    // shared
    var offloadedCount: nat
    var depthCurrent: nat
    var depthMax: nat
    var alive: bool
    var writerOpen: bool
    var pending: set<int>
    var replies: map<int, Reply>
    var events: seq<WireEvent>
    ghost var log: seq<OrderedItem>   // every item dispatched, in order

    constructor (cfg: Config)
      ensures this.cfg == cfg && View() == Transport.Start().loop
      ensures Shared() == Desk({}, map[], []) && alive && writerOpen
    {
      this.cfg := cfg;
      expected, buffer, inboundOpen, pendingOffloads := 0, map[], true, 0;
      offloadedCount, depthCurrent, depthMax, alive, writerOpen := 0, 0, 0, true, true;
      pending, replies, events, log := {}, map[], [], [];
    }

    ghost function ReorderState(): Core
      reads this
    {
      Core(expected, buffer, log, depthCurrent, depthMax)
    }

    ghost function View(): Loop
      reads this
    {
      Loop(ReorderState(), inboundOpen, pendingOffloads, offloadedCount)
    }

    ghost function Shared(): Desk
      reads this
    {
      Desk(pending, replies, events)
    }

    method NoteReorderDepth(current: nat)
      modifies this`depthCurrent, this`depthMax
      ensures depthCurrent == current
      ensures depthMax == if current > old(depthMax) then current else old(depthMax)
    {
      depthCurrent := current;
      if current > depthMax { depthMax := current; }
    }

    method DispatchItem(sequence: nat, item: OrderedItem)
      modifies this`pending, this`replies, this`events, this`log
      ensures Shared() == Dispatch(old(Shared()), sequence, item) && log == old(log) + [item]
      ensures match item
        case Decoded(Response(id, body)) =>
          && pending == old(pending) - {id} && events == old(events)
          && replies == if id in old(pending) then old(replies)[id := Answer(sequence, body)] else old(replies)
        case Undecodable(Some(id)) =>
          && pending == old(pending) - {id} && events == old(events)
          && replies == if id in old(pending) then old(replies)[id := BadFrame(sequence)] else old(replies)
        case Decoded(Event(name, params)) =>
          && pending == old(pending) && replies == old(replies)
          && events == old(events) + [WireEvent(sequence, name, params)]
        case _ => pending == old(pending) && replies == old(replies) && events == old(events)
    {
      match item {
        case Undecodable(idHint) =>
          if idHint.Some? && idHint.value in pending {
            pending, replies := pending - {idHint.value}, replies[idHint.value := BadFrame(sequence)];
          }
        case Decoded(Response(id, body)) =>
          if id in pending {
            pending, replies := pending - {id}, replies[id := Answer(sequence, body)];
          }
        case Decoded(Event(name, params)) =>
          events := events + [WireEvent(sequence, name, params)];
        case Decoded(Neither) =>
      }
      log := log + [item];
    }

    /** One turn of the drain loop: the expected slot leaves the buffer and is dispatched. */
    method ReleaseSlot()
      requires expected in buffer
      modifies this`expected, this`buffer, this`depthCurrent, this`depthMax, this`pending, this`replies, this`events,
          this`log
      ensures ReorderState() == ReleaseOne(old(ReorderState()))
      ensures log == old(log) + [old(buffer[expected])] && expected == old(expected) + 1
      ensures Shared() == Dispatch(old(Shared()), old(expected), old(buffer[expected]))
    {
      var item := buffer[expected];
      buffer := buffer - {expected};
      DispatchItem(expected, item);
      NoteReorderDepth(|buffer|);
      expected := expected + 1;
    }

    /** Dispatches the whole run of consecutive slots from `expected`, in order, and nothing else. */
    method DrainReady()
      modifies this`expected, this`buffer, this`depthCurrent, this`depthMax, this`pending, this`replies, this`events,
          this`log
      ensures ReorderState() == Drain(old(ReorderState()))
      ensures Dispatched(old(Shared()), old(expected), old(log), Shared(), expected, log)
    {
      while expected in buffer
        invariant Drain(ReorderState()) == Drain(old(ReorderState()))
        invariant Dispatched(old(Shared()), old(expected), old(log), Shared(), expected, log)
        decreases |buffer|
      {
        ghost var before := ReorderState();
        Smaller(buffer, expected);
        ReleaseSlot();
        OneMore(old(Shared()), old(expected), old(log), before.log, before.buffer[before.expected], Shared(),
            before.expected);
      }
      NoteReorderDepth(|buffer|);
    }

    method InsertAndDrainSlot(sequence: nat, item: OrderedItem)
      modifies this`expected, this`buffer, this`depthCurrent, this`depthMax, this`pending, this`replies, this`events,
          this`log
      ensures ReorderState() == InsertAndDrain(old(ReorderState()), sequence, item)
      ensures Dispatched(old(Shared()), old(expected), old(log), Shared(), expected, log)
    {
      buffer := buffer[sequence := item];
      DrainReady();
    }

    /** One receive from the inbound queue. A returned job is what a decode worker is started on. */
    method OnInbound(received: Option<InboundFrame>) returns (job: Option<(nat, WireFrame)>, panicked: bool)
      modifies this
      ensures panicked == (received.Some? && FramePanics(cfg, received.value))
      ensures panicked ==> View() == old(View()) && Shared() == old(Shared()) && job == None
      ensures !panicked ==> match received
        case None => View() == old(View()).(inboundOpen := false) && job == None
        case Some(f) =>
          && View() == OnFrame(cfg, old(View()), f)
          && job == if f.Raw? && f.frame.bytes >= cfg.offloadBytes then Some((f.sequence, f.frame)) else None
      ensures Dispatched(old(Shared()), old(expected), old(log), Shared(), expected, log)
      ensures alive == old(alive) && writerOpen == old(writerOpen)
    {
      job, panicked := None, false;
      match received {
        case None =>
          inboundOpen := false;
        case Some(Oversize(sequence, idHint)) =>
          InsertAndDrainSlot(sequence, Undecodable(idHint));
        case Some(Raw(sequence, frame)) =>
          if frame.bytes >= cfg.offloadBytes {
            pendingOffloads, offloadedCount := pendingOffloads + 1, offloadedCount + 1;
            job := Some((sequence, frame));
          } else {
            match frame.parsed {
              case Some(m) => InsertAndDrainSlot(sequence, Decoded(m));
              case None =>
                if !frame.headCuts { panicked := true; return; }
                InsertAndDrainSlot(sequence, Undecodable(frame.idPrefix));
            }
          }
      }
    }

    /** A worker's result, whichever worker it comes from. */
    method OnWorkerResult(sequence: nat, parsed: Option<Message>)
      modifies this
      ensures View() == OnCompletion(old(View()), sequence, parsed)
      ensures Dispatched(old(Shared()), old(expected), old(log), Shared(), expected, log)
      ensures alive == old(alive) && writerOpen == old(writerOpen)
    {
      if pendingOffloads > 0 { pendingOffloads := pendingOffloads - 1; }
      match parsed {
        case Some(m) => InsertAndDrainSlot(sequence, Decoded(m));
        case None => InsertAndDrainSlot(sequence, Undecodable(None));
      }
    }

    method OnNext(arrival: Arrival) returns (job: Option<(nat, WireFrame)>, panicked: bool)
      modifies this
      ensures panicked == ArrivalPanics(cfg, old(View()), arrival)
      ensures View() == if panicked then old(View()) else OnArrival(cfg, old(View()), arrival)
      ensures job == match arrival
        case Inbound(Some(f)) => if old(inboundOpen) then JobFor(cfg, f) else None
        case _ => None
      ensures Dispatched(old(Shared()), old(expected), old(log), Shared(), expected, log)
      ensures alive == old(alive) && writerOpen == old(writerOpen)
    {
      job, panicked := None, false;
      match arrival {
        case Inbound(received) => if inboundOpen { job, panicked := OnInbound(received); }
        case Result(sequence, parsed) => OnWorkerResult(sequence, parsed);
      }
    }

    /** The dispatcher's loop over whatever arrives, in whatever order, until it may leave, nothing more comes,
        or it crashes. Everything it released was dispatched, in release order. */
    method DispatcherLoop(arrivals: seq<Arrival>) returns (jobs: seq<(nat, WireFrame)>, phase: Phase)
      modifies this
      ensures (View(), phase) == Turns(cfg, old(View()), arrivals)
      ensures offloadedCount == old(offloadedCount) + |jobs|
      ensures Dispatched(old(Shared()), old(expected), old(log), Shared(), expected, log)
    {
      jobs, phase := [], Running;
      var i := 0;
      while i < |arrivals| && (inboundOpen || pendingOffloads > 0)
        invariant i <= |arrivals|
        invariant Turns(cfg, View(), arrivals[i..]) == Turns(cfg, old(View()), arrivals)
        invariant offloadedCount == old(offloadedCount) + |jobs|
        invariant Dispatched(old(Shared()), old(expected), old(log), Shared(), expected, log)
        decreases |arrivals| - i
      {
        ghost var d, e, l, view := Shared(), expected, log, View();
        var job, panicked := OnNext(arrivals[i]);
        if job.Some? { jobs := jobs + [job.value]; }
        TwoStretches(old(Shared()), old(expected), old(log), d, e, l, Shared(), expected, log);
        OneTurn(cfg, view, arrivals, i);
        if panicked {
          phase := Crashed;
          return;
        }
        i := i + 1;
      }
      if !inboundOpen && pendingOffloads == 0 {
        ghost var d, e, l := Shared(), expected, log;
        DrainReady();
        TwoStretches(old(Shared()), old(expected), old(log), d, e, l, Shared(), expected, log);
        phase := Gone;
      } else {
        assert arrivals[i..] == [];
      }
    }

    /** Fail-closed and idempotent: the first call closes the writer, then empties the table and answers
        every request it held; later calls change nothing. */
    method MarkDead()
      modifies this`alive, this`writerOpen, this`pending, this`replies
      ensures !alive
      ensures old(alive) ==> !writerOpen && pending == {}
      ensures old(alive) ==> replies == old(replies) + (map id | id in old(pending) :: Dead)
      ensures !old(alive) ==> writerOpen == old(writerOpen) && Shared() == old(Shared())
    {
      if !alive { return; }
      alive := false;
      writerOpen := false;
      var drained := pending;
      pending := {};
      var left := drained;
      while left != {}
        invariant left <= drained
        invariant replies == old(replies) + (map id | id in drained - left :: Dead)
        modifies this`replies
        decreases left
      {
        assert (forall id :: id !in left) ==> left == {};
        var id :| id in left;
        replies := replies[id := Dead];
        left := left - {id};
      }
    }
  }
}
