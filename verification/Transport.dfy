/** The ordered inbound half of the CDP transport: a reader numbers data frames, a dispatcher
    decodes them inline or hands them to workers, and a reorder buffer releases them in wire order.

    This module holds the frames, the dispatcher's transitions as functions on values, and the
    machine in which the reader, the dispatcher and the workers interleave freely. */
module Transport {
  import opened Wrappers
  import opened Text

  /** A decoded frame: a response carries an id, an event a method, anything else is dropped. */
  datatype Message = Response(id: int, body: string) | Event(name: string, params: string) | Neither

  /** A data frame as read off the socket: its size, whether its bytes are UTF-8, what a full parse
      yields, whether a character of its text starts at byte 1024 (or the text is no longer), and what the cheap
      scan for an id in that head of the text yields. A scan of a text cut inside a character panics. */
  datatype WireFrame = WireFrame(bytes: nat, utf8: bool, parsed: Option<Message>, headCuts: bool, idPrefix: Option<int>)

  /** Where the scan for an id cuts a text. */
  const HEAD: nat := 1024

  /** A frame that carries this text. */
  ghost function TextFrame(text: string, parsed: Option<Message>, idPrefix: Option<int>): WireFrame {
    WireFrame(ByteLen(text), true, parsed, CutsCleanly(text, HEAD), idPrefix)
  }

  datatype InboundFrame =
    | Raw(sequence: nat, frame: WireFrame)
    | Oversize(sequence: nat, idHint: Option<int>)

  datatype OrderedItem = Decoded(message: Message) | Undecodable(idHint: Option<int>)

  datatype Config = Config(maxBytes: nat, offloadBytes: nat)

  // -- the reader -----------------------------------------------------------

  /** What the reader forwards for the data frame it numbered `sequence`. */
  function Forward(cfg: Config, sequence: nat, f: WireFrame): InboundFrame {
    if f.bytes > cfg.maxBytes then Oversize(sequence, f.idPrefix)
    else if !f.utf8 then Oversize(sequence, None)
    else Raw(sequence, f)
  }

  /** The reader scans a frame too large to decode. */
  predicate FatalToReader(cfg: Config, f: WireFrame) { f.bytes > cfg.maxBytes && !f.headCuts }

  // -- decoding -------------------------------------------------------------

  /** The dispatcher scans a frame it could not decode itself. */
  predicate FramePanics(cfg: Config, f: InboundFrame) {
    f.Raw? && f.frame.bytes < cfg.offloadBytes && f.frame.parsed == None && !f.frame.headCuts
  }

  predicate FatalToDispatcher(cfg: Config, f: WireFrame) {
    f.bytes <= cfg.maxBytes && f.utf8 && f.bytes < cfg.offloadBytes && f.parsed == None && !f.headCuts
  }

  function DecodeInline(f: WireFrame): OrderedItem {
    match f.parsed
    case Some(m) => Decoded(m)
    case None => Undecodable(f.idPrefix)
  }

  /** A worker has given its text away by the time a parse fails, so no id can be recovered. */
  function DecodeOffloaded(parsed: Option<Message>): OrderedItem {
    match parsed
    case Some(m) => Decoded(m)
    case None => Undecodable(None)
  }

  /** The item a wire frame must end up as, whichever path it takes. */
  function ItemOf(cfg: Config, f: WireFrame): OrderedItem {
    if f.bytes > cfg.maxBytes then Undecodable(f.idPrefix)
    else if !f.utf8 then Undecodable(None)
    else if f.bytes >= cfg.offloadBytes then DecodeOffloaded(f.parsed)
    else DecodeInline(f)
  }

  function ItemsOf(cfg: Config, wire: seq<WireFrame>): seq<OrderedItem> {
    seq(|wire|, i requires 0 <= i < |wire| => ItemOf(cfg, wire[i]))
  }

  // -- the reorder buffer ---------------------------------------------------

  /** `log` is everything dispatched so far, in dispatch order. */
  datatype Core = Core(expected: nat, buffer: map<nat, OrderedItem>, log: seq<OrderedItem>, depth: nat, depthMax: nat)

  function Noted(c: Core): Core {
    c.(depth := |c.buffer|, depthMax := if |c.buffer| > c.depthMax then |c.buffer| else c.depthMax)
  }

  function ReleaseOne(c: Core): Core
    requires c.expected in c.buffer
  {
    Noted(c.(buffer := c.buffer - {c.expected}, log := c.log + [c.buffer[c.expected]])).(expected := c.expected + 1)
  }

  function Drain(c: Core): Core
    decreases |c.buffer|
  {
    if c.expected in c.buffer then
      Smaller(c.buffer, c.expected);
      Drain(ReleaseOne(c))
    else Noted(c)
  }

  lemma Smaller<T>(m: map<nat, T>, k: nat)
    requires k in m
    ensures |m - {k}| < |m|
  {
    assert (m - {k}).Keys == m.Keys - {k};
    assert |m.Keys - {k}| < |m.Keys|;
  }

  /** `d` is `c` after releasing exactly the maximal run of consecutive slots that starts at `expected`. */
  ghost predicate ReleasedReadyRun(c: Core, d: Core) {
    c.expected <= d.expected && d.expected !in d.buffer && d.depth == |d.buffer| && Leaves(c, d) && Logs(c, d)
  }

  /** The slots of the run are gone from the buffer, and nothing else is. */
  ghost predicate Leaves(c: Core, d: Core) {
    && (forall k: nat | c.expected <= k < d.expected :: k in c.buffer)
    && d.buffer == (map k | k in c.buffer && !(c.expected <= k < d.expected) :: c.buffer[k])
  }

  /** The slots of the run are logged in order, after what was logged before. */
  ghost predicate Logs(c: Core, d: Core) {
    && |d.log| == |c.log| + (d.expected - c.expected) && c.log <= d.log
    && (forall k: nat | c.expected <= k < d.expected ::
        k in c.buffer && d.log[|c.log| + (k - c.expected)] == c.buffer[k])
  }

  /** `r` is `c` with its expected slot released, whatever was noted about depth. */
  predicate OneReleased(c: Core, r: Core) {
    && c.expected in c.buffer && r.expected == c.expected + 1
    && r.buffer == c.buffer - {c.expected}
    && r.log == c.log + [c.buffer[c.expected]]
  }

  lemma ReleaseOneThenTheRest(c: Core, r: Core, d: Core)
    requires OneReleased(c, r) && ReleasedReadyRun(r, d)
    ensures ReleasedReadyRun(c, d)
  {
    ReleaseOneLogs(c, r, d);
    ReleaseOneLeaves(c, r, d);
  }

  lemma ReleaseOneLeaves(c: Core, r: Core, d: Core)
    requires OneReleased(c, r) && r.expected <= d.expected && Leaves(r, d)
    ensures Leaves(c, d)
  {
    forall k: nat | c.expected <= k < d.expected ensures k in c.buffer {
      if k > c.expected { assert k in r.buffer; }
    }
  }

  lemma ReleaseOneLogs(c: Core, r: Core, d: Core)
    requires OneReleased(c, r) && r.expected <= d.expected && Logs(r, d)
    ensures Logs(c, d)
  {
    forall k: nat | c.expected <= k < d.expected
      ensures k in c.buffer && d.log[|c.log| + (k - c.expected)] == c.buffer[k]
    {
      if k == c.expected { assert r.log[|c.log|] == c.buffer[k]; } else { assert k in r.buffer; }
    }
  }

  /** Draining releases exactly the maximal run of consecutive slots that starts at `expected`. */
  lemma {:induction false} DrainReleasesTheReadyRun(c: Core)
    ensures ReleasedReadyRun(c, Drain(c))
    decreases |c.buffer|
  {
    if c.expected in c.buffer {
      Smaller(c.buffer, c.expected);
      DrainReleasesTheReadyRun(ReleaseOne(c));
      ReleaseOneThenTheRest(c, ReleaseOne(c), Drain(ReleaseOne(c)));
    }
  }

  // -- the dispatcher loop --------------------------------------------------

  datatype Loop = Loop(core: Core, inboundOpen: bool, pendingOffloads: nat, offloaded: nat)

  function InsertAndDrain(c: Core, sequence: nat, item: OrderedItem): Core {
    Drain(c.(buffer := c.buffer[sequence := item]))
  }

  /** A frame taken from the inbound queue: large frames go to a worker, the rest are decoded here. */
  function OnFrame(cfg: Config, l: Loop, f: InboundFrame): Loop {
    match f
    case Oversize(sequence, idHint) => l.(core := InsertAndDrain(l.core, sequence, Undecodable(idHint)))
    case Raw(sequence, frame) =>
      if frame.bytes >= cfg.offloadBytes then
        l.(pendingOffloads := l.pendingOffloads + 1, offloaded := l.offloaded + 1)
      else l.(core := InsertAndDrain(l.core, sequence, DecodeInline(frame)))
  }

  function OnCompletion(l: Loop, sequence: nat, parsed: Option<Message>): Loop {
    l.(pendingOffloads := if l.pendingOffloads == 0 then 0 else l.pendingOffloads - 1,
       core := InsertAndDrain(l.core, sequence, DecodeOffloaded(parsed)))
  }

  function IsOffloaded(cfg: Config, f: InboundFrame): bool {
    f.Raw? && f.frame.bytes >= cfg.offloadBytes
  }

  /** What one wait of the dispatcher can yield: the inbound queue (None at its end) or a worker's result. */
  datatype Arrival = Inbound(received: Option<InboundFrame>) | Result(sequence: nat, parsed: Option<Message>)

  /** Once the inbound queue has ended, that arm of the wait is switched off. */
  function OnArrival(cfg: Config, l: Loop, a: Arrival): Loop {
    match a
    case Inbound(received) =>
      if !l.inboundOpen then l
      else (match received case Some(f) => OnFrame(cfg, l, f) case None => l.(inboundOpen := false))
    case Result(sequence, parsed) => OnCompletion(l, sequence, parsed)
  }

  predicate MayLeave(l: Loop) { !l.inboundOpen && l.pendingOffloads == 0 }

  predicate ArrivalPanics(cfg: Config, l: Loop, a: Arrival) {
    l.inboundOpen && a.Inbound? && a.received.Some? && FramePanics(cfg, a.received.value)
  }

  /** The dispatcher is in its loop, has left it, has panicked in it, or was aborted at an await by a shutdown. */
  datatype Phase = Running | Gone | Crashed | Aborted

  /** The loop, fed these arrivals: it leaves, after a last drain, as soon as it may, and crashes on a frame whose
      scan panics. */
  function Turns(cfg: Config, l: Loop, arrivals: seq<Arrival>): (Loop, Phase)
    decreases |arrivals|
  {
    if MayLeave(l) then (l.(core := Drain(l.core)), Gone)
    else if arrivals == [] then (l, Running)
    else if ArrivalPanics(cfg, l, arrivals[0]) then (l, Crashed)
    else Turns(cfg, OnArrival(cfg, l, arrivals[0]), arrivals[1..])
  }

  // -- reader, dispatcher and workers together -------------------------------

  /** `wire` is every data frame read and forwarded so far; `lost` is one that was read but not forwarded, because
      scanning it panicked or the dispatcher was gone; `inFlight` are the frames workers hold. */
  datatype Pipeline = Pipeline(
    wire: seq<WireFrame>, lost: Option<WireFrame>, inbound: seq<InboundFrame>, readerDone: bool,
    inFlight: map<nat, WireFrame>, loop: Loop, phase: Phase)

  datatype Step =
    | Read(frame: WireFrame)      // the reader numbers one data frame and forwards it
    | ReaderStops                 // close, error or shutdown: no more frames
    | TakeInbound                 // the dispatcher receives the oldest forwarded frame
    | SeeInboundClosed            // the dispatcher observes the end of the queue
    | Complete(sequence: nat)     // any worker's result reaches the dispatcher
    | Exit                        // the dispatcher leaves its loop
    | Abort                       // a shutdown aborts the dispatcher

  function Start(): Pipeline {
    Pipeline([], None, [], false, map[], Loop(Core(0, map[], [], 0, 0), true, 0, 0), Running)
  }

  predicate Enabled(p: Pipeline, step: Step) {
    match step
    case Read(_) => !p.readerDone
    case ReaderStops => !p.readerDone
    case TakeInbound => p.phase == Running && p.loop.inboundOpen && p.inbound != []
    case SeeInboundClosed => p.phase == Running && p.loop.inboundOpen && p.inbound == [] && p.readerDone
    case Complete(s) => p.phase == Running && s in p.inFlight
    case Exit => p.phase == Running && MayLeave(p.loop)
    case Abort => p.phase == Running
  }

  function Apply(cfg: Config, p: Pipeline, step: Step): Pipeline
    requires Enabled(p, step)
  {
    match step
    case Read(f) =>
      if FatalToReader(cfg, f) || p.phase != Running then p.(lost := Some(f), readerDone := true)
      else p.(wire := p.wire + [f], inbound := p.inbound + [Forward(cfg, |p.wire|, f)])
    case ReaderStops => p.(readerDone := true)
    case TakeInbound =>
      var f := p.inbound[0];
      if FramePanics(cfg, f) then p.(phase := Crashed) else
      p.(inbound := p.inbound[1..], loop := OnFrame(cfg, p.loop, f),
         inFlight := if IsOffloaded(cfg, f) then p.inFlight[f.sequence := f.frame] else p.inFlight)
    case SeeInboundClosed => p.(loop := p.loop.(inboundOpen := false))
    case Complete(s) =>
      p.(inFlight := p.inFlight - {s}, loop := OnCompletion(p.loop, s, p.inFlight[s].parsed))
    case Exit => p.(loop := p.loop.(core := Drain(p.loop.core)), phase := Gone)
    case Abort => p.(phase := Aborted)
  }

  /** The state after a list of steps, or None when some step was not enabled. */
  function Run(cfg: Config, p: Pipeline, steps: seq<Step>): Option<Pipeline>
    decreases |steps|
  {
    if steps == [] then Some(p)
    else if !Enabled(p, steps[0]) then None
    else Run(cfg, Apply(cfg, p, steps[0]), steps[1..])
  }

  // -- what every step keeps -------------------------------------------------

  /** How many frames the dispatcher has taken off the inbound queue. */
  function Taken(p: Pipeline): int { |p.wire| - |p.inbound| }

  /** The queue holds the frames read but not yet taken, oldest first. */
  ghost predicate QueueInOrder(cfg: Config, wire: seq<WireFrame>, inbound: seq<InboundFrame>) {
    && |inbound| <= |wire|
    && (forall i | |wire| - |inbound| <= i < |wire| :: inbound[i - (|wire| - |inbound|)] == Forward(cfg, i, wire[i]))
  }

  /** The frames taken but not dispatched are split between the buffer and `held`, the buffer holds
      the right item for each, and the log is the dispatched prefix of the wire. */
  ghost predicate Settled(cfg: Config, wire: seq<WireFrame>, c: Core, held: map<nat, WireFrame>, taken: int) {
    && c.expected <= taken <= |wire|
    && (forall s: nat :: (s in c.buffer || s in held) <==> c.expected <= s < taken)
    && (forall s | s in c.buffer :: s !in held && c.buffer[s] == ItemOf(cfg, wire[s]))
    && c.log == ItemsOf(cfg, wire[..c.expected])
  }

  ghost predicate WorkersFaithful(cfg: Config, wire: seq<WireFrame>, inFlight: map<nat, WireFrame>) {
    forall s | s in inFlight ::
      s < |wire| && inFlight[s] == wire[s] && DecodeOffloaded(wire[s].parsed) == ItemOf(cfg, wire[s])
  }

  ghost predicate Inv(cfg: Config, p: Pipeline) {
    && QueueInOrder(cfg, p.wire, p.inbound) && WorkersFaithful(cfg, p.wire, p.inFlight)
    && Settled(cfg, p.wire, p.loop.core, p.inFlight, Taken(p))
    && p.loop.core.expected !in p.loop.core.buffer
    && p.loop.pendingOffloads == |p.inFlight|
    && (p.loop.inboundOpen || (p.readerDone && p.inbound == []))
    && (p.phase == Gone ==> !p.loop.inboundOpen && p.loop.pendingOffloads == 0)
    && p.loop.core.depth <= p.loop.core.depthMax
    && (p.loop.offloaded == 0 ==> p.inFlight == map[] && p.loop.core.depthMax == 0)
  }

  lemma ReleaseSettles(cfg: Config, wire: seq<WireFrame>, c: Core, d: Core, held: map<nat, WireFrame>, taken: int)
    requires Settled(cfg, wire, c, held, taken) && ReleasedReadyRun(c, d)
    ensures Settled(cfg, wire, d, held, taken)
  {
    assert d.expected > taken ==> taken in c.buffer;
    assert forall k: nat | c.expected <= k < d.expected :: c.buffer[k] == ItemOf(cfg, wire[k]);
    ReleaseLogsItems(cfg, wire, c, d);
    ReleaseSplits(c, d, held, taken);
  }

  lemma ReleaseLogsItems(cfg: Config, wire: seq<WireFrame>, c: Core, d: Core)
    requires c.expected <= d.expected <= |wire| && Logs(c, d) && c.log == ItemsOf(cfg, wire[..c.expected])
    requires forall k: nat | c.expected <= k < d.expected :: k in c.buffer && c.buffer[k] == ItemOf(cfg, wire[k])
    ensures d.log == ItemsOf(cfg, wire[..d.expected])
  {
    forall i | 0 <= i < d.expected
      ensures d.log[i] == ItemOf(cfg, wire[i])
    {
      if i < c.expected {
        assert d.log[i] == c.log[i];
      } else {
        assert d.log[|c.log| + (i - c.expected)] == c.buffer[i];
      }
    }
  }

  lemma ReleaseSplits(c: Core, d: Core, held: map<nat, WireFrame>, taken: int)
    requires c.expected <= d.expected && Leaves(c, d)
    requires forall s: nat :: (s in c.buffer || s in held) <==> c.expected <= s < taken
    requires forall s | s in c.buffer :: s !in held
    ensures forall s: nat :: (s in d.buffer || s in held) <==> d.expected <= s < taken
  {
  }

  /** Placing one missing item and draining leaves the frames settled without it. */
  lemma InsertAndDrainSettles(cfg: Config, wire: seq<WireFrame>, c: Core, s: nat, held: map<nat, WireFrame>, taken: int)
    requires Settled(cfg, wire, c, held, taken) && s in held
    ensures s < |wire|
    ensures var d := InsertAndDrain(c, s, ItemOf(cfg, wire[s]));
      Settled(cfg, wire, d, held - {s}, taken) && d.expected !in d.buffer
  {
    var b := c.(buffer := c.buffer[s := ItemOf(cfg, wire[s])]);
    assert Settled(cfg, wire, b, held - {s}, taken);
    DrainReleasesTheReadyRun(b);
    ReleaseSettles(cfg, wire, b, Drain(b), held - {s}, taken);
  }

  lemma {:induction false} DrainBoundsDepth(c: Core)
    requires c.depth <= c.depthMax
    ensures Drain(c).depth <= Drain(c).depthMax
    decreases |c.buffer|
  {
    if c.expected in c.buffer {
      Smaller(c.buffer, c.expected);
      DrainBoundsDepth(ReleaseOne(c));
    }
  }

  /** With an empty buffer, the expected frame passes straight through and no depth is recorded. */
  lemma DrainPassesThrough(c: Core, item: OrderedItem)
    requires c.buffer == map[] && c.depthMax == 0
    ensures InsertAndDrain(c, c.expected, item).depthMax == 0
  {
    var b := c.(buffer := c.buffer[c.expected := item]);
    var r := ReleaseOne(b);
    assert r.buffer == map[];
    Smaller(b.buffer, b.expected);
    assert Drain(b) == Drain(r) == Noted(r);
  }

  /** The core after placing item `s` and draining: settled, bounded, and untouched by disorder if nothing
      was ever offloaded. */
  lemma InsertAndDrainKeeps(cfg: Config, wire: seq<WireFrame>, c: Core, s: nat, held: map<nat, WireFrame>, taken: int)
    requires Settled(cfg, wire, c, held, taken) && s in held && c.depth <= c.depthMax
    ensures s < |wire|
    ensures var d := InsertAndDrain(c, s, ItemOf(cfg, wire[s]));
      && Settled(cfg, wire, d, held - {s}, taken) && d.expected !in d.buffer && d.depth <= d.depthMax
      && (c.buffer == map[] && c.depthMax == 0 && s == c.expected ==> d.depthMax == 0)
  {
    InsertAndDrainSettles(cfg, wire, c, s, held, taken);
    DrainBoundsDepth(c.(buffer := c.buffer[s := ItemOf(cfg, wire[s])]));
    if c.buffer == map[] && c.depthMax == 0 && s == c.expected {
      DrainPassesThrough(c, ItemOf(cfg, wire[s]));
    }
  }

  lemma PopKeepsOrder(cfg: Config, wire: seq<WireFrame>, inbound: seq<InboundFrame>)
    requires QueueInOrder(cfg, wire, inbound) && inbound != []
    ensures QueueInOrder(cfg, wire, inbound[1..])
    ensures var s := |wire| - |inbound|; inbound[0] == Forward(cfg, s, wire[s])
  {
    var s := |wire| - |inbound|;
    assert inbound[s - s] == Forward(cfg, s, wire[s]);
    forall i | s + 1 <= i < |wire|
      ensures inbound[1..][i - (s + 1)] == Forward(cfg, i, wire[i])
    {
      assert inbound[i - s] == Forward(cfg, i, wire[i]);
    }
  }

  lemma PushKeepsOrder(cfg: Config, wire: seq<WireFrame>, inbound: seq<InboundFrame>, f: WireFrame)
    requires QueueInOrder(cfg, wire, inbound)
    ensures QueueInOrder(cfg, wire + [f], inbound + [Forward(cfg, |wire|, f)])
  {
    var s := |wire| - |inbound|;
    forall i | s <= i < |wire| + 1
      ensures (inbound + [Forward(cfg, |wire|, f)])[i - s] == Forward(cfg, i, (wire + [f])[i])
    {
      if i < |wire| { assert inbound[i - s] == Forward(cfg, i, wire[i]); }
    }
  }

  lemma HoldingOneMore(cfg: Config, wire: seq<WireFrame>, c: Core, held: map<nat, WireFrame>, taken: nat, f: WireFrame)
    requires Settled(cfg, wire, c, held, taken) && taken < |wire|
    ensures taken !in held && taken !in c.buffer && held[taken := f] - {taken} == held
    ensures Settled(cfg, wire, c, held[taken := f], taken + 1)
  {
  }

  lemma TakeInboundKeeps(cfg: Config, p: Pipeline)
    requires Inv(cfg, p) && Enabled(p, TakeInbound)
    ensures Inv(cfg, Apply(cfg, p, TakeInbound))
  {
    var s := Taken(p);
    PopKeepsOrder(cfg, p.wire, p.inbound);
    HoldingOneMore(cfg, p.wire, p.loop.core, p.inFlight, s, p.wire[s]);
    if FramePanics(cfg, p.inbound[0]) {
    } else if IsOffloaded(cfg, p.inbound[0]) {
      assert Apply(cfg, p, TakeInbound).inFlight == p.inFlight[s := p.wire[s]];
    } else {
      TakeInlineKeeps(cfg, p);
    }
  }

  lemma TakeInlineKeeps(cfg: Config, p: Pipeline)
    requires Inv(cfg, p) && Enabled(p, TakeInbound)
    requires !IsOffloaded(cfg, p.inbound[0]) && !FramePanics(cfg, p.inbound[0])
    ensures Inv(cfg, Apply(cfg, p, TakeInbound))
  {
    var s := Taken(p);
    PopKeepsOrder(cfg, p.wire, p.inbound);
    InlineItem(cfg, p.loop, s, p.wire[s]);
    InlineSettles(cfg, p.wire, p.loop.core, s, p.inFlight);
    assert p.loop.offloaded == 0 ==> p.loop.core.buffer == map[] && s == p.loop.core.expected;
  }

  lemma InlineItem(cfg: Config, l: Loop, s: nat, f: WireFrame)
    requires !IsOffloaded(cfg, Forward(cfg, s, f))
    ensures OnFrame(cfg, l, Forward(cfg, s, f)) == l.(core := InsertAndDrain(l.core, s, ItemOf(cfg, f)))
  {
  }

  /** The frame just taken is placed at once, without ever being held. */
  lemma InlineSettles(cfg: Config, wire: seq<WireFrame>, c: Core, s: nat, held: map<nat, WireFrame>)
    requires Settled(cfg, wire, c, held, s) && s < |wire| && c.depth <= c.depthMax
    ensures var d := InsertAndDrain(c, s, ItemOf(cfg, wire[s]));
      && Settled(cfg, wire, d, held, s + 1) && d.expected !in d.buffer && d.depth <= d.depthMax
      && (c.buffer == map[] && c.depthMax == 0 && s == c.expected ==> d.depthMax == 0)
  {
    HoldingOneMore(cfg, wire, c, held, s, wire[s]);
    InsertAndDrainKeeps(cfg, wire, c, s, held[s := wire[s]], s + 1);
  }

  lemma CompleteKeeps(cfg: Config, p: Pipeline, s: nat)
    requires Inv(cfg, p) && Enabled(p, Complete(s))
    ensures Inv(cfg, Apply(cfg, p, Complete(s)))
  {
    var q := Apply(cfg, p, Complete(s));
    assert q.inFlight.Keys == p.inFlight.Keys - {s};
    InsertAndDrainKeeps(cfg, p.wire, p.loop.core, s, p.inFlight, Taken(p));
    assert q.loop.core == InsertAndDrain(p.loop.core, s, ItemOf(cfg, p.wire[s]));
  }

  lemma StepKeepsInv(cfg: Config, p: Pipeline, step: Step)
    requires Inv(cfg, p) && Enabled(p, step)
    ensures Inv(cfg, Apply(cfg, p, step))
  {
    var q := Apply(cfg, p, step);
    match step
    case Read(f) =>
      PushKeepsOrder(cfg, p.wire, p.inbound, f);
      assert q.wire[..p.loop.core.expected] == p.wire[..p.loop.core.expected];
    case TakeInbound => TakeInboundKeeps(cfg, p);
    case Complete(s) => CompleteKeeps(cfg, p, s);
    case _ =>
  }

  lemma {:induction false} RunKeepsInv(cfg: Config, p: Pipeline, steps: seq<Step>)
    requires Inv(cfg, p) && Run(cfg, p, steps).Some?
    ensures Inv(cfg, Run(cfg, p, steps).value)
    decreases |steps|
  {
    if steps != [] {
      StepKeepsInv(cfg, p, steps[0]);
      RunKeepsInv(cfg, Apply(cfg, p, steps[0]), steps[1..]);
    }
  }

  // -- the promises, over every interleaving ---------------------------------

  lemma QueuedSequences(cfg: Config, wire: seq<WireFrame>, inbound: seq<InboundFrame>, s: nat)
    requires QueueInOrder(cfg, wire, inbound)
    ensures (exists f :: f in inbound && f.sequence == s) <==> |wire| - |inbound| <= s < |wire|
  {
    var first := |wire| - |inbound|;
    if first <= s < |wire| {
      assert inbound[s - first] == Forward(cfg, s, wire[s]) && inbound[s - first] in inbound;
    }
    if f :| f in inbound && f.sequence == s {
      var i :| 0 <= i < |inbound| && inbound[i] == f;
      assert inbound[(first + i) - first] == Forward(cfg, first + i, wire[first + i]);
    }
  }

  /** Whatever the order in which workers finish, dispatch follows the wire: the log is exactly the
      first `expected` frames, and every other frame forwarded is in exactly one place. */
  lemma DispatchFollowsTheWire(cfg: Config, steps: seq<Step>, p: Pipeline)
    requires Run(cfg, Start(), steps) == Some(p)
    ensures p.loop.core.expected <= |p.wire|
    ensures p.loop.core.log == ItemsOf(cfg, p.wire[..p.loop.core.expected])
    ensures var queued := set f | f in p.inbound :: f.sequence;
      && queued !! p.inFlight.Keys !! p.loop.core.buffer.Keys
      && forall s: nat :: s in queued || s in p.inFlight || s in p.loop.core.buffer
          <==> p.loop.core.expected <= s < |p.wire|
    ensures p.loop.core.depthMax > 0 ==> p.loop.offloaded > 0
  {
    RunKeepsInv(cfg, Start(), steps);
    var queued := set f | f in p.inbound :: f.sequence;
    forall s: nat
      ensures s in queued <==> Taken(p) <= s < |p.wire|
    {
      QueuedSequences(cfg, p.wire, p.inbound, s);
    }
  }

  /** When the dispatcher has left its loop, every frame ever forwarded was dispatched once, in order;
      undecodable frames included. */
  lemma NothingIsLost(cfg: Config, steps: seq<Step>, p: Pipeline)
    requires Run(cfg, Start(), steps) == Some(p) && p.phase == Gone
    ensures p.loop.core.buffer == map[] && p.inFlight == map[] && p.inbound == []
    ensures p.loop.core.log == ItemsOf(cfg, p.wire)
  {
    RunKeepsInv(cfg, Start(), steps);
    var c := p.loop.core;
    assert p.inFlight == map[];
    assert c.expected !in c.buffer && c.expected == Taken(p);
    assert c.buffer.Keys == {};
    assert p.wire[..c.expected] == p.wire;
  }

  /** Work left for the dispatcher and the workers once the reader has stopped. */
  function WorkLeft(p: Pipeline): nat {
    2 * |p.inbound| + |p.inFlight| + (if p.loop.inboundOpen then 1 else 0) + (if p.phase == Running then 1 else 0)
  }

  lemma SomethingIsEnabled(cfg: Config, p: Pipeline)
    requires Inv(cfg, p) && p.readerDone && p.phase == Running
    ensures exists step :: step != Abort && Enabled(p, step)
  {
    if p.loop.inboundOpen {
      assert Enabled(p, if p.inbound == [] then SeeInboundClosed else TakeInbound);
    } else if p.loop.pendingOffloads == 0 {
      assert Enabled(p, Exit);
    } else {
      var s :| s in p.inFlight;
      assert Enabled(p, Complete(s));
    }
  }

  /** The dispatcher cannot stall: after the reader has stopped, some step other than an abort is possible until the
      dispatcher's loop has ended, and every possible step uses up work. So every way of going on ends it after at
      most `WorkLeft` steps. */
  lemma NeverStalls(cfg: Config, steps: seq<Step>, p: Pipeline)
    requires Run(cfg, Start(), steps) == Some(p) && p.readerDone
    ensures p.phase == Running ==> exists step :: step != Abort && Enabled(p, step)
    ensures forall step | Enabled(p, step) ::
        && Apply(cfg, p, step).readerDone
        && WorkLeft(Apply(cfg, p, step)) < WorkLeft(p)
  {
    RunKeepsInv(cfg, Start(), steps);
    if p.phase == Running { SomethingIsEnabled(cfg, p); }
    forall step | Enabled(p, step)
      ensures Apply(cfg, p, step).readerDone && WorkLeft(Apply(cfg, p, step)) < WorkLeft(p)
    {
      StepUsesUpWork(cfg, p, step);
    }
  }

  lemma StepUsesUpWork(cfg: Config, p: Pipeline, step: Step)
    requires p.readerDone && Enabled(p, step)
    ensures Apply(cfg, p, step).readerDone && WorkLeft(Apply(cfg, p, step)) < WorkLeft(p)
  {
    match step
    case Complete(s) => Smaller(p.inFlight, s);
    case TakeInbound => assert |p.inbound[1..]| == |p.inbound| - 1;
    case _ =>
  }

  // -- when a frame is fatal -----------------------------------------------------

  /** Scanning the frame for an id, by whichever task has to, panics. */
  predicate Fatal(cfg: Config, f: WireFrame) { FatalToReader(cfg, f) || FatalToDispatcher(cfg, f) }

  /** Forwarded frames never killed the reader, frames taken never killed the dispatcher, a crash stands before the
      frame that caused it, and a frame is lost only to one of the two or to an abort. */
  ghost predicate Fates(cfg: Config, p: Pipeline) {
    FatesOf(cfg, p.wire, Taken(p), p.phase) && (p.lost.Some? ==> LostOnTheWay(cfg, p.lost.value, p.readerDone, p.phase))
  }

  ghost predicate FatesOf(cfg: Config, wire: seq<WireFrame>, taken: int, phase: Phase) {
    && (forall f | f in wire :: !FatalToReader(cfg, f))
    && (forall i | 0 <= i < |wire| && i < taken :: !FatalToDispatcher(cfg, wire[i]))
    && (phase == Crashed ==> 0 <= taken < |wire| && FatalToDispatcher(cfg, wire[taken]))
  }

  predicate LostOnTheWay(cfg: Config, f: WireFrame, readerDone: bool, phase: Phase) {
    readerDone && (FatalToReader(cfg, f) || phase == Crashed || phase == Aborted)
  }

  lemma OneMoreForwarded(cfg: Config, wire: seq<WireFrame>, taken: int, f: WireFrame)
    requires FatesOf(cfg, wire, taken, Running) && taken <= |wire| && !FatalToReader(cfg, f)
    ensures FatesOf(cfg, wire + [f], taken, Running)
  {
  }

  lemma HeadPanicsExactlyWhen(cfg: Config, p: Pipeline)
    requires QueueInOrder(cfg, p.wire, p.inbound) && p.inbound != [] && forall f | f in p.wire :: !FatalToReader(cfg, f)
    ensures FramePanics(cfg, p.inbound[0]) <==> FatalToDispatcher(cfg, p.wire[Taken(p)])
  {
    PopKeepsOrder(cfg, p.wire, p.inbound);
  }

  lemma TakeKeepsFates(cfg: Config, p: Pipeline)
    requires QueueInOrder(cfg, p.wire, p.inbound) && Fates(cfg, p) && Enabled(p, TakeInbound)
    ensures Fates(cfg, Apply(cfg, p, TakeInbound))
  {
    HeadPanicsExactlyWhen(cfg, p);
    var q := Apply(cfg, p, TakeInbound);
    assert q.wire == p.wire && q.lost == p.lost && q.readerDone == p.readerDone;
    if FramePanics(cfg, p.inbound[0]) {
      assert FatesOf(cfg, p.wire, Taken(p), Crashed);
    } else {
      assert FatesOf(cfg, p.wire, Taken(p) + 1, Running);
    }
  }

  lemma StepKeepsFates(cfg: Config, p: Pipeline, step: Step)
    requires Inv(cfg, p) && Fates(cfg, p) && Enabled(p, step)
    ensures Fates(cfg, Apply(cfg, p, step))
  {
    match step
    case TakeInbound => TakeKeepsFates(cfg, p);
    case Read(f) => ReadKeepsFates(cfg, p, f);
    case _ => OtherStepsKeepFates(cfg, p, step);
  }

  lemma ReadKeepsFates(cfg: Config, p: Pipeline, f: WireFrame)
    requires Fates(cfg, p) && Enabled(p, Read(f)) && |p.inbound| <= |p.wire| && (p.phase == Gone ==> p.readerDone)
    ensures Fates(cfg, Apply(cfg, p, Read(f)))
  {
    if !FatalToReader(cfg, f) && p.phase == Running { OneMoreForwarded(cfg, p.wire, Taken(p), f); }
  }

  lemma OtherStepsKeepFates(cfg: Config, p: Pipeline, step: Step)
    requires Fates(cfg, p) && Enabled(p, step) && !step.Read? && !step.TakeInbound?
    ensures Fates(cfg, Apply(cfg, p, step))
  {
    var q := Apply(cfg, p, step);
    assert q.wire == p.wire && Taken(q) == Taken(p) && q.lost == p.lost;
    assert q.phase == Crashed <==> p.phase == Crashed;
    assert FatesOf(cfg, q.wire, Taken(q), q.phase);
  }

  lemma {:induction false} RunKeepsFates(cfg: Config, p: Pipeline, steps: seq<Step>)
    requires Inv(cfg, p) && Fates(cfg, p) && Run(cfg, p, steps).Some?
    ensures Fates(cfg, Run(cfg, p, steps).value)
    decreases |steps|
  {
    if steps != [] {
      StepKeepsInv(cfg, p, steps[0]);
      StepKeepsFates(cfg, p, steps[0]);
      RunKeepsFates(cfg, Apply(cfg, p, steps[0]), steps[1..]);
    }
  }

  /** The data frames read in these steps, in order. */
  function FramesRead(steps: seq<Step>): seq<WireFrame> {
    if steps == [] then [] else ReadBy(steps[0]) + FramesRead(steps[1..])
  }

  function ReadBy(step: Step): seq<WireFrame> { if step.Read? then [step.frame] else [] }

  function Held(p: Pipeline): seq<WireFrame> { p.wire + match p.lost case Some(f) => [f] case None => [] }

  lemma {:induction false} ReadIsForwardedOrLost(cfg: Config, p: Pipeline, steps: seq<Step>)
    requires Run(cfg, p, steps).Some? && (p.lost.Some? ==> p.readerDone)
    ensures Held(Run(cfg, p, steps).value) == Held(p) + FramesRead(steps)
    decreases |steps|
  {
    if steps != [] {
      var q := Apply(cfg, p, steps[0]);
      StepHolds(cfg, p, steps[0]);
      ReadIsForwardedOrLost(cfg, q, steps[1..]);
      JoinIsAssociative(Held(p), ReadBy(steps[0]), FramesRead(steps[1..]));
    }
  }

  lemma JoinIsAssociative(a: seq<WireFrame>, b: seq<WireFrame>, c: seq<WireFrame>)
    ensures a + b + c == a + (b + c)
  {
  }

  lemma StepHolds(cfg: Config, p: Pipeline, step: Step)
    requires Enabled(p, step) && (p.lost.Some? ==> p.readerDone)
    ensures Held(Apply(cfg, p, step)) == Held(p) + ReadBy(step)
    ensures Apply(cfg, p, step).lost.Some? ==> Apply(cfg, p, step).readerDone
  {
  }

  lemma OnlyAbortAborts(cfg: Config, p: Pipeline, step: Step)
    requires Enabled(p, step) && p.phase != Aborted
    ensures Apply(cfg, p, step).phase == Aborted <==> step == Abort
  {
  }

  lemma {:induction false} AbortedExactlyWhen(cfg: Config, p: Pipeline, steps: seq<Step>)
    requires Run(cfg, p, steps).Some?
    ensures Run(cfg, p, steps).value.phase == Aborted <==> p.phase == Aborted || Abort in steps
    decreases |steps|
  {
    if p.phase == Aborted {
      EndedStays(cfg, p, steps);
    } else if steps != [] {
      OnlyAbortAborts(cfg, p, steps[0]);
      AbortedExactlyWhen(cfg, Apply(cfg, p, steps[0]), steps[1..]);
      assert steps == [steps[0]] + steps[1..];
    }
  }

  /** Once the reader and the dispatcher have both ended, one way or another: everything that was read has been
      dispatched, once and in order, and the dispatcher has left its loop, exactly when it was not aborted and no
      frame read was fatal. */
  lemma EverythingReadIsDispatchedExactlyWhen(cfg: Config, steps: seq<Step>, p: Pipeline)
    requires Run(cfg, Start(), steps) == Some(p) && p.readerDone && p.phase != Running
    ensures p.loop.core.log == ItemsOf(cfg, FramesRead(steps)) && p.phase == Gone
      <==> Abort !in steps && forall f | f in FramesRead(steps) :: !Fatal(cfg, f)
  {
    RunKeepsInv(cfg, Start(), steps);
    RunKeepsFates(cfg, Start(), steps);
    AbortedExactlyWhen(cfg, Start(), steps);
    ReadIsHeld(cfg, steps, p);
    match p.phase
    case Gone =>
      NothingIsLost(cfg, steps, p);
      EndedGone(cfg, p, FramesRead(steps));
    case Crashed => WhenCrashed(cfg, p.wire, Taken(p), FramesRead(steps));
    case Aborted =>
  }

  lemma ReadIsHeld(cfg: Config, steps: seq<Step>, p: Pipeline)
    requires Run(cfg, Start(), steps) == Some(p)
    ensures FramesRead(steps) == Held(p) && p.wire <= FramesRead(steps)
  {
    ReadIsForwardedOrLost(cfg, Start(), steps);
    assert Held(Start()) == [];
    assert [] + FramesRead(steps) == FramesRead(steps);
  }

  lemma EndedGone(cfg: Config, p: Pipeline, all: seq<WireFrame>)
    requires p.phase == Gone && p.inbound == [] && p.loop.core.log == ItemsOf(cfg, p.wire)
    requires Fates(cfg, p) && all == Held(p)
    ensures p.loop.core.log == ItemsOf(cfg, all) <==> forall f | f in all :: !Fatal(cfg, f)
  {
    assert p.wire + [] == p.wire;
    WhenGone(cfg, p.wire, p.lost, all);
  }

  lemma WhenCrashed(cfg: Config, wire: seq<WireFrame>, taken: int, all: seq<WireFrame>)
    requires FatesOf(cfg, wire, taken, Crashed) && wire <= all
    ensures !forall f | f in all :: !Fatal(cfg, f)
  {
    assert all[taken] == wire[taken] && all[taken] in all;
  }

  lemma WhenGone(cfg: Config, wire: seq<WireFrame>, lost: Option<WireFrame>, all: seq<WireFrame>)
    requires FatesOf(cfg, wire, |wire|, Gone) && (lost.Some? ==> FatalToReader(cfg, lost.value))
    requires all == if lost.Some? then wire + [lost.value] else wire
    ensures ItemsOf(cfg, wire) == ItemsOf(cfg, all) <==> forall f | f in all :: !Fatal(cfg, f)
  {
    if lost.Some? {
      assert |ItemsOf(cfg, wire)| == |wire| && |ItemsOf(cfg, all)| == |wire| + 1;
      assert lost.value in all && Fatal(cfg, lost.value);
    } else {
      forall f | f in wire ensures !Fatal(cfg, f) {
        var i :| 0 <= i < |wire| && wire[i] == f;
      }
    }
  }

  // -- what the log says of each frame, in the frame's own terms --------------------------------

  lemma WireIsRead(cfg: Config, steps: seq<Step>, p: Pipeline)
    requires Run(cfg, Start(), steps) == Some(p)
    ensures p.wire <= FramesRead(steps)
  {
    ReadIsForwardedOrLost(cfg, Start(), steps);
    assert Held(Start()) + FramesRead(steps) == FramesRead(steps);
  }

  /** After any run, what was dispatched under number i is the i-th frame read: decoded when it is not oversized, is
      text and parses, whether a worker decoded it or not; otherwise undecodable, with the id its scan yields when it
      was oversized or decoded inline, and with none when it is not text or went to a worker. */
  lemma EveryFrameIsDispatchedAsItParses(cfg: Config, steps: seq<Step>, p: Pipeline, i: nat)
    requires Run(cfg, Start(), steps) == Some(p) && i < p.loop.core.expected
    ensures |p.loop.core.log| == p.loop.core.expected <= |FramesRead(steps)|
    ensures var f := FramesRead(steps)[i];
      p.loop.core.log[i] ==
        if f.bytes <= cfg.maxBytes && f.utf8 && f.parsed.Some? then Decoded(f.parsed.value)
        else if f.bytes > cfg.maxBytes || (f.utf8 && f.bytes < cfg.offloadBytes) then Undecodable(f.idPrefix)
        else Undecodable(None)
  {
    DispatchFollowsTheWire(cfg, steps, p);
    WireIsRead(cfg, steps, p);
    assert p.wire[i] == FramesRead(steps)[i];
  }

  /** How many of these frames a worker has to decode. */
  function ForWorkers(cfg: Config, frames: seq<WireFrame>): nat {
    if frames == [] then 0
    else
      var f := frames[|frames| - 1];
      ForWorkers(cfg, frames[..|frames| - 1]) +
      if cfg.offloadBytes <= f.bytes <= cfg.maxBytes && f.utf8 then 1 else 0
  }

  predicate Counted(cfg: Config, wire: seq<WireFrame>, taken: int, offloaded: nat) {
    0 <= taken <= |wire| && offloaded == ForWorkers(cfg, wire[..taken])
  }

  lemma StepKeepsTheCount(cfg: Config, p: Pipeline, step: Step)
    requires Inv(cfg, p) && Enabled(p, step) && Counted(cfg, p.wire, Taken(p), p.loop.offloaded)
    ensures var q := Apply(cfg, p, step); Counted(cfg, q.wire, Taken(q), q.loop.offloaded)
  {
    var q := Apply(cfg, p, step);
    match step
    case TakeInbound => TakingCounts(cfg, p);
    case Read(f) => CountIgnoresTheRest(cfg, p.wire, f, Taken(p), p.loop.offloaded);
    case _ => assert q.wire == p.wire && Taken(q) == Taken(p) && q.loop.offloaded == p.loop.offloaded;
  }

  lemma CountIgnoresTheRest(cfg: Config, wire: seq<WireFrame>, f: WireFrame, taken: int, offloaded: nat)
    requires Counted(cfg, wire, taken, offloaded)
    ensures Counted(cfg, wire + [f], taken, offloaded)
  {
    assert (wire + [f])[..taken] == wire[..taken];
  }

  lemma OneMoreCounted(cfg: Config, wire: seq<WireFrame>, taken: int, offloaded: nat)
    requires Counted(cfg, wire, taken, offloaded) && taken < |wire|
    ensures var f := wire[taken];
      Counted(cfg, wire, taken + 1,
          offloaded + if cfg.offloadBytes <= f.bytes <= cfg.maxBytes && f.utf8 then 1 else 0)
  {
    assert wire[..taken + 1][..taken] == wire[..taken];
  }

  lemma TakingCounts(cfg: Config, p: Pipeline)
    requires QueueInOrder(cfg, p.wire, p.inbound) && Enabled(p, TakeInbound)
    requires Counted(cfg, p.wire, Taken(p), p.loop.offloaded)
    ensures var q := Apply(cfg, p, TakeInbound); Counted(cfg, q.wire, Taken(q), q.loop.offloaded)
  {
    var n := Taken(p);
    assert p.inbound[0] == p.inbound[n - n] == Forward(cfg, n, p.wire[n]);
    if !FramePanics(cfg, p.inbound[0]) { OneMoreCounted(cfg, p.wire, n, p.loop.offloaded); }
  }

  lemma {:induction false} RunKeepsTheCount(cfg: Config, p: Pipeline, steps: seq<Step>)
    requires Inv(cfg, p) && Run(cfg, p, steps).Some? && Counted(cfg, p.wire, Taken(p), p.loop.offloaded)
    ensures var q := Run(cfg, p, steps).value; Counted(cfg, q.wire, Taken(q), q.loop.offloaded)
    decreases |steps|
  {
    if steps != [] {
      StepKeepsInv(cfg, p, steps[0]);
      StepKeepsTheCount(cfg, p, steps[0]);
      RunKeepsTheCount(cfg, Apply(cfg, p, steps[0]), steps[1..]);
    }
  }

  /** The count of offloaded frames is the number of frames taken that are text, not oversized and large. */
  lemma OffloadsAreCounted(cfg: Config, steps: seq<Step>, p: Pipeline)
    requires Run(cfg, Start(), steps) == Some(p)
    ensures 0 <= |p.wire| - |p.inbound|
    ensures p.loop.offloaded == ForWorkers(cfg, p.wire[..|p.wire| - |p.inbound|])
  {
    assert Start().wire[..0] == [];
    RunKeepsTheCount(cfg, Start(), steps);
  }

  /** The largest depth noted by a drain is what its first release leaves, or what waits if nothing is released. */
  lemma {:induction false} DrainNotesTheLargestDepth(c: Core)
    ensures var n := |c.buffer| - if c.expected in c.buffer then 1 else 0;
      Drain(c).depthMax == if n > c.depthMax then n else c.depthMax
    decreases |c.buffer|
  {
    if c.expected in c.buffer {
      Smaller(c.buffer, c.expected);
      assert (c.buffer - {c.expected}).Keys == c.buffer.Keys - {c.expected};
      DrainNotesTheLargestDepth(ReleaseOne(c));
    }
  }

  // -- the loop on its own and the loop in company ------------------------------------------------

  /** What one step makes the dispatcher's wait yield. */
  function ArrivalOf(p: Pipeline, step: Step): seq<Arrival>
    requires Enabled(p, step)
  {
    match step
    case TakeInbound => [Inbound(Some(p.inbound[0]))]
    case SeeInboundClosed => [Inbound(None)]
    case Complete(s) => [Result(s, p.inFlight[s].parsed)]
    case _ => []
  }

  /** Everything that arrives at the dispatcher in these steps, in order. */
  function ArrivalsOf(cfg: Config, p: Pipeline, steps: seq<Step>): seq<Arrival>
    requires Run(cfg, p, steps).Some?
    decreases |steps|
  {
    if steps == [] then []
    else ArrivalOf(p, steps[0]) + ArrivalsOf(cfg, Apply(cfg, p, steps[0]), steps[1..])
  }

  lemma OneArrival(cfg: Config, l: Loop, a: Arrival, rest: seq<Arrival>)
    requires !MayLeave(l)
    ensures Turns(cfg, l, [a] + rest)
         == if ArrivalPanics(cfg, l, a) then (l, Crashed) else Turns(cfg, OnArrival(cfg, l, a), rest)
  {
    assert ([a] + rest)[1..] == rest;
  }

  lemma StepIsATurn(cfg: Config, p: Pipeline, step: Step, rest: seq<Arrival>)
    requires Inv(cfg, p) && Enabled(p, step) && p.phase == Running
    ensures var q := Apply(cfg, p, step);
      && (q.phase == Running ==> Turns(cfg, p.loop, ArrivalOf(p, step) + rest) == Turns(cfg, q.loop, rest))
      && (q.phase in {Crashed, Gone} ==> Turns(cfg, p.loop, ArrivalOf(p, step) + rest) == (q.loop, q.phase))
  {
    assert [] + rest == rest;
    match step
    case TakeInbound => OneArrival(cfg, p.loop, Inbound(Some(p.inbound[0])), rest);
    case SeeInboundClosed => OneArrival(cfg, p.loop, Inbound(None), rest);
    case Complete(s) =>
      assert |p.inFlight| > 0;
      OneArrival(cfg, p.loop, Result(s, p.inFlight[s].parsed), rest);
    case _ =>
  }

  /** The dispatcher's loop, fed what arrives in a run of the whole machine, ends where the dispatcher of the machine
      is; it leaves by itself as soon as it may. */
  lemma {:induction false} LoopFollowsTheMachine(cfg: Config, p: Pipeline, steps: seq<Step>, q: Pipeline)
    requires Inv(cfg, p) && p.phase == Running && Run(cfg, p, steps) == Some(q) && q.phase != Aborted
    ensures Turns(cfg, p.loop, ArrivalsOf(cfg, p, steps))
         == if q.phase == Running && MayLeave(q.loop) then (q.loop.(core := Drain(q.loop.core)), Gone)
            else (q.loop, q.phase)
    decreases |steps|
  {
    if steps != [] {
      var p1 := Apply(cfg, p, steps[0]);
      StepKeepsInv(cfg, p, steps[0]);
      StepIsATurn(cfg, p, steps[0], ArrivalsOf(cfg, p1, steps[1..]));
      if p1.phase == Running {
        LoopFollowsTheMachine(cfg, p1, steps[1..], q);
      } else {
        EndedStays(cfg, p1, steps[1..]);
      }
    }
  }

  /** Fatal frames are possible: a text of 1023 letters and a two-byte character, which is no JSON, takes the
      dispatcher down. */
  lemma AFrameCanBeFatal(cfg: Config)
    requires cfg.maxBytes >= 1025 && cfg.offloadBytes > 1025
    ensures var f := TextFrame(Repeated('a', 1023) + "\U{E9}", None, None);
      var p := Run(cfg, Start(), [Read(f), TakeInbound]);
      p.Some? && p.value.phase == Crashed
  {
    var f := TextFrame(Repeated('a', 1023) + "\U{E9}", None, None);
    TwoByteTailCannotBeCut('a', 1023, '\U{E9}');
    assert f.bytes == 1025 && !f.headCuts;
    var p := Apply(cfg, Start(), Read(f));
    assert [Read(f), TakeInbound][1..] == [TakeInbound] && [TakeInbound][1..] == [];
    assert Run(cfg, p, [TakeInbound]) == Run(cfg, Apply(cfg, p, TakeInbound), []);
  }

  /** However the dispatcher's loop has ended, nothing is dispatched any more. */
  lemma {:induction false} EndedStays(cfg: Config, p: Pipeline, steps: seq<Step>)
    requires p.phase != Running && Run(cfg, p, steps).Some?
    ensures Run(cfg, p, steps).value.phase == p.phase && Run(cfg, p, steps).value.loop == p.loop
    decreases |steps|
  {
    if steps != [] { EndedStays(cfg, Apply(cfg, p, steps[0]), steps[1..]); }
  }
}
