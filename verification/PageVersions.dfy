/** Version counters and element staleness: how DomState and FrameManager move the counters an
    ElementRef is stamped with, and why an expired reference stays expired. */
module PageVersions {
  import opened Wrappers
  import opened Events

  /** `frames` holds, per frame, the value of `frameTree` at that frame's last event. */
  datatype Versions = Versions(
    dom: nat, index: nat, frameTree: nat, target: nat, runtime: nat, navigation: nat, frames: map<string, nat>)

  /** The versions an ElementRef carries. */
  datatype Stamp = Stamp(target: nat, dom: nat, frame: string, frameVersion: nat)

  function InitialVersions(): Versions { Versions(0, 0, 0, 0, 0, 0, map[]) }

  /** 0 for a frame never seen, or not seen since the last reconnect. */
  function FrameVersion(v: Versions, frame: string): nat {
    if frame in v.frames then v.frames[frame] else 0
  }

  predicate IsStaleForFrame(v: Versions, frame: string, stored: nat) {
    var cur := FrameVersion(v, frame);
    if cur == 0 && stored == 0 then false else cur != stored
  }

  predicate IsStale(v: Versions, r: Stamp) {
    r.target != v.target || r.dom != v.dom || IsStaleForFrame(v, r.frame, r.frameVersion)
  }

  // -- how events and reconnects move the versions ---------------------------

  function DomOnEvent(v: Versions, e: PageEvent): Versions {
    match e
    case DocumentUpdated => v.(dom := v.dom + 1, index := v.index + 1)
    case ChildInserted(_, _) | ChildRemoved(_, _, _) | AttributeModified(_, _, _) => v.(dom := v.dom + 1)
    case FrameNavigated(_, isMain) => if isMain then v.(navigation := v.navigation + 1, dom := v.dom + 1) else v
    case _ => v
  }

  function BumpForFrame(v: Versions, frame: string): Versions {
    v.(frameTree := v.frameTree + 1, frames := v.frames[frame := v.frameTree + 1])
  }

  function FramesOnEvent(v: Versions, e: PageEvent): Versions {
    match MovedFrame(e)
    case Some(frame) => BumpForFrame(v, frame)
    case None => v
  }

  /** One event reaches DomState first, then FrameManager. */
  function OnEvent(v: Versions, e: PageEvent): Versions { FramesOnEvent(DomOnEvent(v, e), e) }

  /** The order in which a reconnect moves the versions. A crash recovery also moves `frameTree`; a
      simulated reconnect does not. */
  function Reconnected(v: Versions): Versions {
    v.(target := v.target + 1, runtime := v.runtime + 1, dom := v.dom + 1, index := v.index + 1)
  }

  function ClearFrames(v: Versions): Versions { v.(frames := map[]) }

  datatype Move = Page(event: PageEvent) | CrashRecovery | SimulatedReconnect

  function Apply(v: Versions, m: Move): Versions {
    match m
    case Page(e) => OnEvent(v, e)
    case CrashRecovery => var w := Reconnected(v); ClearFrames(w.(frameTree := w.frameTree + 1))
    case SimulatedReconnect => ClearFrames(Reconnected(v))
  }

  function ApplyAll(v: Versions, moves: seq<Move>): Versions
    decreases |moves|
  {
    if moves == [] then v else ApplyAll(Apply(v, moves[0]), moves[1..])
  }

  // -- what holds of every reachable version state ---------------------------

  /** Per-frame versions are positive, at most the global counter, and distinct; the empty frame id
      never has one. */
  ghost predicate FramesBounded(v: Versions) {
    && (forall f | f in v.frames :: f != "" && 0 < v.frames[f] <= v.frameTree)
    && (forall f, g | f in v.frames && g in v.frames && f != g :: v.frames[f] != v.frames[g])
  }

  lemma MoveKeepsFramesBounded(v: Versions, m: Move)
    requires FramesBounded(v)
    ensures FramesBounded(Apply(v, m))
  {
  }

  lemma {:induction false} ReachableFramesAreBounded(moves: seq<Move>, v: Versions)
    requires FramesBounded(v)
    ensures FramesBounded(ApplyAll(v, moves))
    decreases |moves|
  {
    if moves != [] {
      MoveKeepsFramesBounded(v, moves[0]);
      ReachableFramesAreBounded(moves[1..], Apply(v, moves[0]));
    }
  }

  /** The counters a reference was stamped from were no further on than they are now. */
  predicate Issued(v: Versions, r: Stamp) {
    r.target <= v.target && r.dom <= v.dom && r.frameVersion <= v.frameTree
  }

  /** The move touches what a reference depends on: a reconnect, a DOM mutation, or an event of its own frame. */
  predicate Touches(m: Move, frame: string) {
    match m
    case Page(e) => MovesDom(e) || MovedFrame(e) == Some(frame)
    case _ => true
  }

  // -- staleness ------------------------------------------------------------

  lemma MoveKeepsStale(v: Versions, m: Move, r: Stamp)
    requires Issued(v, r) && IsStale(v, r)
    ensures Issued(Apply(v, m), r) && IsStale(Apply(v, m), r)
  {
  }

  /** Expiry is a one-way latch: a stale reference stays stale through every later run of DOM, frame and
      reconnect moves, although a reconnect resets the per-frame versions to 0. */
  lemma {:induction false} StaleStaysStale(v: Versions, moves: seq<Move>, r: Stamp)
    requires Issued(v, r) && IsStale(v, r)
    ensures IsStale(ApplyAll(v, moves), r)
    decreases |moves|
  {
    if moves != [] {
      MoveKeepsStale(v, moves[0], r);
      StaleStaysStale(Apply(v, moves[0]), moves[1..], r);
    }
  }

  lemma FreshUntilTouched(v: Versions, m: Move, r: Stamp)
    requires Issued(v, r) && !IsStale(v, r)
    ensures Issued(Apply(v, m), r) && (IsStale(Apply(v, m), r) <==> Touches(m, r.frame))
  {
  }

  /** A fresh reference expires exactly when something touches it; activity in other frames never does. */
  lemma {:induction false} StaleExactlyWhenTouched(v: Versions, moves: seq<Move>, r: Stamp)
    requires Issued(v, r) && !IsStale(v, r)
    ensures IsStale(ApplyAll(v, moves), r) <==> exists i :: 0 <= i < |moves| && Touches(moves[i], r.frame)
    decreases |moves|
  {
    if moves != [] {
      var w := Apply(v, moves[0]);
      FreshUntilTouched(v, moves[0], r);
      if Touches(moves[0], r.frame) {
        StaleStaysStale(w, moves[1..], r);
      } else {
        StaleExactlyWhenTouched(w, moves[1..], r);
        assert forall i | 0 <= i < |moves[1..]| :: moves[1..][i] == moves[i + 1];
        assert forall i | 1 <= i < |moves| :: moves[i] == moves[1..][i - 1];
      }
    }
  }

  // -- in between ----------------------------------------------------------------

  /** Everything that moves a counter, one counter or one owner at a time. References can be issued and read between
      any two of these. */
  datatype SmallMove =
    | DomSees(event: PageEvent) | FramesSee(event: PageEvent)
    | BumpTarget | BumpRuntime | BumpDom | BumpIndex | BumpFrameTree | ResetFrames

  function Small(v: Versions, m: SmallMove): Versions {
    match m
    case DomSees(e) => DomOnEvent(v, e)
    case FramesSee(e) => FramesOnEvent(v, e)
    case BumpTarget => v.(target := v.target + 1)
    case BumpRuntime => v.(runtime := v.runtime + 1)
    case BumpDom => v.(dom := v.dom + 1)
    case BumpIndex => v.(index := v.index + 1)
    case BumpFrameTree => v.(frameTree := v.frameTree + 1)
    case ResetFrames => ClearFrames(v)
  }

  function SmallAll(v: Versions, moves: seq<SmallMove>): Versions
    decreases |moves|
  {
    if moves == [] then v else SmallAll(Small(v, moves[0]), moves[1..])
  }

  const BUMPS: seq<SmallMove> := [BumpTarget, BumpRuntime, BumpDom, BumpIndex]

  /** The order in which the code makes each move. */
  function Steps(m: Move): seq<SmallMove> {
    match m
    case Page(e) => [DomSees(e), FramesSee(e)]
    case CrashRecovery => BUMPS + [BumpFrameTree, ResetFrames]
    case SimulatedReconnect => BUMPS + [ResetFrames]
  }

  lemma {:induction false} SmallMovesJoin(v: Versions, a: seq<SmallMove>, b: seq<SmallMove>)
    ensures SmallAll(v, a + b) == SmallAll(SmallAll(v, a), b)
    decreases |a|
  {
    if a == [] {
      assert a + b == b;
    } else {
      assert (a + b)[1..] == a[1..] + b;
      SmallMovesJoin(Small(v, a[0]), a[1..], b);
    }
  }

  lemma TwoSmallMoves(v: Versions, a: SmallMove, b: SmallMove)
    ensures SmallAll(v, [a, b]) == Small(Small(v, a), b)
  {
    assert [a, b][1..] == [b] && [b][1..] == [];
    assert SmallAll(Small(v, a), [b]) == SmallAll(Small(Small(v, a), b), []);
  }

  lemma BumpsReconnect(v: Versions)
    ensures SmallAll(v, BUMPS) == Reconnected(v)
  {
    TwoSmallMoves(v, BumpTarget, BumpRuntime);
    var w := v.(target := v.target + 1, runtime := v.runtime + 1);
    TwoSmallMoves(w, BumpDom, BumpIndex);
    SmallMovesJoin(v, [BumpTarget, BumpRuntime], [BumpDom, BumpIndex]);
    assert BUMPS == [BumpTarget, BumpRuntime] + [BumpDom, BumpIndex];
  }

  /** Each move is these steps, one after the other. */
  lemma MovesAreSmallMoves(v: Versions, m: Move)
    ensures SmallAll(v, Steps(m)) == Apply(v, m)
  {
    BumpsReconnect(v);
    match m
    case Page(e) => TwoSmallMoves(v, DomSees(e), FramesSee(e));
    case CrashRecovery =>
      SmallMovesJoin(v, BUMPS, [BumpFrameTree, ResetFrames]);
      TwoSmallMoves(Reconnected(v), BumpFrameTree, ResetFrames);
    case SimulatedReconnect =>
      SmallMovesJoin(v, BUMPS, [ResetFrames]);
      assert [ResetFrames][1..] == [];
  }

  /** What a reset would revive: a reference of the current generation and DOM that was issued with frame version 0. */
  predicate Revivable(v: Versions, r: Stamp) { r.target == v.target && r.dom == v.dom && r.frameVersion == 0 }

  /** A stale reference is revived by no small move but a reset of the frames, and by that exactly when it is
      revivable. */
  lemma RevivedExactlyWhen(v: Versions, m: SmallMove, r: Stamp)
    requires Issued(v, r) && IsStale(v, r)
    ensures Issued(Small(v, m), r)
    ensures !IsStale(Small(v, m), r) <==> m == ResetFrames && Revivable(v, r)
  {
  }

  lemma {:induction false} OldGenerationsStayStale(v: Versions, moves: seq<SmallMove>, r: Stamp)
    requires r.target < v.target
    ensures IsStale(SmallAll(v, moves), r)
    decreases |moves|
  {
    if moves != [] { OldGenerationsStayStale(Small(v, moves[0]), moves[1..], r); }
  }

  /** Every reset comes after a new generation, as in both reconnects. */
  ghost predicate ResetsAreLate(moves: seq<SmallMove>) {
    forall i | 0 <= i < |moves| && moves[i] == ResetFrames :: exists j | 0 <= j < i :: moves[j] == BumpTarget
  }

  /** The latch holds through any interleaving of small moves, page events in the middle of a reconnect included: a
      reference that is stale stays stale, whoever looks at it when, so long as each reset comes after a new
      generation. */
  lemma {:induction false} StaleThroughInterleavings(v: Versions, moves: seq<SmallMove>, r: Stamp)
    requires Issued(v, r) && IsStale(v, r) && ResetsAreLate(moves)
    ensures IsStale(SmallAll(v, moves), r)
    decreases |moves|
  {
    if moves != [] {
      RevivedExactlyWhen(v, moves[0], r);
      if moves[0] == BumpTarget {
        OldGenerationsStayStale(Small(v, BumpTarget), moves[1..], r);
      } else {
        LaterResetsAreLate(moves);
        StaleThroughInterleavings(Small(v, moves[0]), moves[1..], r);
      }
    }
  }

  lemma LaterResetsAreLate(moves: seq<SmallMove>)
    requires moves != [] && ResetsAreLate(moves) && moves[0] != BumpTarget
    ensures ResetsAreLate(moves[1..])
  {
    forall i | 0 <= i < |moves[1..]| && moves[1..][i] == ResetFrames
      ensures exists j | 0 <= j < i :: moves[1..][j] == BumpTarget
    {
      assert moves[i + 1] == ResetFrames;
      var j :| 0 <= j < i + 1 && moves[j] == BumpTarget;
      assert moves[1..][j - 1] == BumpTarget;
    }
  }

  /** A reference issued in the middle of a reconnect has no such protection, whatever came before: one issued after
      the bumps, for a frame that has had no event, and made stale by that frame's first event, comes back to life at
      the reset. */
  lemma IssuedMidReconnectCanRevive(before: Versions, frame: string)
    requires frame != "" && frame !in before.frames
    ensures var v := SmallAll(before, BUMPS);
      var w := Small(v, FramesSee(FrameAttached(frame)));
      var r := Stamp(v.target, v.dom, frame, 0);
      && Issued(v, r) && !IsStale(v, r)
      && IsStale(w, r) && !IsStale(Small(w, ResetFrames), r)
  {
    BumpsReconnect(before);
    ResetRevives(SmallAll(before, BUMPS), frame);
  }

  lemma ResetRevives(v: Versions, frame: string)
    requires frame != "" && frame !in v.frames
    ensures var w := Small(v, FramesSee(FrameAttached(frame)));
      var r := Stamp(v.target, v.dom, frame, 0);
      && Issued(v, r) && !IsStale(v, r)
      && IsStale(w, r) && !IsStale(Small(w, ResetFrames), r)
  {
    var w := Small(v, FramesSee(FrameAttached(frame)));
    assert w == BumpForFrame(v, frame) && FrameVersion(w, frame) == v.frameTree + 1;
  }

  /** The reset on its own would revive a reference: the bumps before it are what the latch rests on. */
  lemma ResetAloneWouldRevive()
    ensures exists v, r :: FramesBounded(v) && Issued(v, r) && IsStale(v, r) && !IsStale(ClearFrames(v), r)
  {
    var v := OnEvent(InitialVersions(), FrameAttached("f"));
    var r := Stamp(0, 0, "f", 0);
    assert FramesBounded(v) && Issued(v, r) && IsStale(v, r) && !IsStale(ClearFrames(v), r);
  }

  // -- events and counters in plain terms ---------------------------------------------

  /** Which events make a fresh reference expire: those that change the document, and those of its own frame. */
  lemma ExpiresExactlyWhen(v: Versions, e: PageEvent, r: Stamp)
    requires FramesBounded(v) && !IsStale(v, r)
    ensures IsStale(OnEvent(v, e), r) <==> match e
      case ChildInserted(_, _) | ChildRemoved(_, _, _) | AttributeModified(_, _, _) | DocumentUpdated => true
      case FrameNavigated(frame, isMain) => isMain || (frame != "" && frame == r.frame)
      case FrameAttached(frame) => frame != "" && frame == r.frame
      case FrameDetached(frame) => frame != "" && frame == r.frame
      case Unrelated => false
  {
  }

  /** How many of these moves are of a kind. */
  function Count(moves: seq<Move>, kind: Move -> bool): nat {
    if moves == [] then 0 else (if kind(moves[0]) then 1 else 0) + Count(moves[1..], kind)
  }

  predicate Reconnects(m: Move) { m == CrashRecovery || m == SimulatedReconnect }

  predicate ReplacesPage(m: Move) { m.Page? && m.event == DocumentUpdated }

  predicate NavigatesMain(m: Move) { m.Page? && m.event.FrameNavigated? && m.event.isMain }

  predicate EditsPage(m: Move) {
    m.Page? && (m.event.ChildInserted? || m.event.ChildRemoved? || m.event.AttributeModified?)
  }

  predicate TouchesAFrame(m: Move) {
    m.Page? && (m.event.FrameAttached? || m.event.FrameNavigated? || m.event.FrameDetached?) && m.event.frame != ""
  }

  /** Each counter is a count, over any run: the document version of everything that changes the document, the index
      version of new documents, the frame version of frame events and crashes, the navigation generation of main-frame
      navigations, and the other two generations of reconnects. */
  lemma {:induction false} CountersCount(v: Versions, moves: seq<Move>)
    ensures var w := ApplyAll(v, moves);
      && w.dom == v.dom + Count(moves, EditsPage) + Count(moves, ReplacesPage) + Count(moves, NavigatesMain)
                  + Count(moves, Reconnects)
      && w.index == v.index + Count(moves, ReplacesPage) + Count(moves, Reconnects)
      && w.frameTree == v.frameTree + Count(moves, TouchesAFrame) + Count(moves, (m: Move) => m == CrashRecovery)
      && w.navigation == v.navigation + Count(moves, NavigatesMain)
      && w.target == v.target + Count(moves, Reconnects) && w.runtime == v.runtime + Count(moves, Reconnects)
    decreases |moves|
  {
    if moves != [] {
      OneMoveCounts(v, moves[0]);
      CountersCount(Apply(v, moves[0]), moves[1..]);
    }
  }

  lemma OneMoveCounts(v: Versions, m: Move)
    ensures var w := Apply(v, m);
      && w.dom == v.dom + (if EditsPage(m) || ReplacesPage(m) || NavigatesMain(m) || Reconnects(m) then 1 else 0)
      && w.index == v.index + (if ReplacesPage(m) || Reconnects(m) then 1 else 0)
      && w.frameTree == v.frameTree + (if TouchesAFrame(m) || m == CrashRecovery then 1 else 0)
      && w.navigation == v.navigation + (if NavigatesMain(m) then 1 else 0)
      && w.target == v.target + (if Reconnects(m) then 1 else 0)
      && w.runtime == v.runtime + (if Reconnects(m) then 1 else 0)
  {
    match m
    case Page(e) => match e { case DocumentUpdated => case FrameNavigated(_, _) => case _ => }
    case _ =>
  }

  // -- the owners themselves -------------------------------------------------

  /** `parent`, if any, has been added to the record, which was then cut to some 256 of its entries if that made it
      more than 512. */
  predicate Recorded(before: set<int>, parent: Option<int>, after: set<int>) {
    var all := before + match parent case Some(p) => {p} case None => {};
    |after| <= 512 && if |all| <= 512 then after == all else after <= all && |after| == 256
  }

  lemma NothingRecorded(before: set<int>)
    requires |before| <= 512
    ensures Recorded(before, None, before)
  {
    assert before + {} == before;
  }

  /** The authoritative counters and the bounded record of recently touched parents. */
  class DomState {
    var runtimeGeneration: nat
    var navigationGeneration: nat
    var domVersion: nat
    var elementIndexVersion: nat
    var frameTreeVersion: nat
    var targetGeneration: nat
    var affectedParents: set<int>

    constructor ()
      ensures Counters(map[]) == InitialVersions() && affectedParents == {}
    {
      runtimeGeneration, navigationGeneration, domVersion := 0, 0, 0;
      elementIndexVersion, frameTreeVersion, targetGeneration := 0, 0, 0;
      affectedParents := {};
    }

    function Counters(frames: map<string, nat>): Versions
      reads this
    {
      Versions(domVersion, elementIndexVersion, frameTreeVersion, targetGeneration, runtimeGeneration,
          navigationGeneration, frames)
    }

    /** Adds a parent, then drops an arbitrary subset if more than 512 are held. */
    method Affect(parent: int)
      requires |affectedParents| <= 512
      modifies this`affectedParents
      ensures Recorded(old(affectedParents), Some(parent), affectedParents)
    {
      affectedParents := affectedParents + {parent};
      ghost var all := affectedParents;
      if |affectedParents| > 512 {
        while |affectedParents| > 256
          invariant 256 <= |affectedParents| && affectedParents <= all
          decreases |affectedParents|
        {
          assert (forall p :: p !in affectedParents) ==> affectedParents == {};
          var p :| p in affectedParents;
          affectedParents := affectedParents - {p};
        }
      }
    }

    /** Records the node an event touches, if it names one. */
    method Touch(node: Option<int>)
      requires |affectedParents| <= 512
      modifies this`affectedParents
      ensures Recorded(old(affectedParents), node, affectedParents)
    {
      if node.Some? { Affect(node.value); } else { NothingRecorded(affectedParents); }
    }

    method MoveCounters(e: PageEvent)
      modifies this`domVersion, this`elementIndexVersion, this`navigationGeneration
      ensures forall frames :: Counters(frames) == DomOnEvent(old(Counters(frames)), e)
    {
      match e {
        case DocumentUpdated => domVersion, elementIndexVersion := domVersion + 1, elementIndexVersion + 1;
        case ChildInserted(_, _) | ChildRemoved(_, _, _) | AttributeModified(_, _, _) => domVersion := domVersion + 1;
        case FrameNavigated(_, isMain) =>
          if isMain {
            navigationGeneration := navigationGeneration + 1;
            domVersion := domVersion + 1;
          }
        case _ =>
      }
    }

    method OnEvent(e: PageEvent)
      requires |affectedParents| <= 512
      modifies this
      ensures forall frames :: Counters(frames) == DomOnEvent(old(Counters(frames)), e)
      ensures match e
        case DocumentUpdated => affectedParents == {}
        case ChildInserted(parent, _) => Recorded(old(affectedParents), parent, affectedParents)
        case ChildRemoved(parent, _, _) => Recorded(old(affectedParents), parent, affectedParents)
        case AttributeModified(node, _, _) => Recorded(old(affectedParents), node, affectedParents)
        case _ => Recorded(old(affectedParents), None, affectedParents)
    {
      MoveCounters(e);
      if e.DocumentUpdated? { affectedParents := {}; } else { Touch(TouchedNode(e)); }
    }

    method OnReconnected() returns (newTarget: nat, newConnection: nat)
      modifies this
      ensures forall frames :: Counters(frames) == Reconnected(old(Counters(frames)))
      ensures newTarget == targetGeneration && newConnection == runtimeGeneration && affectedParents == {}
    {
      targetGeneration := targetGeneration + 1;
      runtimeGeneration := runtimeGeneration + 1;
      domVersion := domVersion + 1;
      elementIndexVersion := elementIndexVersion + 1;
      affectedParents := {};
      newTarget, newConnection := targetGeneration, runtimeGeneration;
    }
  }

  /** Per-frame versions over a shared DomState. */
  class FrameManager {
    const domState: DomState
    var frameVersions: map<string, nat>

    constructor (domState: DomState)
      ensures this.domState == domState && frameVersions == map[]
    {
      this.domState := domState;
      frameVersions := map[];
    }

    function View(): Versions
      reads this, domState
    {
      domState.Counters(frameVersions)
    }

    method BumpFrame(frame: string) returns (newGlobal: nat)
      modifies this, domState`frameTreeVersion
      ensures View() == BumpForFrame(old(View()), frame) && newGlobal == domState.frameTreeVersion
    {
      domState.frameTreeVersion := domState.frameTreeVersion + 1;
      newGlobal := domState.frameTreeVersion;
      frameVersions := frameVersions[frame := newGlobal];
    }

    method OnEvent(e: PageEvent)
      modifies this, domState`frameTreeVersion
      ensures View() == FramesOnEvent(old(View()), e)
    {
      match e {
        case FrameAttached(frame) => if frame != "" { var _ := BumpFrame(frame); }
        case FrameNavigated(frame, _) => if frame != "" { var _ := BumpFrame(frame); }
        case FrameDetached(frame) => if frame != "" { var _ := BumpFrame(frame); }
        case _ =>
      }
    }

    method HandleReconnect(newGlobal: nat)
      modifies this
      ensures View() == ClearFrames(old(View()))
    {
      frameVersions := map[];
    }
  }
}
