/** Executing one step and a plan of steps: the action state machine under cancellation, three inner
    deadlines and an overall deadline that can fire at any await. */
module Executor {
  import opened Actions
  import opened Bounded
  import opened Dispatching
  import opened Wrappers

  // -- everything outside the executor's control ---------------------------------

  datatype ResolveEvent =
    | ResolveCut           // the overall deadline fires while resolving
    | ResolveDeadline      // the resolution deadline fires
    | ResolveError         // stale, ambiguous, not found, timed out call
    | ResolvePanics        // resolving or recovering panics
    | ResolvedElement      // an element of the index
    | ResolvedOther        // a visual target, or no target needed

  datatype DispatchEvent =
    | DispatchCut          // the overall deadline fires while dispatching
    | DispatchDeadline     // the dispatch deadline fires
    | DispatchPanics       // for a wait of negative length
    | DispatchMakes(calls: seq<Call>)

  /** How the dispatch call came out for the executor. */
  datatype DispatchResult = NoResult | ErrorResult(error: CallError) | OkResult

  /** An error that is taken for the browser's answer. */
  predicate Refused(r: DispatchResult) {
    r in {ErrorResult(Rejected), ErrorResult(BadReply), ErrorResult(NothingToDo)}
  }

  function ResultOf(d: DispatchEvent): DispatchResult {
    match d
    case DispatchMakes(calls) => (match Failure(calls) case Some(error) => ErrorResult(error) case None => OkResult)
    case _ => NoResult
  }

  datatype VerifyEvent = VerifyCut | VerifyDeadline | VerifyError | VerifyOk(result: Verification)

  /** One possible course of events around a step. The `cancel` fields are what the five reads of the
      cancellation token return; `cut` fields say the overall deadline fires at that await. */
  datatype Script = Script(
    cancelResolving: bool,
    resolveDelay: bool, resolveDelayCut: bool, cancelAfterDelay: bool,
    resolution: ResolveEvent,
    cancelBeforeResolved: bool, cancelResolved: bool,
    interactable: bool, snapshotFresh: bool,
    cancelChecked: bool,
    hook: bool, freshAfterHook: bool,
    dispatchDelay: bool, dispatchDelayCut: bool, urlCut: bool,
    dispatch: DispatchEvent, verify: VerifyEvent)

  // -- what a course of events must end in ----------------------------------------

  predicate ResolutionSucceeds(s: Script) { s.resolution == ResolvedElement || s.resolution == ResolvedOther }

  predicate ElementUnfit(s: Script) { s.resolution == ResolvedElement && (!s.interactable || !s.snapshotFresh) }

  predicate ElementUnfitAfterHook(s: Script) { s.resolution == ResolvedElement && s.hook && !s.freshAfterHook }

  /** The state that ends the step before anything is dispatched, if one does. */
  function EndsBeforeDispatch(s: Script): Option<ActionState> {
    if s.cancelResolving then Some(Cancelled)
    else if s.resolveDelay && s.resolveDelayCut then Some(Failed)
    else if s.resolveDelay && s.cancelAfterDelay then Some(Cancelled)
    else if !ResolutionSucceeds(s) then Some(Failed)
    else if s.cancelBeforeResolved || s.cancelResolved then Some(Cancelled)
    else if ElementUnfit(s) then Some(Failed)
    else if s.cancelChecked then Some(Cancelled)
    else if ElementUnfitAfterHook(s) then Some(Failed)
    else None
  }

  /** The dispatch call itself begins. */
  predicate Sent(s: Script) {
    EndsBeforeDispatch(s) == None && !(s.dispatchDelay && s.dispatchDelayCut) && !s.urlCut
  }

  predicate PanicsResolving(s: Script) {
    !s.cancelResolving && !(s.resolveDelay && (s.resolveDelayCut || s.cancelAfterDelay))
        && s.resolution == ResolvePanics
  }

  /** The step never ends: it unwinds, with no record returned and none journaled. */
  predicate Panics(s: Script) { PanicsResolving(s) || (Sent(s) && s.dispatch == DispatchPanics) }

  /** The guard of the code for an unknown end. */
  predicate NoClearAnswer(s: Script) {
    || (s.dispatchDelay && s.dispatchDelayCut) || s.urlCut
    || s.dispatch in {DispatchCut, DispatchDeadline}
    || ResultOf(s.dispatch) in {ErrorResult(RuntimeDead), ErrorResult(CallTimeout)}
    || (ResultOf(s.dispatch) == OkResult && s.verify == VerifyCut)
  }

  /** Some deadline, inner or overall, fires once the step is being dispatched or verified. */
  predicate LateDeadline(s: Script) {
    || (s.dispatchDelay && s.dispatchDelayCut) || s.urlCut || s.dispatch in {DispatchCut, DispatchDeadline}
    || (ResultOf(s.dispatch) == OkResult && s.verify in {VerifyCut, VerifyDeadline})
  }

  function EndsAfterDispatch(s: Script, changing: bool): ActionState {
    if NoClearAnswer(s) then (if changing then Unknown else Failed)
    else if ResultOf(s.dispatch) != OkResult then Failed
    else match s.verify
      case VerifyOk(IsVerified) => Completed
      case VerifyOk(IsContradicted) => Contradicted
      case _ => Inconclusive
  }

  /** The overall deadline fires while the step is in this state. */
  predicate CutAt(s: Script, state: ActionState) {
    && !Panics(s)
    && if state == Resolving then EndsBeforeDispatch(s) == Some(Failed)
       else state in {Dispatching, Verifying} && EndsBeforeDispatch(s) == None && NoClearAnswer(s)
  }

  /** The state a step ends in, None if it panics. */
  function EndState(s: Script, changing: bool): Option<ActionState> {
    if Panics(s) then None else Some(EndsBeforeDispatch(s).GetOr(EndsAfterDispatch(s, changing)))
  }

  // -- what the executor can know of the effect ----------------------------------

  /** A deadline ends the dispatch before it is through. */
  predicate Interrupted(s: Script) { Sent(s) && s.dispatch in {DispatchCut, DispatchDeadline} }

  /** This call is made while the step is dispatched. */
  predicate Calls(s: Script, c: Call) {
    Sent(s) && s.dispatch.DispatchMakes? && c in Made(s.dispatch.calls)
  }

  /** The dispatch may have acted on the page, and no readable answer says whether it did. */
  ghost predicate EffectUncertain(s: Script) { Interrupted(s) || exists c :: Calls(s, c) && c.acts && Unanswered(c) }

  /** Whatever went unanswered stays hidden from the executor, or reads as an answer: its error was discarded, or a
      reply came that could not be decoded. */
  ghost predicate LossHidden(s: Script) {
    !Interrupted(s) && forall c | Calls(s, c) && Unanswered(c) :: !c.checked || c.error == Some(BadReply)
  }

  /** A call that does not act was lost, and ended the dispatch. */
  ghost predicate QuestionLost(s: Script) { exists c :: Calls(s, c) && !c.acts && c.checked && Lost(c) }

  /** The overall deadline drops the step past dispatch, but not during the dispatch call. */
  predicate DroppedOutsideTheCall(s: Script) {
    EndsBeforeDispatch(s) == None && (!Sent(s) || (ResultOf(s.dispatch) == OkResult && s.verify == VerifyCut))
  }

  predicate ReachesResolved(s: Script) {
    && !s.cancelResolving && !(s.resolveDelay && (s.resolveDelayCut || s.cancelAfterDelay))
    && ResolutionSucceeds(s) && !s.cancelBeforeResolved
  }

  /** The one cancellation the transition table has no edge for: seen right after resolving. */
  predicate CancelsAtResolved(s: Script) { ReachesResolved(s) && s.cancelResolved }

  // -- trails -----------------------------------------------------------------

  /** The states passed through follow the table, with the edge from Resolved to Cancelled allowed. */
  predicate Trail(t: seq<ActionState>) {
    t != [] && t[0] == Accepted && Edges(t)
  }

  predicate Edges(t: seq<ActionState>) {
    forall i | 0 <= i < |t| - 1 :: AllowedEdge(t[i], t[i + 1])
  }

  predicate FollowsTable(t: seq<ActionState>) {
    forall i | 0 <= i < |t| - 1 :: CanTransition(t[i], t[i + 1])
  }

  predicate AllowedEdge(a: ActionState, b: ActionState) {
    CanTransition(a, b) || (a == Resolved && b == Cancelled)
  }

  /** How far along a state is. */
  function Progress(s: ActionState): nat {
    match s
    case Accepted => 0 case Resolving => 1 case Resolved => 2 case PreconditionCheck => 3
    case Dispatching => 4 case Dispatched => 5 case Verifying => 6
    case _ => 7
  }

  /** No step goes back: along a trail progress only grows, so no state comes twice and a trail is at most eight
      states long. */
  lemma {:induction false} TrailsOnlyGoForward(t: seq<ActionState>, i: nat, j: nat)
    requires Edges(t) && i < j < |t|
    ensures Progress(t[i]) + (j - i) <= Progress(t[j]) <= 7
  {
    assert AllowedEdge(t[j - 1], t[j - 1 + 1]);
    if i < j - 1 { TrailsOnlyGoForward(t, i, j - 1); }
  }

  /** The trail one state further on. */
  ghost function Went(t: seq<ActionState>, next: ActionState): (u: seq<ActionState>)
    requires t != []
    ensures |u| == |t| + 1 && u[|u| - 1] == next
    ensures FollowsTable(u) <==> FollowsTable(t) && CanTransition(t[|t| - 1], next)
    ensures Edges(u) <==> Edges(t) && AllowedEdge(t[|t| - 1], next)
    ensures u[0] == t[0]
    ensures Dispatching in u <==> Dispatching in t || next == Dispatching
  {
    var u := t + [next];
    assert forall i | 0 <= i < |t| :: u[i] == t[i];
    assert FollowsTable(u) ==> forall i | 0 <= i < |t| - 1 :: CanTransition(u[i], u[i + 1]);
    assert Edges(u) ==> forall i | 0 <= i < |t| - 1 :: AllowedEdge(u[i], u[i + 1]);
    assert u[|t| - 1] == t[|t| - 1] && u[|t| - 1 + 1] == next;
    u
  }

  /** State, outcome and verification tell the same story. */
  predicate Coherent(r: ActionRecord) {
    && r.completed
    && (match r.state
        case Completed => r.outcome == Ok(IsVerified) && r.verification == Some(IsVerified)
        case Contradicted => r.outcome == Ok(IsContradicted) && r.verification == Some(IsContradicted)
        case Inconclusive => r.outcome == Ok(IsInconclusive) && r.verification == Some(IsInconclusive)
        case Unknown => r.outcome == FailedOutcome && r.verification == Some(IsInconclusive)
        case _ => r.outcome == FailedOutcome && r.verification == None)
  }

  // -- plans --------------------------------------------------------------------

  /** `cancelSeen` is what the plan loop reads from the cancellation token before this step. */
  datatype PlannedStep = PlannedStep(script: Script, changing: bool, cancelSeen: bool)

  /** Some record already made the rest of the plan be skipped. */
  predicate SkipsFrom(records: seq<ActionRecord>) {
    exists i | 0 <= i < |records| :: ShouldCascadeSkip(records[i].outcome)
  }

  /** A cancellation is noticed between steps; before the first step nobody looks. */
  predicate CancelledBetween(steps: seq<PlannedStep>, i: nat) { 0 < i < |steps| && steps[i].cancelSeen }

  predicate StepFollowed(steps: seq<PlannedStep>, i: nat, before: seq<ActionRecord>, r: ActionRecord)
    requires i < |steps|
  {
    if SkipsFrom(before) then
      r.state == Cancelled && r.outcome == SkippedOutcome && r.verification == Some(IsInconclusive)
    else if CancelledBetween(steps, i) then r.state == Cancelled && Coherent(r)
    else Some(r.state) == EndState(steps[i].script, steps[i].changing) && Coherent(r)
  }

  predicate PlanFollowed(steps: seq<PlannedStep>, records: seq<ActionRecord>)
    requires |records| == |steps|
  {
    forall i | 0 <= i < |steps| :: StepFollowed(steps, i, records[..i], records[i])
  }

  /** The steps that were executed, each once and in order: not skipped, and no cancellation was seen. */
  predicate RanExactly(steps: seq<PlannedStep>, records: seq<ActionRecord>, ran: seq<nat>) {
    && (forall a, b | 0 <= a < b < |ran| :: ran[a] < ran[b])
    && (forall i | i in ran :: i < |records|)
    && (forall i: nat | i < |records| :: i in ran <==> !SkipsFrom(records[..i]) && !CancelledBetween(steps, i))
  }

  /** One record per step, in order, each finished. */
  predicate InOrder(records: seq<ActionRecord>) {
    forall i | 0 <= i < |records| :: records[i].stepIndex == i && IsTerminal(records[i].state)
  }

  /** The step that comes after these records is attempted and panics. */
  predicate PanicsNext(steps: seq<PlannedStep>, records: seq<ActionRecord>) {
    && |records| < |steps| && !SkipsFrom(records) && !CancelledBetween(steps, |records|)
    && Panics(steps[|records|].script)
  }

  lemma RanNoMore(steps: seq<PlannedStep>, records: seq<ActionRecord>, ran: seq<nat>, r: ActionRecord)
    requires RanExactly(steps, records, ran)
    requires SkipsFrom(records) || CancelledBetween(steps, |records|)
    ensures RanExactly(steps, records + [r], ran)
  {
    var more := records + [r];
    assert more[..|records|] == records;
    assert forall i: nat | i < |records| :: more[..i] == records[..i];
  }

  lemma RanOneMore(steps: seq<PlannedStep>, records: seq<ActionRecord>, ran: seq<nat>, r: ActionRecord)
    requires RanExactly(steps, records, ran)
    requires !SkipsFrom(records) && !CancelledBetween(steps, |records|)
    ensures RanExactly(steps, records + [r], ran + [|records|])
  {
    var more := records + [r];
    assert forall a | 0 <= a < |ran| :: ran[a] in ran;
    assert more[..|records|] == records;
    assert forall i: nat | i < |records| :: more[..i] == records[..i];
  }

  lemma OneStepMore(steps: seq<PlannedStep>, records: seq<ActionRecord>, r: ActionRecord, maxEntries: nat,
      journaled: seq<ActionRecord>)
    requires |records| < |steps| && PlanFollowed(steps[..|records|], records)
    requires StepFollowed(steps, |records|, records, r)
    ensures PlanFollowed(steps[..|records| + 1], records + [r])
    ensures SkipsFrom(records + [r]) <==> SkipsFrom(records) || ShouldCascadeSkip(r.outcome)
    ensures AppendedAll(maxEntries, journaled, records + [r])
        == Appended(maxEntries, AppendedAll(maxEntries, journaled, records), r)
  {
    var n := |records|;
    var sofar, more := steps[..n + 1], records + [r];
    assert more[..n] == records;
    forall i | 0 <= i <= n ensures StepFollowed(sofar, i, more[..i], more[i]) {
      if i < n {
        assert more[..i] == records[..i] && StepFollowed(steps[..n], i, records[..i], records[i]);
      }
    }
    assert forall i | 0 <= i < n :: more[i] == records[i];
    assert more[n] == r;
  }

  lemma StepDone(steps: seq<PlannedStep>, records: seq<ActionRecord>, r: ActionRecord, ran: seq<nat>, maxEntries: nat,
      journaled: seq<ActionRecord>) returns (more: seq<nat>)
    requires |records| < |steps| && PlanFollowed(steps[..|records|], records)
    requires StepFollowed(steps, |records|, records, r) && RanExactly(steps, records, ran)
    requires InOrder(records) && r.stepIndex == |records| && IsTerminal(r.state)
    ensures PlanFollowed(steps[..|records| + 1], records + [r]) && RanExactly(steps, records + [r], more)
    ensures InOrder(records + [r])
    ensures more == ran + if SkipsFrom(records) || CancelledBetween(steps, |records|) then [] else [|records|]
    ensures SkipsFrom(records + [r]) <==> SkipsFrom(records) || ShouldCascadeSkip(r.outcome)
    ensures AppendedAll(maxEntries, journaled, records + [r])
        == Appended(maxEntries, AppendedAll(maxEntries, journaled, records), r)
  {
    OneStepMore(steps, records, r, maxEntries, journaled);
    if SkipsFrom(records) || CancelledBetween(steps, |records|) {
      more := ran;
      RanNoMore(steps, records, ran, r);
    } else {
      more := ran + [|records|];
      RanOneMore(steps, records, ran, r);
    }
  }

  /** A followed plan has at most one record that starts the skipping, nothing inconclusive is among them,
      and the skipped records are exactly those after it. */
  lemma OneStepAtMostStopsThePlan(steps: seq<PlannedStep>, records: seq<ActionRecord>, i: nat, j: nat)
    requires |records| == |steps| && PlanFollowed(steps, records) && i < j < |records|
    ensures ShouldCascadeSkip(records[i].outcome)
        ==> records[j].outcome == SkippedOutcome && !ShouldCascadeSkip(records[j].outcome)
    ensures records[j].outcome == SkippedOutcome <==> SkipsFrom(records[..j])
    ensures (records[j].outcome != SkippedOutcome) ==>
      (ShouldCascadeSkip(records[j].outcome) <==> records[j].state !in {Completed, Inconclusive})
  {
    assert StepFollowed(steps, j, records[..j], records[j]);
    if ShouldCascadeSkip(records[i].outcome) { assert records[..j][i] == records[i]; }
    if !Panics(steps[j].script) { EndsTellTheTruth(steps[j].script, steps[j].changing); }
  }

  /** The guard of the code is met by a dispatch exactly when it is interrupted or a call it checks is lost. */
  lemma LossIsReportedExactlyWhen(s: Script)
    requires Sent(s) && !Panics(s)
    ensures ResultOf(s.dispatch) in {ErrorResult(RuntimeDead), ErrorResult(CallTimeout)}
      <==> exists c :: Calls(s, c) && c.checked && Lost(c)
  {
    if s.dispatch.DispatchMakes? {
      FailureComesFrom(s.dispatch.calls, RuntimeDead);
      FailureComesFrom(s.dispatch.calls, CallTimeout);
      if c :| Calls(s, c) && c.checked && Lost(c) { assert c in Made(s.dispatch.calls); }
      if Failure(s.dispatch.calls) == Some(RuntimeDead) {
        var c :| c in Made(s.dispatch.calls) && c.checked && c.error == Some(RuntimeDead);
        assert Calls(s, c) && c.checked && Lost(c);
      }
      if Failure(s.dispatch.calls) == Some(CallTimeout) {
        var c :| c in Made(s.dispatch.calls) && c.checked && c.error == Some(CallTimeout);
        assert Calls(s, c) && c.checked && Lost(c);
      }
    }
  }

  /** What the executor knows and what is uncertain: they agree but for losses that stay hidden and for lost
      questions. */
  lemma ReportedExactlyWhen(s: Script)
    requires Sent(s) && !Panics(s)
    ensures Interrupted(s) || (exists c :: Calls(s, c) && c.checked && Lost(c))
      <==> (EffectUncertain(s) && !LossHidden(s)) || QuestionLost(s)
  {
    if !Interrupted(s) {
      if c :| Calls(s, c) && c.checked && Lost(c) {
        assert Unanswered(c);
        if c.acts { assert EffectUncertain(s) && !LossHidden(s); } else { assert QuestionLost(s); }
      }
      if !LossHidden(s) {
        var c :| Calls(s, c) && Unanswered(c) && c.checked && c.error != Some(BadReply);
        assert Calls(s, c) && c.checked && Lost(c);
      }
    }
  }

  /** What the end of a step says about its dispatch. A changing step whose effect is uncertain ends Unknown exactly
      when the loss is not hidden from the executor. Unknown is said besides only when a call that does not act was
      lost, or when the overall deadline drops the step past dispatch but outside the call. A step cut by a deadline
      after its dispatch began never reads as a clean failure. */
  lemma EndsTellTheTruth(s: Script, changing: bool)
    requires !Panics(s)
    ensures var end := EndState(s, changing).value;
      && IsTerminal(end)
      && (end == Cancelled ==> EndsBeforeDispatch(s) == Some(Cancelled))
      && (end == Unknown <==>
            (changing && ((EffectUncertain(s) && !LossHidden(s)) || QuestionLost(s) || DroppedOutsideTheCall(s))))
      && (changing && EndsBeforeDispatch(s) == None && LateDeadline(s) ==> end in {Unknown, Inconclusive})
      && (changing && EndsBeforeDispatch(s) == None ==>
            (end == Failed <==> Sent(s) && Refused(ResultOf(s.dispatch))))
  {
    if Sent(s) {
      LossIsReportedExactlyWhen(s);
      ReportedExactlyWhen(s);
    }
    UnknownExactlyWhen(s, changing);
    EndsCleanly(s, changing);
  }

  lemma UnknownExactlyWhen(s: Script, changing: bool)
    requires !Panics(s)
    ensures EndState(s, changing) == Some(Unknown) <==>
      (changing && (DroppedOutsideTheCall(s) || Interrupted(s)
                    || (Sent(s) && ResultOf(s.dispatch) in {ErrorResult(RuntimeDead), ErrorResult(CallTimeout)})))
  {
  }

  lemma EndsCleanly(s: Script, changing: bool)
    requires !Panics(s)
    ensures var end := EndState(s, changing).value;
      && IsTerminal(end)
      && (end == Cancelled ==> EndsBeforeDispatch(s) == Some(Cancelled))
      && (changing && EndsBeforeDispatch(s) == None && LateDeadline(s) ==> end in {Unknown, Inconclusive})
      && (changing && EndsBeforeDispatch(s) == None ==>
            (end == Failed <==> Sent(s) && Refused(ResultOf(s.dispatch))))
  {
    match ResultOf(s.dispatch) {
      case ErrorResult(error) =>
        match error { case RuntimeDead => case CallTimeout => case Rejected => case BadReply => case NothingToDo => }
      case _ =>
    }
  }

  // -- a step in terms of its script alone ----------------------------------------------

  /** The element found may not be acted on: not interactable, not fresh, or no longer fresh after a hook. */
  predicate Unfit(s: Script) {
    s.resolution == ResolvedElement && (!s.interactable || !s.snapshotFresh || (s.hook && !s.freshAfterHook))
  }

  /** Nothing interrupts the step before it knows what it resolved to. */
  predicate Resolves(s: Script) {
    && !s.cancelResolving && (s.resolveDelay ==> !s.resolveDelayCut && !s.cancelAfterDelay)
    && (s.resolution == ResolvedElement || s.resolution == ResolvedOther)
  }

  /** Which steps get as far as dispatching, which are cancelled before, and which fail before. */
  lemma BeforeDispatchInPlainTerms(s: Script)
    ensures EndsBeforeDispatch(s) == None
      <==> Resolves(s) && !s.cancelBeforeResolved && !s.cancelResolved && !s.cancelChecked && !Unfit(s)
    ensures EndsBeforeDispatch(s) == Some(Cancelled) <==> (
      || s.cancelResolving || (s.resolveDelay && !s.resolveDelayCut && s.cancelAfterDelay)
      || (Resolves(s) && (s.cancelBeforeResolved || s.cancelResolved))
      || (Resolves(s) && s.cancelChecked && (s.resolution == ResolvedElement ==> s.interactable && s.snapshotFresh)))
    ensures EndsBeforeDispatch(s) in {None, Some(Cancelled), Some(Failed)}
  {
  }

  /** A step that fails before dispatch was cut or found nothing to resolve to, or its element is unfit. */
  lemma FailsBeforeDispatchOnlyWhen(s: Script)
    requires EndsBeforeDispatch(s) == Some(Failed)
    ensures || (s.resolveDelay && s.resolveDelayCut)
            || s.resolution in {ResolveCut, ResolveDeadline, ResolveError, ResolvePanics}
            || Unfit(s)
  {
  }

  /** An unfit element is never acted on. The step fails, unless a cancellation is seen before the test it fails. */
  lemma UnfitElementsAreNeverActedOn(s: Script, changing: bool)
    requires Unfit(s)
    ensures !Panics(s) && EndsBeforeDispatch(s) == EndState(s, changing)
    ensures EndState(s, changing) == Some(
      if s.cancelResolving then Cancelled
      else if s.resolveDelay && s.resolveDelayCut then Failed
      else if (s.resolveDelay && s.cancelAfterDelay) || s.cancelBeforeResolved || s.cancelResolved then Cancelled
      else if s.interactable && s.snapshotFresh && s.cancelChecked then Cancelled
      else Failed)
  {
  }

  /** A step panics exactly when it gets as far as a resolution or a dispatch that does. */
  lemma PanicsInPlainTerms(s: Script)
    ensures Panics(s) <==> (
      || (s.resolution == ResolvePanics && !s.cancelResolving
          && (s.resolveDelay ==> !s.resolveDelayCut && !s.cancelAfterDelay))
      || (s.dispatch == DispatchPanics && Resolves(s) && !s.cancelBeforeResolved && !s.cancelResolved
          && !s.cancelChecked && !Unfit(s) && (s.dispatchDelay ==> !s.dispatchDelayCut) && !s.urlCut))
  {
  }

  lemma {:induction false} NoFailureExactlyWhen(calls: seq<Call>)
    ensures Failure(calls) == None <==> forall c | c in calls :: c.checked ==> c.error == None
  {
    if calls != [] {
      NoFailureExactlyWhen(calls[1..]);
      assert calls == [calls[0]] + calls[1..];
    }
  }

  /** The step gets as far as verifying: nothing ends it before dispatch, no deadline ends the dispatch, and no call
      whose error counts fails. */
  predicate GetsVerified(s: Script) {
    && Resolves(s) && !s.cancelBeforeResolved && !s.cancelResolved && !s.cancelChecked && !Unfit(s)
    && (s.dispatchDelay ==> !s.dispatchDelayCut) && !s.urlCut && s.dispatch.DispatchMakes?
    && forall c | c in s.dispatch.calls :: c.checked ==> c.error == None
  }

  /** A step that gets verified ends as its verification says, and no other step ends that way. */
  lemma EndsAsVerifiedExactlyWhen(s: Script, changing: bool)
    ensures EndState(s, changing) == Some(Completed) <==> GetsVerified(s) && s.verify == VerifyOk(IsVerified)
    ensures EndState(s, changing) == Some(Contradicted) <==> GetsVerified(s) && s.verify == VerifyOk(IsContradicted)
    ensures EndState(s, changing) == Some(Inconclusive)
      <==> GetsVerified(s) && s.verify in {VerifyOk(IsInconclusive), VerifyDeadline, VerifyError}
    ensures !changing ==> EndState(s, changing) != Some(Unknown)
  {
    BeforeDispatchInPlainTerms(s);
    if s.dispatch.DispatchMakes? { NoFailureExactlyWhen(s.dispatch.calls); }
    EndsAsVerifiedOrNot(s, changing);
  }

  lemma EndsAsVerifiedOrNot(s: Script, changing: bool)
    ensures EndsBeforeDispatch(s) in {None, Some(Cancelled), Some(Failed)}
    ensures var reached := Sent(s) && ResultOf(s.dispatch) == OkResult;
      && (EndState(s, changing) == Some(Completed) <==> reached && s.verify == VerifyOk(IsVerified))
      && (EndState(s, changing) == Some(Contradicted) <==> reached && s.verify == VerifyOk(IsContradicted))
      && (EndState(s, changing) == Some(Inconclusive)
          <==> reached && s.verify in {VerifyOk(IsInconclusive), VerifyDeadline, VerifyError})
      && (!changing ==> EndState(s, changing) != Some(Unknown))
  {
    match s.verify
    case VerifyOk(found) => match found { case IsVerified => case IsContradicted => case IsInconclusive => }
    case _ =>
  }

  /** The record of a step stops the plan. */
  predicate Stops(r: ActionRecord) { r.state !in {Completed, Inconclusive} }

  lemma SkipsExactlyWhenStopped(steps: seq<PlannedStep>, records: seq<ActionRecord>, i: nat)
    requires |records| == |steps| && PlanFollowed(steps, records) && i <= |records|
    ensures SkipsFrom(records[..i]) <==> exists j | 0 <= j < i :: Stops(records[j])
  {
    forall j | 0 <= j < i ensures Stops(records[j]) ==> SkipsFrom(records[..i]) {
      assert StepFollowed(steps, j, records[..j], records[j]);
      if SkipsFrom(records[..j]) {
        var k :| 0 <= k < j && ShouldCascadeSkip(records[..j][k].outcome);
        assert records[..i][k] == records[k];
      } else {
        assert records[..i][j] == records[j];
      }
    }
    if SkipsFrom(records[..i]) {
      var k :| 0 <= k < i && ShouldCascadeSkip(records[..i][k].outcome);
      assert StepFollowed(steps, k, records[..k], records[k]);
      assert Stops(records[k]);
    }
  }

  /** What a plan records of each step: once one has not completed or stayed inconclusive, every later one is skipped;
      until then a cancellation seen between steps ends one unexecuted, and any other ends as its course demands. */
  lemma PlansInPlainTerms(steps: seq<PlannedStep>, records: seq<ActionRecord>, i: nat)
    requires |records| == |steps| && PlanFollowed(steps, records) && i < |records|
    ensures var r, stopped := records[i], exists j | 0 <= j < i :: Stops(records[j]);
      && (r.outcome == SkippedOutcome <==> stopped)
      && (stopped ==> r.state == Cancelled)
      && (!stopped && i > 0 && steps[i].cancelSeen ==> r.state == Cancelled && r.outcome == FailedOutcome)
      && (!stopped && !(i > 0 && steps[i].cancelSeen) ==> Some(r.state) == EndState(steps[i].script, steps[i].changing))
  {
    SkipsExactlyWhenStopped(steps, records, i);
    assert StepFollowed(steps, i, records[..i], records[i]);
  }

  // -- losses that stay hidden ----------------------------------------------------

  /** A loss is hidden in two ways only: the reply of a call that acts could not be decoded, or the step is of a kind
      that discards the error of one: a key press, or typing with a submit. */
  lemma LossesAreHiddenOnlyWhen(s: Script, k: StepKind)
    requires s.dispatch.DispatchMakes? && Fits(k, s.dispatch.calls) && EffectUncertain(s) && LossHidden(s)
    ensures Discards(k) || exists c :: Calls(s, c) && c.acts && c.checked && c.error == Some(BadReply)
  {
    var c :| Calls(s, c) && c.acts && Unanswered(c);
    if !c.checked { MadeFit(k, s.dispatch.calls, c); }
  }

  /** The other way round, Unknown is said of a step that has not acted only when it is a click on a node whose lookup
      was lost, or reads from the page. */
  lemma QuestionsAreLostOnlyWhen(s: Script, k: StepKind)
    requires s.dispatch.DispatchMakes? && Fits(k, s.dispatch.calls) && QuestionLost(s) && Changes(k)
    ensures k in {ClickNode, Extract}
  {
    var c :| Calls(s, c) && !c.acts && c.checked && Lost(c);
    MadeAreAmong(s.dispatch.calls, c);
    var i :| 0 <= i < |s.dispatch.calls| && s.dispatch.calls[i] == c;
    assert !Shape(k)[i].acts && Shape(k)[i].checked;
  }

  /** The first way: the page may have acted, nobody can tell, and the step reads as a failure. */
  lemma UndecodableReplyReadsAsFailure(s: Script, c: Call)
    requires Calls(s, c) && c.acts && c.checked && c.error == Some(BadReply)
    ensures !Panics(s) && EffectUncertain(s) && EndState(s, true) == Some(Failed)
  {
    FailureComesFrom(s.dispatch.calls, BadReply);
  }

  /** The second way: a step ends the same whatever became of the calls whose errors are discarded. */
  lemma DiscardedErrorsChangeNothing(s: Script, calls: seq<Call>, changing: bool)
    requires s.dispatch.DispatchMakes? && SameChecked(s.dispatch.calls, calls)
    ensures EndState(s.(dispatch := DispatchMakes(calls)), changing) == EndState(s, changing)
  {
    DiscardedErrorsDoNotFail(s.dispatch.calls, calls);
    var t := s.(dispatch := DispatchMakes(calls));
    assert ResultOf(t.dispatch) == ResultOf(s.dispatch) && EndsBeforeDispatch(t) == EndsBeforeDispatch(s);
  }

  /** So a key press on a dead connection, or one that dies under it, reads as done: verifying a press says so without
      asking. */
  lemma UnansweredPressReadsAsDone(s: Script, enter: bool)
    requires Sent(s) && s.dispatch.DispatchMakes? && Fits(Press(enter), s.dispatch.calls)
    requires s.verify == VerifyOk(IsVerified)
    ensures !Panics(s) && EndState(s, Changes(Press(enter))) == Some(Completed)
    ensures EffectUncertain(s) <==> exists c | c in s.dispatch.calls :: Unanswered(c)
  {
    PressesNeverFail(enter, s.dispatch.calls);
    EndsAsVerified(s, true);
    UncertainAmong(s, s.dispatch.calls);
  }

  lemma EndsAsVerified(s: Script, changing: bool)
    requires Sent(s) && ResultOf(s.dispatch) == OkResult && s.verify == VerifyOk(IsVerified)
    ensures !Panics(s) && EndState(s, changing) == Some(Completed)
  {
  }

  lemma UncertainAmong(s: Script, calls: seq<Call>)
    requires Sent(s) && s.dispatch == DispatchMakes(calls) && Made(calls) == calls && forall c | c in calls :: c.acts
    ensures EffectUncertain(s) <==> exists c | c in calls :: Unanswered(c)
  {
    if c :| c in calls && Unanswered(c) { assert Calls(s, c) && c.acts; }
  }

  /** Such a press exists: the connection is dead throughout. */
  lemma APressOnADeadConnectionCompletes()
    ensures exists s :: EffectUncertain(s) && !Panics(s) && EndState(s, Changes(Press(false))) == Some(Completed)
  {
    var dead := Call(true, false, Some(RuntimeDead));
    var s := Script(false, false, false, false, ResolvedOther, false, false, true, true, false, false, true,
                    false, false, false, DispatchMakes([dead, dead]), VerifyOk(IsVerified));
    UnansweredPressReadsAsDone(s, false);
    assert dead in s.dispatch.calls && Unanswered(dead);
  }

  /** How a stretch of a step came out: the step goes on, is over and journaled, was dropped by the overall deadline
      at an await, or unwinds from a panic. */
  datatype Way = GoesOn | Journaled | Dropped | Unwound

  class ActionExecutor {
    const journal: ActionJournal
    ghost var attempted: seq<nat>   // the plan indices for which a step was executed

    constructor (journal: ActionJournal)
      ensures this.journal == journal && attempted == []
    {
      this.journal := journal;
      attempted := [];
    }

    /** Completes the record in a terminal state and journals it. */
    method Finish(
        given: ActionRecord, state: ActionState, outcome: StepOutcome, verification: Option<Verification>)
        returns (r: ActionRecord)
      modifies journal
      ensures r == given.(state := state, outcome := outcome, verification := verification, completed := true)
      ensures journal.entries == Appended(journal.maxEntries, old(journal.entries), r)
    {
      r := given.(state := state, outcome := outcome, verification := verification, completed := true);
      journal.Append(r);
    }

    /** Up to Resolved. */
    method ResolveTarget(s: Script, given: ActionRecord)
      returns (state: ActionState, record: ActionRecord, way: Way, ghost trail: seq<ActionState>)
      requires given.state == Accepted && given.verification == None
      modifies journal
      ensures Trail(trail) && trail[|trail| - 1] == state && Dispatching !in trail && FollowsTable(trail)
      ensures record.stepIndex == given.stepIndex
      ensures way != Journaled ==> journal.entries == old(journal.entries) && record.verification == None
      ensures way == GoesOn ==> state == record.state == Resolved && ReachesResolved(s)
      ensures way == Dropped ==> state == Resolving && CutAt(s, state)
      ensures way == Unwound ==> state == Resolving && PanicsResolving(s)
      ensures way != GoesOn ==> !ReachesResolved(s)
      ensures way == Journaled ==> Ended(s, state, record, old(journal.entries))
    {
      way := Journaled;
      state := Resolving;
      record := given.(state := state);
      trail := Went([Accepted], Resolving);
      if s.cancelResolving || (s.resolveDelay && !s.resolveDelayCut && s.cancelAfterDelay) {
        state, trail := Cancelled, Went(trail, Cancelled);
        record := Finish(record, state, FailedOutcome, None);
        return;
      }
      if s.resolveDelay && s.resolveDelayCut { way := Dropped; return; }
      match s.resolution {
        case ResolveCut => way := Dropped; return;
        case ResolvePanics => way := Unwound; return;
        case ResolveDeadline | ResolveError =>
          state, trail := Failed, Went(trail, Failed);
          record := Finish(record, state, FailedOutcome, None);
          return;
        case _ =>
      }
      if s.cancelBeforeResolved {
        state, trail := Cancelled, Went(trail, Cancelled);
        record := Finish(record, state, FailedOutcome, None);
        return;
      }
      way, state, trail := GoesOn, Resolved, Went(trail, Resolved);
      record := record.(state := state);
    }

    /** The step is over before dispatch, as its course of events demands, in one journal record. */
    ghost predicate Ended(s: Script, state: ActionState, record: ActionRecord, before: seq<ActionRecord>)
      reads journal
    {
      && !Panics(s) && EndsBeforeDispatch(s) == Some(state) && state == record.state && Coherent(record)
      && journal.entries == Appended(journal.maxEntries, before, record)
    }

    /** From Resolved to the decision to dispatch. */
    method CheckPreconditions(s: Script, given: ActionRecord)
      returns (state: ActionState, record: ActionRecord, way: Way, ghost trail: seq<ActionState>)
      requires given.state == Resolved && given.verification == None
      requires ReachesResolved(s)
      modifies journal
      ensures |trail| > 1 && trail[0] == Resolved && Edges(trail)
      ensures trail[|trail| - 1] == state && Dispatching !in trail && (FollowsTable(trail) <==> !CancelsAtResolved(s))
      ensures record.stepIndex == given.stepIndex && way in {GoesOn, Journaled}
      ensures way == Journaled ==> Ended(s, state, record, old(journal.entries))
      ensures way == GoesOn ==> state == PreconditionCheck && EndsBeforeDispatch(s) == None
      ensures way == GoesOn ==> journal.entries == old(journal.entries) && record.verification == None
    {
      record, way := given, Journaled;
      if s.cancelResolved {
        state, trail := Cancelled, [Resolved, Cancelled];
        record := Finish(record, state, FailedOutcome, None);
        assert !CanTransition(trail[0], trail[0 + 1]);
        return;
      }
      state, trail := PreconditionCheck, [Resolved, PreconditionCheck];
      record := record.(state := state);
      if s.resolution == ResolvedElement && (!s.interactable || !s.snapshotFresh) {
        state, trail := Failed, [Resolved, PreconditionCheck, Failed];
        record := Finish(record, state, FailedOutcome, None);
        return;
      }
      if s.cancelChecked {
        state, trail := Cancelled, [Resolved, PreconditionCheck, Cancelled];
        record := Finish(record, state, FailedOutcome, None);
        return;
      }
      if s.hook && s.resolution == ResolvedElement && !s.freshAfterHook {
        state, trail := Failed, [Resolved, PreconditionCheck, Failed];
        record := Finish(record, state, FailedOutcome, None);
        return;
      }
      way := GoesOn;
    }

    /** Dispatch and verification. From here cancellation is ignored. */
    method DispatchAndVerify(s: Script, changing: bool, given: ActionRecord)
      returns (state: ActionState, record: ActionRecord, way: Way, ghost trail: seq<ActionState>)
      requires given.verification == None && EndsBeforeDispatch(s) == None
      modifies journal
      ensures trail != [] && trail[0] == Dispatching && FollowsTable(trail) && trail[|trail| - 1] == state
      ensures record.stepIndex == given.stepIndex && way != GoesOn
      ensures way != Journaled ==> journal.entries == old(journal.entries) && record.verification == None
      ensures way == Dropped ==> state in {Dispatching, Verifying} && CutAt(s, state)
      ensures way == Unwound ==> Panics(s)
      ensures way == Journaled ==>
        (!Panics(s) && state == record.state == EndsAfterDispatch(s, changing) && Coherent(record)
         && journal.entries == Appended(journal.maxEntries, old(journal.entries), record))
    {
      way := Journaled;
      state, trail := Dispatching, [Dispatching];
      record := given.(state := state);
      if s.dispatchDelay && s.dispatchDelayCut { way := Dropped; return; }
      if s.urlCut { way := Dropped; return; }
      match s.dispatch {
        case DispatchCut => way := Dropped; return;
        case DispatchPanics => way := Unwound; return;
        case DispatchDeadline =>
          state := if changing then Unknown else Failed;
          trail := Went(trail, state);
          record := Finish(record, state, FailedOutcome, if changing then Some(IsInconclusive) else None);
          return;
        case DispatchMakes(calls) =>
          var failure := Failure(calls);
          if failure.Some? {
            var unknown := changing && (failure.value == RuntimeDead || failure.value == CallTimeout);
            state := if unknown then Unknown else Failed;
            trail := Went(trail, state);
            record := Finish(record, state, FailedOutcome, if unknown then Some(IsInconclusive) else None);
            return;
          }
      }
      state, trail := Dispatched, Went(trail, Dispatched);
      record := record.(state := state);
      ghost var more;
      state, record, way, more := VerifyEffect(s, changing, record);
      trail := Joined(trail, more);
    }

    method VerifyEffect(s: Script, changing: bool, given: ActionRecord)
      returns (state: ActionState, record: ActionRecord, way: Way, ghost trail: seq<ActionState>)
      requires given.verification == None && Sent(s) && ResultOf(s.dispatch) == OkResult
      modifies journal
      ensures trail != [] && trail[0] == Dispatched && FollowsTable(trail) && trail[|trail| - 1] == state
      ensures Dispatching !in trail && record.stepIndex == given.stepIndex && way in {Dropped, Journaled}
      ensures way == Dropped ==> state == Verifying && CutAt(s, state)
      ensures way == Dropped ==> journal.entries == old(journal.entries) && record.verification == None
      ensures way == Journaled ==>
        (state == record.state == EndsAfterDispatch(s, changing) && Coherent(record)
         && journal.entries == Appended(journal.maxEntries, old(journal.entries), record))
    {
      way, state, trail := Journaled, Verifying, [Dispatched, Verifying];
      record := given.(state := state);
      var result := IsInconclusive;
      match s.verify {
        case VerifyCut => way := Dropped; return;
        case VerifyDeadline | VerifyError =>
        case VerifyOk(found) => result := found;
      }
      match result {
        case IsVerified => state := Completed;
        case IsContradicted => state := Contradicted;
        case IsInconclusive => state := Inconclusive;
      }
      trail := Went(trail, state);
      record := Finish(record, state, Ok(result), Some(result));
    }

    /** The step itself, until it is over, the overall deadline drops it at an await, or it panics. */
    method ExecuteStepInner(s: Script, changing: bool, stepIndex: nat)
      returns (state: ActionState, record: ActionRecord, way: Way, ghost trail: seq<ActionState>)
      modifies journal
      ensures Trail(trail) && trail[|trail| - 1] == state && (FollowsTable(trail) <==> !CancelsAtResolved(s))
      ensures Dispatching in trail <==> EndsBeforeDispatch(s) == None
      ensures record.stepIndex == stepIndex && way != GoesOn
      ensures way != Journaled ==> journal.entries == old(journal.entries) && record.verification == None
      ensures way == Dropped ==> CutAt(s, state)
      ensures way == Unwound ==> Panics(s)
      ensures way == Journaled ==>
        (EndState(s, changing) == Some(state) && state == record.state && Coherent(record)
         && journal.entries == Appended(journal.maxEntries, old(journal.entries), record))
    {
      state, record, way, trail := ResolveTarget(s, NewRecord(stepIndex));
      if way == GoesOn {
        ghost var more;
        state, record, way, more := FromResolved(s, changing, record);
        trail := Joined(trail, more);
      }
    }

    method FromResolved(s: Script, changing: bool, given: ActionRecord)
      returns (state: ActionState, record: ActionRecord, way: Way, ghost trail: seq<ActionState>)
      requires given.state == Resolved && given.verification == None && ReachesResolved(s)
      modifies journal
      ensures trail != [] && trail[0] == Resolved && Edges(trail) && trail[|trail| - 1] == state
      ensures FollowsTable(trail) <==> !CancelsAtResolved(s)
      ensures Dispatching in trail <==> EndsBeforeDispatch(s) == None
      ensures record.stepIndex == given.stepIndex && way != GoesOn
      ensures way != Journaled ==> journal.entries == old(journal.entries) && record.verification == None
      ensures way == Dropped ==> CutAt(s, state)
      ensures way == Unwound ==> Panics(s)
      ensures way == Journaled ==>
        (EndState(s, changing) == Some(state) && state == record.state && Coherent(record)
         && journal.entries == Appended(journal.maxEntries, old(journal.entries), record))
    {
      state, record, way, trail := CheckPreconditions(s, given);
      if way == GoesOn {
        ghost var more;
        state, record, way, more := DispatchAndVerify(s, changing, record);
        OnToDispatching(more);
        trail := Joined(trail, [PreconditionCheck] + more);
      }
    }

    /** One step, start to finish, for every possible course of events. It panics exactly when resolving or
        dispatching does, and then journals nothing. Otherwise it ends in the terminal state its course calls for,
        in one journal record, along edges of the table (plus Resolved to Cancelled). */
    method ExecuteStep(s: Script, changing: bool, stepIndex: nat)
      returns (record: ActionRecord, panicked: bool, ghost trail: seq<ActionState>)
      modifies journal, this
      ensures attempted == old(attempted) + [stepIndex] && panicked == Panics(s)
      ensures panicked ==> journal.entries == old(journal.entries)
      ensures !panicked ==> journal.entries == Appended(journal.maxEntries, old(journal.entries), record)
      ensures !panicked ==> EndState(s, changing) == Some(record.state) && IsTerminal(record.state)
      ensures !panicked ==> Coherent(record) && record.stepIndex == stepIndex
      ensures Trail(trail) && (FollowsTable(trail) <==> !CancelsAtResolved(s))
      ensures !panicked ==> trail[|trail| - 1] == record.state
      ensures Dispatching in trail <==> EndsBeforeDispatch(s) == None
      ensures !panicked && record.state == Cancelled ==> Dispatching !in trail
      ensures !panicked && record.state == Unknown ==> changing && Dispatching in trail
      ensures !panicked && changing && LateDeadline(s) && Dispatching in trail
          ==> record.state in {Unknown, Inconclusive}
      ensures Unfit(s) ==> !panicked && Dispatching !in trail && record.state in {Failed, Cancelled}
    {
      if Unfit(s) { UnfitElementsAreNeverActedOn(s, changing); }
      attempted := attempted + [stepIndex];
      if !Panics(s) { EndsTellTheTruth(s, changing); }
      var state, way;
      state, record, way, trail := ExecuteStepInner(s, changing, stepIndex);
      panicked := way == Unwound;
      if way == Dropped {
        record := FinishDropped(s, changing, state, record);
        trail := Went(trail, record.state);
      }
    }

    /** The overall deadline dropped the step at an await. */
    method FinishDropped(s: Script, changing: bool, state: ActionState, given: ActionRecord)
        returns (record: ActionRecord)
      requires CutAt(s, state) && given.verification == None
      modifies journal
      ensures EndState(s, changing) == Some(record.state) && Coherent(record) && record.stepIndex == given.stepIndex
      ensures CanTransition(state, record.state) && record.state in {Unknown, Failed}
      ensures journal.entries == Appended(journal.maxEntries, old(journal.entries), record)
    {
      var midway := state == Dispatching || state == Dispatched || state == Verifying;
      if midway && changing {
        record := Finish(given, Unknown, FailedOutcome, Some(IsInconclusive));
      } else {
        record := Finish(given, Failed, FailedOutcome, given.verification);
      }
    }

    /** The whole plan: one record per step, in order, each journaled once. The first failure, contradiction,
        unknown effect or cancellation is the last step attempted; everything after it is skipped. The plan ends
        early, and loses the records it had collected, exactly when a step that is attempted panics. */
    method ExecutePlan(steps: seq<PlannedStep>)
      returns (records: seq<ActionRecord>, panicked: bool, ghost ran: seq<nat>)
      modifies journal, this
      ensures |records| <= |steps| && PlanFollowed(steps[..|records|], records)
      ensures panicked <==> |records| < |steps|
      ensures panicked ==> PanicsNext(steps, records)
      ensures InOrder(records)
      ensures journal.entries == AppendedAll(journal.maxEntries, old(journal.entries), records)
      ensures attempted == old(attempted) + ran + (if panicked then [|records|] else [])
          && RanExactly(steps, records, ran)
    {
      records, ran, panicked := [], [], false;
      var shouldSkip := false;
      for idx := 0 to |steps|
        modifies journal, this
        invariant |records| == idx && shouldSkip == SkipsFrom(records)
        invariant PlanFollowed(steps[..idx], records)
        invariant InOrder(records)
        invariant journal.entries == AppendedAll(journal.maxEntries, old(journal.entries), records)
        invariant attempted == old(attempted) + ran && RanExactly(steps, records, ran)
      {
        var rec;
        rec, shouldSkip, panicked := PlanStep(steps, idx, records, shouldSkip);
        if panicked { return; }
        ran := StepDone(steps, records, rec, ran, journal.maxEntries, old(journal.entries));
        records := records + [rec];
      }
    }

    /** One turn of the plan loop. */
    method PlanStep(steps: seq<PlannedStep>, idx: nat, ghost before: seq<ActionRecord>, shouldSkip: bool)
      returns (rec: ActionRecord, skipOn: bool, panicked: bool)
      requires idx == |before| < |steps| && shouldSkip == SkipsFrom(before)
      modifies journal, this
      ensures panicked == PanicsNext(steps, before)
      ensures panicked ==> journal.entries == old(journal.entries)
      ensures !panicked ==> StepFollowed(steps, idx, before, rec) && rec.stepIndex == idx && IsTerminal(rec.state)
      ensures !panicked ==> skipOn == (SkipsFrom(before) || ShouldCascadeSkip(rec.outcome))
      ensures !panicked ==> journal.entries == Appended(journal.maxEntries, old(journal.entries), rec)
      ensures attempted == old(attempted) + if SkipsFrom(before) || CancelledBetween(steps, idx) then [] else [idx]
    {
      skipOn, panicked := shouldSkip, false;
      if shouldSkip {
        rec := Finish(NewRecord(idx), Cancelled, SkippedOutcome, Some(IsInconclusive));
      } else if steps[idx].cancelSeen && idx != 0 {
        rec := Finish(NewRecord(idx), Cancelled, FailedOutcome, None);
        skipOn := true;
      } else {
        ghost var trail;
        rec, panicked, trail := ExecuteStep(steps[idx].script, steps[idx].changing, idx);
        if !panicked && ShouldCascadeSkip(rec.outcome) { skipOn := true; }
      }
    }
  }

  lemma OnToDispatching(more: seq<ActionState>)
    requires more != [] && more[0] == Dispatching && FollowsTable(more)
    ensures var t := [PreconditionCheck] + more;
      FollowsTable(t) && Edges(t) && Dispatching in t && t[|t| - 1] == more[|more| - 1]
  {
    var t := [PreconditionCheck] + more;
    forall i | 0 <= i < |t| - 1 ensures CanTransition(t[i], t[i + 1]) {
      if i > 0 { assert CanTransition(more[i - 1], more[i - 1 + 1]); }
    }
    assert t[1] == Dispatching;
  }

  /** Two stretches of a trail that share their meeting state. */
  ghost function Joined(t: seq<ActionState>, u: seq<ActionState>): (w: seq<ActionState>)
    requires t != [] && u != [] && t[|t| - 1] == u[0]
    ensures w != [] && w[0] == t[0] && w[|w| - 1] == u[|u| - 1]
    ensures FollowsTable(w) <==> FollowsTable(t) && FollowsTable(u)
    ensures Edges(w) <==> Edges(t) && Edges(u)
    ensures Dispatching in w <==> Dispatching in t || Dispatching in u
  {
    if |u| == 1 then t
    else
      var start, last := u[..|u| - 1], u[|u| - 1];
      assert u == start + [last] == Went(start, last);
      Went(Joined(t, start), last)
  }
}
