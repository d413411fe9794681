/** Action states, their transition table, per-step outcomes and the bounded journal. */
module Actions {
  import opened Bounded
  import opened Wrappers

  datatype ActionState =
    | Accepted | Resolving | Resolved | PreconditionCheck | Dispatching | Dispatched | Verifying
    | Completed | Failed | Contradicted | Inconclusive | Unknown | Cancelled

  predicate IsTerminal(s: ActionState) {
    s in {Completed, Failed, Contradicted, Inconclusive, Unknown, Cancelled}
  }

  predicate IsCancellable(s: ActionState) {
    s in {Accepted, Resolving, Resolved, PreconditionCheck}
  }

  predicate CanTransition(a: ActionState, b: ActionState) {
    match a
    case Accepted => b in {Resolving, Cancelled, Failed}
    case Resolving => b in {Resolved, Failed, Cancelled}
    case Resolved => b in {PreconditionCheck, Failed}
    case PreconditionCheck => b in {Dispatching, Failed, Cancelled}
    case Dispatching => b in {Dispatched, Unknown, Failed}
    case Dispatched => b == Verifying
    case Verifying => b in {Completed, Failed, Contradicted, Inconclusive, Unknown}
    case _ => false
  }

  /** A terminal state is exactly one the table has no way out of. */
  lemma TerminalExactlyWhenNoWayOut(s: ActionState)
    ensures IsTerminal(s) <==> forall next :: !CanTransition(s, next)
  {
    if !IsTerminal(s) {
      var next := match s
        case Accepted => Resolving case Resolving => Resolved case Resolved => PreconditionCheck
        case PreconditionCheck => Dispatching case Dispatching => Dispatched case Dispatched => Verifying
        case _ => Completed;
      assert CanTransition(s, next);
    }
  }

  /** The table lets every cancellable state be cancelled except one. */
  lemma TableMissesOneCancellation(s: ActionState)
    ensures IsCancellable(s) && !CanTransition(s, Cancelled) <==> s == Resolved
  {
  }

  datatype Verification = IsVerified | IsContradicted | IsInconclusive

  datatype StepOutcome = Ok(verification: Verification) | FailedOutcome | SkippedOutcome

  /** Only a failure or a contradiction makes the later steps of a plan be skipped. */
  predicate ShouldCascadeSkip(o: StepOutcome) {
    o == FailedOutcome || o == Ok(IsContradicted)
  }

  datatype ActionRecord = ActionRecord(
    stepIndex: nat, state: ActionState, outcome: StepOutcome, verification: Option<Verification>, completed: bool)

  function NewRecord(stepIndex: nat): ActionRecord {
    ActionRecord(stepIndex, Accepted, FailedOutcome, None, false)
  }

  // -- the journal ------------------------------------------------------------

  class ActionJournal {
    const maxEntries: nat
    var entries: seq<ActionRecord>

    constructor (maxEntries: nat)
      ensures this.maxEntries == maxEntries && entries == []
    {
      this.maxEntries := maxEntries;
      entries := [];
    }

    method Append(r: ActionRecord)
      modifies this
      ensures entries == Appended(maxEntries, old(entries), r)
    {
      if |entries| >= maxEntries && |entries| > 0 { entries := entries[1..]; }
      entries := entries + [r];
    }

    method LastN(n: nat) returns (rs: seq<ActionRecord>)
      ensures rs == Last(entries, n)
    {
      rs := [];
      var i := |entries|;
      while i > 0 && |rs| < n
        invariant 0 <= i <= |entries| && rs == entries[i..] && |rs| <= n
      {
        i := i - 1;
        rs := [entries[i]] + rs;
      }
    }
  }
}
