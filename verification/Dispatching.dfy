/** What dispatching a step consists of: the calls each kind of step makes to the browser, and what becomes of their
    errors. */
module Dispatching {
  import opened Wrappers

  /** Why a call failed: the connection died, no reply came in time, the browser refused, its reply could not be
      decoded or lacked what was needed, or the step left nothing to send. */
  datatype CallError = RuntimeDead | CallTimeout | Rejected | BadReply | NothingToDo

  /** One call: whether it acts on the page, whether its error ends the dispatch or is discarded, and its error if it
      has one. A check that fails before anything is sent counts as a call that does not act. */
  datatype Call = Call(acts: bool, checked: bool, error: Option<CallError>)

  /** The error the dispatch fails with: the first that is not discarded. */
  function Failure(calls: seq<Call>): Option<CallError> {
    if calls == [] then None
    else if calls[0].checked && calls[0].error.Some? then calls[0].error
    else Failure(calls[1..])
  }

  /** The calls made, up to the one that ends the dispatch. */
  function Made(calls: seq<Call>): seq<Call> {
    if calls == [] then []
    else if calls[0].checked && calls[0].error.Some? then [calls[0]]
    else [calls[0]] + Made(calls[1..])
  }

  /** Nothing readable says whether the browser did what it was asked. */
  predicate Unanswered(c: Call) { c.error in {Some(RuntimeDead), Some(CallTimeout), Some(BadReply)} }

  /** No reply came at all. */
  predicate Lost(c: Call) { c.error in {Some(RuntimeDead), Some(CallTimeout)} }

  lemma {:induction false} FailureComesFrom(calls: seq<Call>, e: CallError)
    ensures Failure(calls) == Some(e) <==> exists c | c in Made(calls) :: c.checked && c.error == Some(e)
  {
    if calls != [] {
      FailureComesFrom(calls[1..], e);
      if calls[0].checked && calls[0].error.Some? {
        assert calls[0] in Made(calls);
      } else {
        assert Made(calls) == [calls[0]] + Made(calls[1..]);
        assert forall c :: c in Made(calls) <==> c == calls[0] || c in Made(calls[1..]);
      }
    }
  }

  /** The same calls, but for the errors that are discarded. */
  predicate SameChecked(a: seq<Call>, b: seq<Call>) {
    && |a| == |b|
    && forall i | 0 <= i < |a| :: a[i].checked == b[i].checked && (a[i].checked ==> a[i].error == b[i].error)
  }

  lemma {:induction false} DiscardedErrorsDoNotFail(a: seq<Call>, b: seq<Call>)
    requires SameChecked(a, b)
    ensures Failure(a) == Failure(b)
  {
    if a != [] {
      assert forall i | 0 <= i < |a[1..]| :: a[1..][i] == a[i + 1] && b[1..][i] == b[i + 1];
      DiscardedErrorsDoNotFail(a[1..], b[1..]);
    }
  }

  // -- the kinds of steps -----------------------------------------------------------

  datatype StepKind =
    | Navigate | GoBack | GoForward
    | ClickElement         // by the selector of an element, or the one given
    | ClickNode            // by a backend node number: looked up, clicked, released
    | ClickNothing         // with nothing to go by
    | Type(submit: bool) | Fill | Select
    | Press(enter: bool)   // the enter key also submits the form
    | Hover | Eval | Extract
    | Wait | Tabs | Snapshot

  /** Everything but waiting and listing has a capability class, and counts as changing the page. */
  predicate Changes(k: StepKind) { k !in {Wait, Tabs, Snapshot} }

  const ACT := Call(true, true, None)
  const ACT_UNCHECKED := Call(true, false, None)
  const ASK := Call(false, true, None)
  const ASK_UNCHECKED := Call(false, false, None)

  /** The calls a dispatch of this kind makes when all goes well, in order. The second call of a snapshot is only made
      when the first does not do. */
  function Shape(k: StepKind): seq<Call> {
    match k
    case Navigate | GoBack | GoForward | ClickElement | Fill | Select | Hover | Eval => [ACT]
    case ClickNode => [ASK, ACT, ASK_UNCHECKED]
    case ClickNothing => [ASK]
    case Type(submit) => if submit then [ACT, ACT_UNCHECKED] else [ACT]
    case Press(enter) =>
      [ACT_UNCHECKED, ACT_UNCHECKED] + if enter then [ACT_UNCHECKED] else []
    case Extract | Tabs => [ASK]
    case Wait => []
    case Snapshot => [ASK_UNCHECKED, ASK]
  }

  /** These could be the calls of a dispatch of this kind. */
  predicate Fits(k: StepKind, calls: seq<Call>) {
    && |calls| == |Shape(k)|
    && (forall i | 0 <= i < |calls| :: calls[i].acts == Shape(k)[i].acts && calls[i].checked == Shape(k)[i].checked)
    && (k == ClickNothing ==> calls[0].error == Some(NothingToDo))
  }

  /** The kinds of step that discard the error of a call that acts. */
  predicate Discards(k: StepKind) { k.Press? || k == Type(true) }

  lemma DiscardsExactlyWhen(k: StepKind)
    ensures Discards(k) <==> exists i | 0 <= i < |Shape(k)| :: Shape(k)[i].acts && !Shape(k)[i].checked
  {
    if Discards(k) {
      var i := if k.Press? then 0 else 1;
      assert Shape(k)[i] == ACT_UNCHECKED;
    }
  }

  /** A kind counts as changing the page when it makes a call that acts on it; of those that make none, extracting and
      clicking with nothing to go by count as changing it too, and waiting and listing do not. */
  lemma ChangesExactlyWhen(k: StepKind)
    ensures Changes(k) <==> k in {Extract, ClickNothing} || exists i | 0 <= i < |Shape(k)| :: Shape(k)[i].acts
  {
    if Changes(k) && k !in {Extract, ClickNothing} {
      assert Shape(k)[if k == ClickNode then 1 else 0].acts;
    }
  }

  /** An error is only ever lost on an acting call when it is discarded: by the kinds above, on any of these calls. */
  lemma MadeFit(k: StepKind, calls: seq<Call>, c: Call)
    requires Fits(k, calls) && c in Made(calls) && c.acts && !c.checked
    ensures Discards(k)
  {
    MadeAreAmong(calls, c);
    var i :| 0 <= i < |calls| && calls[i] == c;
    assert Shape(k)[i].acts && !Shape(k)[i].checked;
    DiscardsExactlyWhen(k);
  }

  lemma {:induction false} MadeAreAmong(calls: seq<Call>, c: Call)
    requires c in Made(calls)
    ensures c in calls
  {
    if !(calls[0].checked && calls[0].error.Some?) && c != calls[0] { MadeAreAmong(calls[1..], c); }
  }

  lemma {:induction false} UncheckedAreAllMade(calls: seq<Call>)
    requires forall c | c in calls :: !c.checked
    ensures Made(calls) == calls && Failure(calls) == None
  {
    if calls != [] {
      assert calls[0] in calls && forall c | c in calls[1..] :: c in calls;
      UncheckedAreAllMade(calls[1..]);
    }
  }

  /** No error of a press ends its dispatch. */
  lemma PressesNeverFail(enter: bool, calls: seq<Call>)
    requires Fits(Press(enter), calls)
    ensures Failure(calls) == None && Made(calls) == calls && forall c | c in calls :: c.acts
  {
    forall c | c in calls ensures !c.checked && c.acts {
      var i :| 0 <= i < |calls| && calls[i] == c;
      assert Shape(Press(enter))[i] == ACT_UNCHECKED;
    }
    UncheckedAreAllMade(calls);
  }
}
