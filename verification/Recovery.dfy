/** The recovery ladder: ten tiers in a fixed order over the index, each recorded, deciding at most once. */
module Recovery {
  import opened Wrappers
  import opened Text
  import opened PageVersions
  import opened ElementIndex
  import opened Resolution
  import opened Events
  import opened DomDiff

  datatype Tier =
    | ExistingRef | CachedBackendNode | CssSelector | DomIdName | AxRoleName | SemanticText
    | FreshDomAxSearch | FrameShadowTraversal | AmbiguityResolution | VisionFallback

  const LADDER: seq<Tier> := [
    ExistingRef, CachedBackendNode, CssSelector, DomIdName, AxRoleName, SemanticText,
    FreshDomAxSearch, FrameShadowTraversal, AmbiguityResolution, VisionFallback]

  datatype Status =
    | Success | Miss | Ambiguity | SkippedMissingInput | SkippedDueToEarlierSuccess | Error
    | VisionRequired | VisionSkipped

  /** `note` is what follows the marker in a success's detail text; other details are not modelled. */
  datatype Attempt = Attempt(tier: Tier, status: Status, detail: string, candidates: seq<string>)

  datatype Outcome =
    | Recovered(element: ElementRef)
    | AmbiguousOutcome(candidates: seq<string>)
    | ResolutionFailed
    | VisionNeeded

  datatype Options = Options(allowVision: bool, isVisualContext: bool)

  /** Everything a recovery reads: the index, the versions, one iteration order, the expired reference
      and the request it came from. */
  datatype Case = Case(s: Store, v: Versions, order: seq<string>, prior: Option<ElementRef>, req: Request,
      opts: Options)

  const MARKER: string := "__RECOVERED__:"

  // -- the tiers --------------------------------------------------------------

  function LiveMatching(c: Case, p: ElementRef -> bool): seq<string> {
    Matching(c.s, c.order, (r: ElementRef) => p(r) && Live(c.v, r))
  }

  function Succeed(tier: Tier, id: string, note: string): Attempt {
    Attempt(tier, Success, MARKER + id + note, [id])
  }

  /** None, one or several live candidates. */
  function Verdict(tier: Tier, live: seq<string>, note: string): Attempt {
    if |live| == 0 then Attempt(tier, Miss, "", [])
    else if |live| == 1 then Succeed(tier, live[0], note)
    else Attempt(tier, Ambiguity, "", live)
  }

  function Skipped(tier: Tier): Attempt { Attempt(tier, SkippedMissingInput, "", []) }

  /** A field of the request, or else of the expired reference. */
  function Given(c: Case, asked: Option<string>, field: ElementRef -> string): Option<string> {
    if asked.Some? then asked else match c.prior case Some(r) => Some(field(r)) case None => None
  }

  function Selector(c: Case): string { Given(c, c.req.selector, (r: ElementRef) => r.selector).GetOr("") }
  function DomId(c: Case): string { Given(c, c.req.domId, (r: ElementRef) => r.domId).GetOr("") }
  function Name(c: Case): string { Given(c, c.req.name, (r: ElementRef) => r.name).GetOr("") }
  function Role(c: Case): string { Given(c, c.req.role, (r: ElementRef) => r.role).GetOr("") }
  function AccessibleName(c: Case): string { Given(c, c.req.accessibleName, (r: ElementRef) => r.name).GetOr("") }
  function SoughtText(c: Case): string { Given(c, c.req.text, (r: ElementRef) => r.text).GetOr("") }

  function TierExistingRef(c: Case): Attempt {
    match Given(c, c.req.refId, (r: ElementRef) => r.id)
    case None => Skipped(ExistingRef)
    case Some(id) =>
      if id in c.s.elements && Live(c.v, c.s.elements[id]) then Succeed(ExistingRef, c.s.elements[id].id, "")
      else Attempt(ExistingRef, Miss, "", [])
  }

  /** The backend node asked for, or else the expired reference's; 0 is none. */
  function SoughtBackend(c: Case): int {
    if c.req.backend.Some? then c.req.backend.value else match c.prior case Some(r) => r.backend case None => 0
  }

  function TierCachedBackend(c: Case): Attempt {
    var backend := SoughtBackend(c);
    if backend == 0 then Skipped(CachedBackendNode)
    else match ByBackend(c.s, backend)
      case Some(r) =>
        if Live(c.v, r) then Succeed(CachedBackendNode, r.id, "") else Attempt(CachedBackendNode, Miss, "", [])
      case None => Attempt(CachedBackendNode, Miss, "", [])
  }

  function TierCssSelector(c: Case): Attempt {
    var sel := Selector(c);
    if sel == "" || sel == "*" then Skipped(CssSelector)
    else if !ValidSelector(sel) then Attempt(CssSelector, Error, "", [])
    else Verdict(CssSelector, LiveMatching(c, HasSelector(sel)), "")
  }

  function TierDomIdName(c: Case): Attempt {
    if DomId(c) == "" && Name(c) == "" then Skipped(DomIdName)
    else
      var byId := if DomId(c) != "" then LiveMatching(c, HasDomId(DomId(c))) else [];
      if byId != [] then Verdict(DomIdName, byId, " via dom_id")
      else if Name(c) != "" then Verdict(DomIdName, LiveMatching(c, HasName(Name(c))), " via name")
      else Attempt(DomIdName, Miss, "", [])
  }

  /** A role alone never decides an ambiguity: the ladder goes on. */
  function TierAxRoleName(c: Case): Attempt {
    var role, name := Role(c), AccessibleName(c);
    if role == "" && name == "" then Skipped(AxRoleName)
    else if role != "" && name != "" then
      Verdict(AxRoleName, LiveMatching(c, HasRoleName(role, name)), " via role+name")
    else if role != "" then
      var live := LiveMatching(c, HasRole(role));
      if |live| == 1 then Verdict(AxRoleName, live, " via role") else Attempt(AxRoleName, Miss, "", [])
    else Verdict(AxRoleName, LiveMatching(c, HasName(name)), " via accessible name")
  }

  function TierSemanticText(c: Case): Attempt {
    if IsBlank(SoughtText(c)) then Skipped(SemanticText)
    else Verdict(SemanticText, LiveMatching(c, HasText(SoughtText(c))), " via semantic text")
  }

  function AsSeq(given: Option<string>): seq<string> {
    if given.Some? && !IsBlank(given.value) then [given.value] else []
  }

  function Tokens(c: Case): seq<string> {
    AsSeq(c.req.domId) + AsSeq(c.req.name) + AsSeq(c.req.accessibleName) + AsSeq(c.req.text) + AsSeq(c.req.role)
    + AsSeq(c.req.tag)
    + (match c.prior case Some(r) => AsSeq(Some(r.domId)) + AsSeq(Some(r.name)) + AsSeq(Some(r.text)) case None => [])
  }

  function Fields(r: ElementRef): seq<string> { [r.domId, r.name, r.text, r.tag, r.role, r.selector] }

  /** Two texts overlap when either contains the other, ignoring case. */
  predicate Overlap(token: string, field: string) {
    Contains(Lower(field), Lower(token)) || Contains(Lower(token), Lower(field))
  }

  predicate SharesAToken(tokens: seq<string>, r: ElementRef) {
    exists i, j | 0 <= i < |tokens| && 0 <= j < 6 :: Overlap(tokens[i], Fields(r)[j])
  }

  function SharingAToken(tokens: seq<string>): ElementRef -> bool { (r: ElementRef) => SharesAToken(tokens, r) }

  function TierFreshSearch(c: Case): Attempt {
    var tokens := Tokens(c);
    if tokens == [] then Skipped(FreshDomAxSearch)
    else Verdict(FreshDomAxSearch, LiveMatching(c, SharingAToken(tokens)), " via fresh DOM/AX search")
  }

  function PiercedBySelector(c: Case): seq<string> {
    var sel := Selector(c);
    if sel != "" && sel != "*" && ValidSelector(sel) then LiveMatching(c, HasSelector(sel)) else []
  }

  function PiercedById(c: Case): seq<string> {
    if DomId(c) != "" then LiveMatching(c, HasDomId(DomId(c))) else []
  }

  function PiercedByText(c: Case): seq<string> {
    if !IsBlank(SoughtText(c)) then LiveMatching(c, HasText(SoughtText(c))) else []
  }

  function TierFrameShadow(c: Case): Attempt {
    var sel, domId, text := Selector(c), DomId(c), SoughtText(c);
    if sel == "" && domId == "" && IsBlank(text) && c.req.role == None then Skipped(FrameShadowTraversal)
    else
      var (bySel, byId, byText) := (PiercedBySelector(c), PiercedById(c), PiercedByText(c));
      if bySel != [] then Verdict(FrameShadowTraversal, bySel, " via frame/shadow selector pierce")
      else if byId != [] then Verdict(FrameShadowTraversal, byId, " via frame/shadow dom_id")
      else Verdict(FrameShadowTraversal, byText, " via frame/shadow text")
  }

  function TierVision(c: Case): Attempt {
    var status := if c.opts.allowVision && c.opts.isVisualContext then VisionRequired else VisionSkipped;
    Attempt(VisionFallback, status, "", [])
  }

  function Try(c: Case, tier: Tier): Attempt {
    match tier
    case ExistingRef => TierExistingRef(c)
    case CachedBackendNode => TierCachedBackend(c)
    case CssSelector => TierCssSelector(c)
    case DomIdName => TierDomIdName(c)
    case AxRoleName => TierAxRoleName(c)
    case SemanticText => TierSemanticText(c)
    case FreshDomAxSearch => TierFreshSearch(c)
    case FrameShadowTraversal => TierFrameShadow(c)
    case AmbiguityResolution => Attempt(AmbiguityResolution, Miss, "", [])
    case VisionFallback => TierVision(c)
  }

  /** Trying a tier panics: a text it quotes in its detail cannot be cut to the length quoted. */
  predicate TierPanics(c: Case, tier: Tier) {
    match tier
    case SemanticText =>
      var text := SoughtText(c);
      !IsBlank(text) && |LiveMatching(c, HasText(text))| != 1 && Truncate(text, QUOTED).None?
    case FreshDomAxSearch =>
      var tokens := Tokens(c);
      tokens != [] && LiveMatching(c, SharingAToken(tokens)) == [] && Truncate(Joined(tokens, "|"), QUOTED_TOKENS).None?
    case FrameShadowTraversal =>
      && PiercedBySelector(c) == [] && PiercedById(c) == [] && |PiercedByText(c)| > 1
      && Truncate(SoughtText(c), QUOTED_PIERCED).None?
    case _ => false
  }

  const QUOTED_TOKENS: nat := 120
  const QUOTED_PIERCED: nat := 60

  // -- climbing ---------------------------------------------------------------

  /** The id a success hands on: the first word after the marker in its detail text. */
  function SuccessId(a: Attempt): Option<string> {
    if a.status != Success || !(MARKER <= a.detail) then None else FirstWord(a.detail[|MARKER|..])
  }

  datatype Climb = Climb(trace: seq<Attempt>, recovered: Option<string>, ambiguous: Option<seq<string>>)

  predicate Decided(p: Climb) { p.recovered.Some? || p.ambiguous.Some? }

  /** `a` is what the tier says if it is tried; once decided, it is not. */
  function StepUp(p: Climb, tier: Tier, a: Attempt): Climb {
    if Decided(p) then p.(trace := p.trace + [Attempt(tier, SkippedDueToEarlierSuccess, "", [])])
    else
      Climb(p.trace + [a], SuccessId(a),
          if SuccessId(a) == None && a.status == Ambiguity then Some(a.candidates) else None)
  }

  /** Climbing when `says` is what each tier says if it is tried. */
  function ClimbWith(says: Tier -> Attempt, tiers: seq<Tier>): (p: Climb)
    ensures |p.trace| == |tiers|
  {
    if tiers == [] then Climb([], None, None)
    else
      var tier := tiers[|tiers| - 1];
      StepUp(ClimbWith(says, tiers[..|tiers| - 1]), tier, says(tier))
  }

  function Trying(c: Case): Tier -> Attempt { (tier: Tier) => Try(c, tier) }

  function ClimbAll(c: Case, tiers: seq<Tier>): Climb { ClimbWith(Trying(c), tiers) }

  /** The climb as it happens, None once a tier that is tried panics. */
  function Climbed(says: Tier -> Attempt, panics: Tier -> bool, tiers: seq<Tier>): Option<Climb> {
    if tiers == [] then Some(Climb([], None, None))
    else
      var tier := tiers[|tiers| - 1];
      match Climbed(says, panics, tiers[..|tiers| - 1])
      case None => None
      case Some(p) => if !Decided(p) && panics(tier) then None else Some(StepUp(p, tier, says(tier)))
  }

  function Panicking(c: Case): Tier -> bool { (tier: Tier) => TierPanics(c, tier) }

  /** What stands in for an id the index does not hold. */
  function Placeholder(id: string): ElementRef {
    ElementRef(id, 0, 0, 0, "", 0, "", "", "", "", [], "", "", true, true, 0)
  }

  function Conclude(c: Case, p: Climb): Outcome {
    if p.ambiguous.Some? then AmbiguousOutcome(p.ambiguous.value)
    else match p.recovered
      case Some(id) => Recovered(if id in c.s.elements then c.s.elements[id] else Placeholder(id))
      case None =>
        if exists a | a in p.trace :: a.tier == VisionFallback && a.status == VisionRequired
        then VisionNeeded else ResolutionFailed
  }

  /** `Panicked` means there is neither an outcome nor a trace. */
  datatype Result = Completed(outcome: Outcome, trace: seq<Attempt>) | Panicked

  /** Failing for good quotes the request, which can panic as well. */
  function Finished(c: Case, p: Climb): Result {
    if Conclude(c, p) == ResolutionFailed && QuotingPanics(c.req) then Panicked else Completed(Conclude(c, p), p.trace)
  }

  /** A recovery over a ladder of these tiers. */
  function Recovering(c: Case, tiers: seq<Tier>): Result {
    match Climbed(Trying(c), Panicking(c), tiers)
    case None => Panicked
    case Some(p) => Finished(c, p)
  }

  lemma {:induction false} PanicIsFinal(says: Tier -> Attempt, panics: Tier -> bool, tiers: seq<Tier>, more: seq<Tier>)
    requires Climbed(says, panics, tiers) == None
    ensures Climbed(says, panics, tiers + more) == None
  {
    if more == [] {
      assert tiers + more == tiers;
    } else {
      PanicIsFinal(says, panics, tiers, more[..|more| - 1]);
      assert (tiers + more)[..|tiers + more| - 1] == tiers + more[..|more| - 1];
    }
  }

  /** The ladder as the program climbs it. */
  method Recover(c: Case) returns (result: Result)
    ensures result == Recovering(c, LADDER)
  {
    var says, panics := Trying(c), Panicking(c);
    var trace := [];
    var recovered: Option<string> := None;
    var ambiguous: Option<seq<string>> := None;
    for i := 0 to |LADDER|
      invariant Climbed(says, panics, LADDER[..i]) == Some(Climb(trace, recovered, ambiguous))
    {
      assert LADDER[..i + 1][..i] == LADDER[..i];
      var tier := LADDER[i];
      if recovered.Some? || ambiguous.Some? {
        trace := trace + [Attempt(tier, SkippedDueToEarlierSuccess, "", [])];
        continue;
      }
      if panics(tier) {
        PanicIsFinal(says, panics, LADDER[..i + 1], LADDER[i + 1..]);
        assert LADDER[..i + 1] + LADDER[i + 1..] == LADDER;
        return Panicked;
      }
      var attempt := says(tier);
      recovered := SuccessId(attempt);
      if recovered == None && attempt.status == Ambiguity { ambiguous := Some(attempt.candidates); }
      trace := trace + [attempt];
    }
    assert LADDER[..|LADDER|] == LADDER;
    result := ConcludeTrace(c, trace, recovered, ambiguous);
  }

  method ConcludeTrace(c: Case, trace: seq<Attempt>, recovered: Option<string>, ambiguous: Option<seq<string>>)
    returns (result: Result)
    ensures result == Finished(c, Climb(trace, recovered, ambiguous))
  {
    var outcome;
    if ambiguous.Some? {
      outcome := AmbiguousOutcome(ambiguous.value);
    } else if recovered.Some? {
      var id := recovered.value;
      outcome := Recovered(if id in c.s.elements then c.s.elements[id] else Placeholder(id));
    } else if exists a | a in trace :: a.tier == VisionFallback && a.status == VisionRequired {
      outcome := VisionNeeded;
    } else {
      if QuotingPanics(c.req) { return Panicked; }
      outcome := ResolutionFailed;
    }
    result := Completed(outcome, trace);
  }

  // -- what a single tier may say ----------------------------------------------

  ghost predicate LiveId(c: Case, id: string) { id in c.s.elements && Live(c.v, c.s.elements[id]) }

  /** Ids a success can be read back from: not empty, no whitespace. */
  ghost predicate WordIds(s: Store) {
    forall id | id in s.elements :: id != "" && !HasWhitespace(id)
  }

  /** The detail text hands on exactly the chosen id if and only if the id is a single word. */
  lemma SuccessReadsBackExactlyWhen(tier: Tier, id: string, note: string)
    requires note == "" || IsWhitespace(note[0])
    ensures SuccessId(Succeed(tier, id, note)) == Some(id) <==> id != "" && !HasWhitespace(id)
  {
    var a := Succeed(tier, id, note);
    assert a.detail[|MARKER|..] == id + note;
    if id != "" && !HasWhitespace(id) {
      FirstWordReadsBack(id, note);
    } else {
      FirstWordHasNoWhitespace(id + note);
    }
  }

  /** A tier decides honestly: a success is one live element that reads back, an ambiguity is at least two
      distinct live ones, and nothing else decides. */
  ghost predicate Honest(c: Case, tier: Tier, a: Attempt) {
    && a.tier == tier
    && (a.status == Success ==>
        |a.candidates| == 1 && LiveId(c, a.candidates[0]) && SuccessId(a) == Some(a.candidates[0]))
    && (a.status == Ambiguity ==>
        |a.candidates| >= 2 && Distinct(a.candidates) && forall id | id in a.candidates :: LiveId(c, id))
    && a.status != SkippedDueToEarlierSuccess
    && (a.status == VisionRequired <==> tier == VisionFallback && c.opts.allowVision && c.opts.isVisualContext)
  }

  ghost predicate Ready(c: Case) {
    Consistent(c.s) && WordIds(c.s) && Listing(c.s, c.order)
  }

  lemma VerdictIsHonest(c: Case, tier: Tier, p: ElementRef -> bool, note: string)
    requires Ready(c) && (note == "" || IsWhitespace(note[0])) && tier != VisionFallback
    ensures Honest(c, tier, Verdict(tier, LiveMatching(c, p), note))
  {
    var live := LiveMatching(c, p);
    MatchingMeans(c.s, c.order, (r: ElementRef) => p(r) && Live(c.v, r));
    if |live| == 1 {
      assert live[0] in live;
      SuccessReadsBackExactlyWhen(tier, live[0], note);
    }
  }

  lemma LookupsAreHonest(c: Case)
    requires Ready(c)
    ensures Honest(c, ExistingRef, TierExistingRef(c)) && Honest(c, CachedBackendNode, TierCachedBackend(c))
  {
    forall id | id in c.s.elements
      ensures SuccessId(Succeed(ExistingRef, id, "")) == SuccessId(Succeed(CachedBackendNode, id, "")) == Some(id)
    {
      SuccessReadsBackExactlyWhen(ExistingRef, id, "");
      SuccessReadsBackExactlyWhen(CachedBackendNode, id, "");
    }
  }

  lemma CssTierIsHonest(c: Case)
    requires Ready(c)
    ensures Honest(c, CssSelector, TierCssSelector(c))
  {
    VerdictIsHonest(c, CssSelector, HasSelector(Selector(c)), "");
  }

  lemma DomIdTierIsHonest(c: Case)
    requires Ready(c)
    ensures Honest(c, DomIdName, TierDomIdName(c))
  {
    VerdictIsHonest(c, DomIdName, HasDomId(DomId(c)), " via dom_id");
    VerdictIsHonest(c, DomIdName, HasName(Name(c)), " via name");
  }

  lemma RoleTierIsHonest(c: Case)
    requires Ready(c)
    ensures Honest(c, AxRoleName, TierAxRoleName(c))
  {
    VerdictIsHonest(c, AxRoleName, HasRoleName(Role(c), AccessibleName(c)), " via role+name");
    VerdictIsHonest(c, AxRoleName, HasRole(Role(c)), " via role");
    VerdictIsHonest(c, AxRoleName, HasName(AccessibleName(c)), " via accessible name");
  }

  lemma TextTierIsHonest(c: Case)
    requires Ready(c)
    ensures Honest(c, SemanticText, TierSemanticText(c))
  {
    VerdictIsHonest(c, SemanticText, HasText(SoughtText(c)), " via semantic text");
  }

  lemma FreshSearchIsHonest(c: Case)
    requires Ready(c)
    ensures Honest(c, FreshDomAxSearch, TierFreshSearch(c))
  {
    var tokens := Tokens(c);
    VerdictIsHonest(c, FreshDomAxSearch, SharingAToken(tokens), " via fresh DOM/AX search");
  }

  lemma FrameShadowIsHonest(c: Case)
    requires Ready(c)
    ensures Honest(c, FrameShadowTraversal, TierFrameShadow(c))
  {
    VerdictIsHonest(c, FrameShadowTraversal, HasSelector(Selector(c)), " via frame/shadow selector pierce");
    VerdictIsHonest(c, FrameShadowTraversal, HasDomId(DomId(c)), " via frame/shadow dom_id");
    VerdictIsHonest(c, FrameShadowTraversal, HasText(SoughtText(c)), " via frame/shadow text");
    FrameShadowSays(c);
  }

  lemma FrameShadowSays(c: Case)
    ensures var a := TierFrameShadow(c);
      || a == Skipped(FrameShadowTraversal) || a == Attempt(FrameShadowTraversal, Miss, "", [])
      || a == Verdict(FrameShadowTraversal, LiveMatching(c, HasSelector(Selector(c))),
          " via frame/shadow selector pierce")
      || a == Verdict(FrameShadowTraversal, LiveMatching(c, HasDomId(DomId(c))), " via frame/shadow dom_id")
      || a == Verdict(FrameShadowTraversal, LiveMatching(c, HasText(SoughtText(c))), " via frame/shadow text")
  {
  }

  lemma TryIsHonest(c: Case, tier: Tier)
    requires Ready(c)
    ensures Honest(c, tier, Try(c, tier))
  {
    match tier
    case ExistingRef => LookupsAreHonest(c);
    case CachedBackendNode => LookupsAreHonest(c);
    case CssSelector => CssTierIsHonest(c);
    case DomIdName => DomIdTierIsHonest(c);
    case AxRoleName => RoleTierIsHonest(c);
    case SemanticText => TextTierIsHonest(c);
    case FreshDomAxSearch => FreshSearchIsHonest(c);
    case FrameShadowTraversal => FrameShadowIsHonest(c);
    case AmbiguityResolution =>
    case VisionFallback =>
  }

  // -- what a climb records ----------------------------------------------------

  predicate Deciding(a: Attempt) { a.status == Success || a.status == Ambiguity }

  /** Attempt `k` decided: everything before it was tried in vain, everything after it only skipped. */
  ghost predicate DecidedAt(p: Climb, k: int) {
    && 0 <= k < |p.trace| && Deciding(p.trace[k]) && p.trace[k].candidates != []
    && (forall i | 0 <= i < k :: !Deciding(p.trace[i]) && p.trace[i].status != SkippedDueToEarlierSuccess)
    && (forall i | k < i < |p.trace| :: p.trace[i].status == SkippedDueToEarlierSuccess)
    && (if p.trace[k].status == Success then p.recovered == Some(p.trace[k].candidates[0]) && p.ambiguous == None
        else p.recovered == None && p.ambiguous == Some(p.trace[k].candidates))
  }

  ghost predicate WellRecorded(c: Case, tiers: seq<Tier>, p: Climb) {
    && |p.trace| == |tiers|
    && (forall i | 0 <= i < |tiers| :: p.trace[i].tier == tiers[i])
    && (forall i | 0 <= i < |tiers| && p.trace[i].status != SkippedDueToEarlierSuccess ::
        Honest(c, tiers[i], p.trace[i]))
    && (if Decided(p) then exists k :: DecidedAt(p, k)
        else forall i | 0 <= i < |tiers| :: !Deciding(p.trace[i]) && p.trace[i].status != SkippedDueToEarlierSuccess)
  }

  lemma StepUpIsWellRecorded(c: Case, tiers: seq<Tier>, p: Climb, tier: Tier, a: Attempt)
    requires WellRecorded(c, tiers, p) && Honest(c, tier, a)
    ensures WellRecorded(c, tiers + [tier], StepUp(p, tier, a))
  {
    var q := StepUp(p, tier, a);
    if Decided(p) {
      var k :| DecidedAt(p, k);
      assert DecidedAt(q, k);
    } else if Deciding(a) {
      assert DecidedAt(q, |tiers|);
    }
  }

  lemma {:induction false} HonestClimbIsWellRecorded(c: Case, says: Tier -> Attempt, tiers: seq<Tier>)
    requires forall tier :: Honest(c, tier, says(tier))
    ensures WellRecorded(c, tiers, ClimbWith(says, tiers))
  {
    if tiers != [] {
      var below, tier := tiers[..|tiers| - 1], tiers[|tiers| - 1];
      HonestClimbIsWellRecorded(c, says, below);
      StepUpIsWellRecorded(c, below, ClimbWith(says, below), tier, says(tier));
      assert tiers == below + [tier];
    }
  }

  lemma ClimbIsWellRecorded(c: Case, tiers: seq<Tier>)
    requires Ready(c)
    ensures WellRecorded(c, tiers, ClimbAll(c, tiers))
  {
    forall tier ensures Honest(c, tier, Trying(c)(tier)) { TryIsHonest(c, tier); }
    HonestClimbIsWellRecorded(c, Trying(c), tiers);
  }

  // -- the promises -----------------------------------------------------------

  lemma {:induction false} ClimbedIsTheClimb(says: Tier -> Attempt, panics: Tier -> bool, tiers: seq<Tier>)
    ensures Climbed(says, panics, tiers).Some? ==> Climbed(says, panics, tiers).value == ClimbWith(says, tiers)
  {
    if tiers != [] { ClimbedIsTheClimb(says, panics, tiers[..|tiers| - 1]); }
  }

  lemma CompletedMeans(c: Case, tiers: seq<Tier>)
    requires Recovering(c, tiers).Completed?
    ensures var p := ClimbAll(c, tiers); Recovering(c, tiers) == Completed(Conclude(c, p), p.trace)
  {
    ClimbedIsTheClimb(Trying(c), Panicking(c), tiers);
  }

  /** A recovery that completes has recorded all ten tiers in ladder order; at most one decides, and after it there
      are only skips. */
  lemma EveryTierIsRecorded(c: Case)
    requires Ready(c) && Recovering(c, LADDER).Completed?
    ensures var trace := Recovering(c, LADDER).trace;
      && |trace| == 10 && (forall i | 0 <= i < 10 :: trace[i].tier == LADDER[i])
      && (forall i, j | 0 <= i < j < 10 && Deciding(trace[i]) :: trace[j].status == SkippedDueToEarlierSuccess)
  {
    CompletedMeans(c, LADDER);
    ClimbIsWellRecorded(c, LADDER);
    var p := ClimbAll(c, LADDER);
    if Decided(p) { var k :| DecidedAt(p, k); }
  }

  predicate VisionApplies(c: Case) { c.opts.allowVision && c.opts.isVisualContext }

  /** What a well-recorded climb concludes, whichever tiers it has. */
  lemma ConclusionIsHonest(c: Case, tiers: seq<Tier>, p: Climb)
    requires Ready(c) && WellRecorded(c, tiers, p)
    ensures match Conclude(c, p)
      case Recovered(r) => r.id in c.s.elements && c.s.elements[r.id] == r && Live(c.v, r) && p.recovered == Some(r.id)
      case AmbiguousOutcome(ids) => |ids| >= 2 && Distinct(ids) && (forall id | id in ids :: LiveId(c, id))
          && p.ambiguous == Some(ids)
      case VisionNeeded => !Decided(p) && VisionFallback in tiers && VisionApplies(c)
      case ResolutionFailed => !Decided(p) && !(VisionFallback in tiers && VisionApplies(c))
  {
    if Decided(p) {
      var k :| DecidedAt(p, k);
      assert Honest(c, tiers[k], p.trace[k]);
    } else {
      if VisionFallback in tiers {
        var i :| 0 <= i < |tiers| && tiers[i] == VisionFallback;
        assert Honest(c, tiers[i], p.trace[i]) && p.trace[i] in p.trace;
      }
      if a :| a in p.trace && a.tier == VisionFallback && a.status == VisionRequired {
        var i :| 0 <= i < |p.trace| && p.trace[i] == a;
        assert Honest(c, tiers[i], p.trace[i]);
      }
    }
  }

  /** What is recovered is a stored element, not stale, visible and enabled; an ambiguity lists at least two
      distinct such elements; vision is asked for exactly when no tier decided and both options are set. */
  lemma OutcomesAreHonest(c: Case)
    requires Ready(c) && Recovering(c, LADDER).Completed?
    ensures var trace := Recovering(c, LADDER).trace;
      match Recovering(c, LADDER).outcome
      case Recovered(r) => r.id in c.s.elements && c.s.elements[r.id] == r && Live(c.v, r)
      case AmbiguousOutcome(ids) => |ids| >= 2 && Distinct(ids) && forall id | id in ids :: LiveId(c, id)
      case VisionNeeded => VisionApplies(c) && forall a | a in trace :: !Deciding(a)
      case ResolutionFailed => !VisionApplies(c) && forall a | a in trace :: !Deciding(a)
  {
    CompletedMeans(c, LADDER);
    ClimbIsWellRecorded(c, LADDER);
    ConclusionIsHonest(c, LADDER, ClimbAll(c, LADDER));
    assert LADDER[9] == VisionFallback;
  }

  // -- frame/shadow traversal is redundant ---------------------------------------

  /** The CSS, dom-id and text tiers, left undecided, have each found no live match over the same index. */
  lemma UndecidedMeansNoMatch(c: Case)
    requires !Deciding(TierCssSelector(c)) && !Deciding(TierDomIdName(c)) && !Deciding(TierSemanticText(c))
    ensures TierFrameShadow(c).status in {Miss, SkippedMissingInput}
  {
  }

  /** An undecided climb has tried each of its tiers, and none of them decides. */
  lemma {:induction false} UndecidedTiers(c: Case, says: Tier -> Attempt, tiers: seq<Tier>, tier: Tier)
    requires (forall t :: Honest(c, t, says(t))) && tier in tiers && !Decided(ClimbWith(says, tiers))
    ensures !Deciding(says(tier))
    decreases |tiers|
  {
    var below, last := tiers[..|tiers| - 1], tiers[|tiers| - 1];
    assert Honest(c, last, says(last));
    if tier != last {
      assert tiers == below + [last];
      UndecidedTiers(c, says, below, tier);
    }
  }

  const BEFORE: seq<Tier> :=
    [ExistingRef, CachedBackendNode, CssSelector, DomIdName, AxRoleName, SemanticText, FreshDomAxSearch]
  const REDUCED: seq<Tier> := BEFORE + [AmbiguityResolution, VisionFallback]

  lemma TriedInVain(c: Case)
    requires !Deciding(Try(c, CssSelector)) && !Deciding(Try(c, DomIdName)) && !Deciding(Try(c, SemanticText))
    ensures Try(c, FrameShadowTraversal).status in {Miss, SkippedMissingInput}
  {
    UndecidedMeansNoMatch(c);
  }

  /** Whenever a ladder with the CSS, dom-id and text tiers reaches frame/shadow traversal undecided, that
      tier finds nothing either. */
  lemma FrameShadowNeverDecides(c: Case, tiers: seq<Tier>)
    requires Ready(c) && CssSelector in tiers && DomIdName in tiers && SemanticText in tiers
        && !Decided(ClimbAll(c, tiers))
    ensures Try(c, FrameShadowTraversal).status in {Miss, SkippedMissingInput}
  {
    forall tier ensures Honest(c, tier, Trying(c)(tier)) { TryIsHonest(c, tier); }
    UndecidedTiers(c, Trying(c), tiers, CssSelector);
    UndecidedTiers(c, Trying(c), tiers, DomIdName);
    UndecidedTiers(c, Trying(c), tiers, SemanticText);
    TriedInVain(c);
  }

  /** How far a climb has decided after one more tier. */
  lemma OneMoreTier(says: Tier -> Attempt, tiers: seq<Tier>, tier: Tier)
    ensures var p, q := ClimbWith(says, tiers), ClimbWith(says, tiers + [tier]);
      Decided(p) || !Deciding(says(tier)) ==> q.recovered == p.recovered && q.ambiguous == p.ambiguous
  {
    assert (tiers + [tier])[..|tiers|] == tiers;
  }

  lemma LastTwoTiersDecideNothing(c: Case, tiers: seq<Tier>)
    requires Ready(c)
    ensures var p, q := ClimbAll(c, tiers), ClimbAll(c, tiers + [AmbiguityResolution, VisionFallback]);
      q.recovered == p.recovered && q.ambiguous == p.ambiguous
  {
    OneMoreTier(Trying(c), tiers, AmbiguityResolution);
    OneMoreTier(Trying(c), tiers + [AmbiguityResolution], VisionFallback);
    assert tiers + [AmbiguityResolution] + [VisionFallback] == tiers + [AmbiguityResolution, VisionFallback];
  }

  lemma SameConclusion(c: Case)
    requires Ready(c)
    ensures Conclude(c, ClimbAll(c, REDUCED)) == Conclude(c, ClimbAll(c, LADDER))
  {
    var with := BEFORE + [FrameShadowTraversal];
    assert LADDER == with + [AmbiguityResolution, VisionFallback];
    LastTwoTiersDecideNothing(c, BEFORE);
    LastTwoTiersDecideNothing(c, with);
    assert BEFORE[2] == CssSelector && BEFORE[3] == DomIdName && BEFORE[5] == SemanticText;
    if !Decided(ClimbAll(c, BEFORE)) { FrameShadowNeverDecides(c, BEFORE); }
    OneMoreTier(Trying(c), BEFORE, FrameShadowTraversal);
    ClimbIsWellRecorded(c, LADDER);
    ClimbIsWellRecorded(c, REDUCED);
    ConclusionIsHonest(c, LADDER, ClimbAll(c, LADDER));
    ConclusionIsHonest(c, REDUCED, ClimbAll(c, REDUCED));
    assert LADDER[9] == VisionFallback && REDUCED[8] == VisionFallback;
  }

  // -- when a recovery panics ----------------------------------------------------

  /** Tier `k` is reached undecided and panics. */
  ghost predicate PanicsAt(says: Tier -> Attempt, panics: Tier -> bool, tiers: seq<Tier>, k: int) {
    0 <= k < |tiers| && panics(tiers[k]) && forall i | 0 <= i < k :: !Deciding(says(tiers[i]))
  }

  lemma {:induction false} ClimbPanicsExactlyWhen(c: Case, says: Tier -> Attempt, panics: Tier -> bool,
      tiers: seq<Tier>)
    requires forall tier :: Honest(c, tier, says(tier))
    ensures Climbed(says, panics, tiers) == None <==> exists k :: PanicsAt(says, panics, tiers, k)
  {
    if tiers != [] {
      var below, n := tiers[..|tiers| - 1], |tiers| - 1;
      ClimbPanicsExactlyWhen(c, says, panics, below);
      ClimbedIsTheClimb(says, panics, below);
      assert forall k | k < n :: PanicsAt(says, panics, below, k) <==> PanicsAt(says, panics, tiers, k);
      UndecidedExactlyWhen(c, says, below);
      assert forall i | 0 <= i < n :: below[i] == tiers[i];
      assert PanicsAt(says, panics, tiers, n) <==> panics(tiers[n]) && !Decided(ClimbWith(says, below));
    }
  }

  lemma UndecidedExactlyWhen(c: Case, says: Tier -> Attempt, tiers: seq<Tier>)
    requires forall tier :: Honest(c, tier, says(tier))
    ensures !Decided(ClimbWith(says, tiers)) <==> forall i | 0 <= i < |tiers| :: !Deciding(says(tiers[i]))
  {
    if !Decided(ClimbWith(says, tiers)) {
      forall i | 0 <= i < |tiers| ensures !Deciding(says(tiers[i])) { UndecidedTiers(c, says, tiers, tiers[i]); }
    }
    if forall i | 0 <= i < |tiers| :: !Deciding(says(tiers[i])) { UndecidedAfter(says, tiers); }
  }

  ghost predicate UndecidedBy(says: Tier -> Attempt, k: nat)
    requires k <= 10
  {
    forall i | 0 <= i < k :: !Deciding(says(LADDER[i]))
  }

  /** None of the first `k` tiers decides. */
  ghost predicate Undecided(c: Case, k: nat)
    requires k <= 10
  {
    UndecidedBy(Trying(c), k)
  }

  /** A text that has to be cut, and to how many bytes. */
  datatype Cut = Cut(text: string, bytes: nat)

  /** The texts a recovery has to cut on its way: the text sought, if the text tier is reached and does not find
      exactly one element; the tokens, if the fresh search is reached and finds none; the selector and the text of
      the request, if nothing decides and vision does not apply. */
  ghost predicate IsCut(c: Case, x: Cut) { CutsTheText(c, x) || CutsTheTokens(c, x) || CutsTheRequest(c, x) }

  ghost predicate CutsTheText(c: Case, x: Cut) {
    && Undecided(c, 5) && !IsBlank(SoughtText(c)) && |LiveMatching(c, HasText(SoughtText(c)))| != 1
    && x == Cut(SoughtText(c), QUOTED)
  }

  ghost predicate CutsTheTokens(c: Case, x: Cut) {
    && Undecided(c, 6) && Tokens(c) != [] && LiveMatching(c, SharingAToken(Tokens(c))) == []
    && x == Cut(Joined(Tokens(c), "|"), QUOTED_TOKENS)
  }

  ghost predicate CutsTheRequest(c: Case, x: Cut) {
    && Undecided(c, 10) && !VisionApplies(c)
    && (c.req.selector == Some(x.text) || c.req.text == Some(x.text)) && x.bytes == QUOTED
  }

  lemma PlacesToPanic(c: Case, says: Tier -> Attempt, panics: Tier -> bool, tiers: seq<Tier>)
    requires forall tier :: Honest(c, tier, says(tier))
    requires |tiers| >= 7 && forall i | 0 <= i < 7 :: tiers[i] == LADDER[i]
    requires forall k | 0 <= k < |tiers| && k !in {5, 6} :: !PanicsAt(says, panics, tiers, k)
    ensures Climbed(says, panics, tiers) == None
      <==> (UndecidedBy(says, 5) && panics(SemanticText)) || (UndecidedBy(says, 6) && panics(FreshDomAxSearch))
  {
    ClimbPanicsExactlyWhen(c, says, panics, tiers);
    assert tiers[5] == SemanticText && tiers[6] == FreshDomAxSearch;
    assert PanicsAt(says, panics, tiers, 5) <==> UndecidedBy(says, 5) && panics(SemanticText);
    assert PanicsAt(says, panics, tiers, 6) <==> UndecidedBy(says, 6) && panics(FreshDomAxSearch);
  }

  /** Where the ladder can panic: in the text tier and in the fresh search, never in frame/shadow traversal. */
  lemma LadderPanicsExactlyWhen(c: Case, tiers: seq<Tier>)
    requires Ready(c) && tiers in {LADDER, REDUCED}
    ensures Climbed(Trying(c), Panicking(c), tiers) == None
      <==> (Undecided(c, 5) && TierPanics(c, SemanticText)) || (Undecided(c, 6) && TierPanics(c, FreshDomAxSearch))
  {
    var says, panics := Trying(c), Panicking(c);
    forall tier ensures Honest(c, tier, says(tier)) { TryIsHonest(c, tier); }
    assert forall i | 0 <= i < 7 :: tiers[i] == LADDER[i];
    forall k | 0 <= k < |tiers| && k !in {5, 6} ensures !PanicsAt(says, panics, tiers, k) {
      NoPanicHere(c, tiers, k);
    }
    PlacesToPanic(c, says, panics, tiers);
  }

  lemma NoPanicHere(c: Case, tiers: seq<Tier>, k: nat)
    requires tiers in {LADDER, REDUCED} && k < |tiers| && k !in {5, 6}
    ensures !PanicsAt(Trying(c), Panicking(c), tiers, k)
  {
    if tiers[k] == FrameShadowTraversal {
      assert k == 7 && tiers[5] == SemanticText;
      if !Deciding(Try(c, tiers[5])) { PiercingNeverPanics(c); }
      assert Trying(c)(tiers[5]) == Try(c, tiers[5]);
    } else {
      assert tiers[k] !in {SemanticText, FreshDomAxSearch};
      assert !Panicking(c)(tiers[k]);
    }
  }

  lemma PiercingNeverPanics(c: Case)
    requires !Deciding(TierSemanticText(c))
    ensures !TierPanics(c, FrameShadowTraversal)
  {
  }

  lemma NothingDecidesExactlyWhen(c: Case)
    requires Ready(c)
    ensures Conclude(c, ClimbAll(c, LADDER)) == ResolutionFailed <==> Undecided(c, 10) && !VisionApplies(c)
  {
    forall tier ensures Honest(c, tier, Trying(c)(tier)) { TryIsHonest(c, tier); }
    UndecidedExactlyWhen(c, Trying(c), LADDER);
    ClimbIsWellRecorded(c, LADDER);
    ConclusionIsHonest(c, LADDER, ClimbAll(c, LADDER));
    assert LADDER[9] == VisionFallback;
  }

  lemma TextCutsExactlyWhen(c: Case)
    ensures (forall x | CutsTheText(c, x) :: CutsCleanly(x.text, x.bytes))
        <==> !(Undecided(c, 5) && TierPanics(c, SemanticText))
  {
    TruncateSucceedsExactlyWhen(SoughtText(c), QUOTED);
    if Undecided(c, 5) && TierPanics(c, SemanticText) { assert CutsTheText(c, Cut(SoughtText(c), QUOTED)); }
  }

  lemma TokensCutExactlyWhen(c: Case)
    ensures (forall x | CutsTheTokens(c, x) :: CutsCleanly(x.text, x.bytes))
        <==> !(Undecided(c, 6) && TierPanics(c, FreshDomAxSearch))
  {
    var tokens := Joined(Tokens(c), "|");
    TruncateSucceedsExactlyWhen(tokens, QUOTED_TOKENS);
    if Undecided(c, 6) && TierPanics(c, FreshDomAxSearch) { assert CutsTheTokens(c, Cut(tokens, QUOTED_TOKENS)); }
  }

  lemma RequestCutsExactlyWhen(c: Case)
    ensures (forall x | CutsTheRequest(c, x) :: CutsCleanly(x.text, x.bytes))
      <==> !(Undecided(c, 10) && !VisionApplies(c) && QuotingPanics(c.req))
  {
    QuotingPanicsExactlyWhen(c.req);
    if Undecided(c, 10) && !VisionApplies(c) && QuotingPanics(c.req) {
      if c.req.selector.Some? && !CutsCleanly(c.req.selector.value, QUOTED) {
        assert CutsTheRequest(c, Cut(c.req.selector.value, QUOTED));
      } else {
        assert CutsTheRequest(c, Cut(c.req.text.value, QUOTED));
      }
    }
  }

  /** A recovery completes exactly when every text it has to cut on its way cuts cleanly. */
  lemma RecoveryCompletesExactlyWhen(c: Case)
    requires Ready(c)
    ensures Recovering(c, LADDER).Completed? <==> forall x | IsCut(c, x) :: CutsCleanly(x.text, x.bytes)
  {
    LadderPanicsExactlyWhen(c, LADDER);
    ClimbedIsTheClimb(Trying(c), Panicking(c), LADDER);
    NothingDecidesExactlyWhen(c);
    TextCutsExactlyWhen(c);
    TokensCutExactlyWhen(c);
    RequestCutsExactlyWhen(c);
  }

  predicate AsciiField(given: Option<string>) { given.Some? ==> IsAscii(given.value) }

  predicate AsciiRequest(c: Case) {
    && AsciiField(c.req.selector) && AsciiField(c.req.domId) && AsciiField(c.req.name) && AsciiField(c.req.role)
    && AsciiField(c.req.accessibleName) && AsciiField(c.req.text) && AsciiField(c.req.tag)
    && (c.prior.Some? ==> IsAscii(c.prior.value.domId) && IsAscii(c.prior.value.name) && IsAscii(c.prior.value.text))
  }

  predicate AllAscii(tokens: seq<string>) { forall t | t in tokens :: IsAscii(t) }

  lemma AsciiJoins(a: string, b: string)
    requires IsAscii(a) && IsAscii(b)
    ensures IsAscii(a + b)
  {
  }

  lemma {:induction false} JoinedIsAscii(tokens: seq<string>, mark: string)
    requires IsAscii(mark) && AllAscii(tokens)
    ensures IsAscii(Joined(tokens, mark))
  {
    if tokens != [] { assert tokens[0] in tokens; }
    if |tokens| > 1 {
      JoinedIsAscii(tokens[1..], mark);
      AsciiJoins(tokens[0], mark);
      AsciiJoins(tokens[0] + mark, Joined(tokens[1..], mark));
    }
  }

  lemma TokenIsAscii(given: Option<string>)
    requires AsciiField(given)
    ensures AllAscii(AsSeq(given))
  {
  }

  lemma TokensAreAscii(c: Case)
    requires AsciiRequest(c)
    ensures AllAscii(Tokens(c))
  {
    TokenIsAscii(c.req.domId);
    TokenIsAscii(c.req.name);
    TokenIsAscii(c.req.accessibleName);
    TokenIsAscii(c.req.text);
    TokenIsAscii(c.req.role);
    TokenIsAscii(c.req.tag);
    if c.prior.Some? {
      TokenIsAscii(Some(c.prior.value.domId));
      TokenIsAscii(Some(c.prior.value.name));
      TokenIsAscii(Some(c.prior.value.text));
    }
  }

  /** In particular, when everything asked for and everything known of the expired reference is ASCII. */
  lemma AsciiRequestsComplete(c: Case)
    requires Ready(c) && AsciiRequest(c)
    ensures Recovering(c, LADDER).Completed?
  {
    forall x | IsCut(c, x) ensures CutsCleanly(x.text, x.bytes) {
      if CutsTheTokens(c, x) {
        TokensAreAscii(c);
        JoinedIsAscii(Tokens(c), "|");
      }
      AsciiCutsCleanly(x.text, x.bytes);
    }
    RecoveryCompletesExactlyWhen(c);
  }

  /** It need not: on an empty index, for a text of 27 three-byte characters. */
  lemma RecoveryCanPanic(v: Versions, opts: Options)
    ensures var c := Case(EmptyStore(), v, [], None, TextRequest(Repeated('\U{4E2D}', 27)), opts);
      Ready(c) && Recovering(c, LADDER) == Panicked
  {
    var text := Repeated('\U{4E2D}', 27);
    ThreeByteTextCutsExactlyWhen('\U{4E2D}', 27, QUOTED);
    RepeatedBytes('\U{4E2D}', 27);
    assert text[0] == '\U{4E2D}';
    UncutTextStopsRecovery(Case(EmptyStore(), v, [], None, TextRequest(text), opts), text);
  }

  lemma UncutTextStopsRecovery(c: Case, text: string)
    requires c.s == EmptyStore() && c.order == [] && c.prior == None && c.req == TextRequest(text)
    requires !CutsCleanly(text, QUOTED) && !IsBlank(text)
    ensures Ready(c) && Recovering(c, LADDER) == Panicked
  {
    OnlyTheTextTierIsReached(c, text);
    assert IsCut(c, Cut(text, QUOTED));
    RecoveryCompletesExactlyWhen(c);
  }

  lemma OnlyTheTextTierIsReached(c: Case, text: string)
    requires c.s == EmptyStore() && c.order == [] && c.prior == None && c.req == TextRequest(text)
    ensures Undecided(c, 5) && SoughtText(c) == text && LiveMatching(c, HasText(text)) == []
  {
    assert LADDER[0] == ExistingRef && LADDER[1] == CachedBackendNode && LADDER[2] == CssSelector;
    assert LADDER[3] == DomIdName && LADDER[4] == AxRoleName;
    assert Try(c, ExistingRef) == Skipped(ExistingRef) && Try(c, CachedBackendNode) == Skipped(CachedBackendNode);
    assert Try(c, CssSelector) == Skipped(CssSelector) && Try(c, DomIdName) == Skipped(DomIdName);
    assert Try(c, AxRoleName) == Skipped(AxRoleName);
  }

  /** Dropping frame/shadow traversal from the ladder changes nothing a caller sees: it panics in the same cases,
      and otherwise the outcome is the same kind with the same element or candidates. */
  lemma FrameShadowIsRedundant(c: Case)
    requires Ready(c)
    ensures Recovering(c, REDUCED).Panicked? <==> Recovering(c, LADDER).Panicked?
    ensures Recovering(c, LADDER).Completed? ==> Recovering(c, REDUCED).outcome == Recovering(c, LADDER).outcome
  {
    LadderPanicsExactlyWhen(c, LADDER);
    LadderPanicsExactlyWhen(c, REDUCED);
    SameConclusion(c);
    ClimbedIsTheClimb(Trying(c), Panicking(c), LADDER);
    ClimbedIsTheClimb(Trying(c), Panicking(c), REDUCED);
  }

  // -- where the fresh search does guess ------------------------------------------

  /** The element shares something with the tokens that is not merely an empty field. */
  predicate Related(tokens: seq<string>, r: ElementRef) {
    exists i, j | 0 <= i < |tokens| && 0 <= j < 6 :: Fields(r)[j] != "" && Overlap(tokens[i], Fields(r)[j])
  }

  /** The fresh search takes an element for a match exactly when it is related to the request or has an
      empty field, since every text contains the empty one. */
  lemma FreshSearchMatchesExactlyWhen(tokens: seq<string>, r: ElementRef)
    requires tokens != []
    ensures SharesAToken(tokens, r) <==> Related(tokens, r) || "" in Fields(r)
  {
    if "" in Fields(r) {
      var j :| 0 <= j < 6 && Fields(r)[j] == "";
      assert OccursAt(Lower(tokens[0]), Lower(""), 0);
      assert Overlap(tokens[0], Fields(r)[j]);
    }
  }

  /** Every element created for an inserted node has no role, so it matches every fresh search. */
  lemma InsertedNodesMatchEveryFreshSearch(v: Versions, p: NodePayload, tokens: seq<string>)
    requires tokens != []
    ensures SharesAToken(tokens, NewRef(v, p))
  {
    FreshSearchMatchesExactlyWhen(tokens, NewRef(v, p));
    assert Fields(NewRef(v, p))[4] == "";
  }

  lemma {:induction false} UndecidedAfter(says: Tier -> Attempt, tiers: seq<Tier>)
    requires forall tier | tier in tiers :: !Deciding(says(tier))
    ensures !Decided(ClimbWith(says, tiers))
  {
    if tiers != [] {
      var below, last := tiers[..|tiers| - 1], tiers[|tiers| - 1];
      UndecidedAfter(says, below);
      OneMoreTier(says, below, last);
      assert tiers == below + [last];
    }
  }

  /** A tier tried and deciding settles the climb. */
  lemma DecidingSettles(says: Tier -> Attempt, tiers: seq<Tier>, tier: Tier)
    requires !Decided(ClimbWith(says, tiers))
    ensures var p := ClimbWith(says, tiers + [tier]);
      && p.recovered == SuccessId(says(tier))
      && p.ambiguous
          == if p.recovered == None && says(tier).status == Ambiguity then Some(says(tier).candidates) else None
  {
    assert (tiers + [tier])[..|tiers|] == tiers;
  }

  lemma {:induction false} DecidedStays(says: Tier -> Attempt, tiers: seq<Tier>, more: seq<Tier>)
    requires Decided(ClimbWith(says, tiers))
    ensures var p, q := ClimbWith(says, tiers), ClimbWith(says, tiers + more);
      q.recovered == p.recovered && q.ambiguous == p.ambiguous
  {
    if more == [] {
      assert tiers + more == tiers;
    } else {
      var below, last := more[..|more| - 1], more[|more| - 1];
      DecidedStays(says, tiers, below);
      OneMoreTier(says, tiers + below, last);
      assert tiers + more == tiers + below + [last];
    }
  }

  lemma FirstDecidingSettles(c: Case, says: Tier -> Attempt, tiers: seq<Tier>, k: nat)
    requires (forall tier :: Honest(c, tier, says(tier))) && k < |tiers|
    requires (forall tier | tier in tiers[..k] :: !Deciding(says(tier))) && Deciding(says(tiers[k]))
    ensures var a, p := says(tiers[k]), ClimbWith(says, tiers);
      && (a.status == Success ==>
            (|a.candidates| == 1 && LiveId(c, a.candidates[0]) && p.recovered == Some(a.candidates[0])
                && p.ambiguous == None))
      && (a.status == Ambiguity ==> p.recovered == None && p.ambiguous == Some(a.candidates))
  {
    UndecidedAfter(says, tiers[..k]);
    DecidingSettles(says, tiers[..k], tiers[k]);
    assert tiers[..k] + [tiers[k]] == tiers[..k + 1];
    assert Honest(c, tiers[k], says(tiers[k]));
    DecidedStays(says, tiers[..k + 1], tiers[k + 1..]);
    assert tiers[..k + 1] + tiers[k + 1..] == tiers;
  }

  /** Earlier tiers outrank later ones: the first tier that decides, decides the outcome, whatever the tiers
      after it would have said. */
  lemma TheFirstDecidingTierWins(c: Case, k: nat)
    requires Ready(c) && k < 10 && forall tier | tier in LADDER[..k] :: !Deciding(Try(c, tier))
    requires Deciding(Try(c, LADDER[k]))
    ensures var a, outcome := Try(c, LADDER[k]), Conclude(c, ClimbAll(c, LADDER));
      && (a.status == Success ==>
            (|a.candidates| == 1 && a.candidates[0] in c.s.elements
                && outcome == Recovered(c.s.elements[a.candidates[0]])))
      && (a.status == Ambiguity ==> outcome == AmbiguousOutcome(a.candidates))
  {
    forall tier ensures Honest(c, tier, Trying(c)(tier)) { TryIsHonest(c, tier); }
    FirstDecidingSettles(c, Trying(c), LADDER, k);
  }

  // -- what is recovered, in terms of what was asked ---------------------------------

  /** Only this live element satisfies the predicate. */
  ghost predicate OnlyLive(c: Case, p: ElementRef -> bool, id: string) {
    LiveId(c, id) && p(c.s.elements[id]) && forall other | LiveId(c, other) && p(c.s.elements[other]) :: other == id
  }

  /** What each tier looks for. The dom id counts if some live element has it, otherwise the name does. */
  ghost predicate Matches(c: Case, tier: Tier, r: ElementRef) {
    match tier
    case ExistingRef => Given(c, c.req.refId, (e: ElementRef) => e.id) == Some(r.id)
    case CachedBackendNode => SoughtBackend(c) != 0 && r.backend == SoughtBackend(c)
    case CssSelector => UsableSelector(Selector(c)) && r.selector == Selector(c)
    case DomIdName => if SomeoneHasTheDomId(c) then r.domId == DomId(c) else Name(c) != "" && HasName(Name(c))(r)
    case AxRoleName =>
      && (Role(c) != "" || AccessibleName(c) != "")
      && (Role(c) != "" ==> r.role == Role(c)) && (AccessibleName(c) != "" ==> HasName(AccessibleName(c))(r))
    case SemanticText => !IsBlank(SoughtText(c)) && HasText(SoughtText(c))(r)
    case FreshDomAxSearch => SharesAToken(Tokens(c), r)
    case _ => false
  }

  predicate UsableSelector(sel: string) { sel != "" && sel != "*" && ValidSelector(sel) }

  ghost predicate SomeoneHasTheDomId(c: Case) {
    DomId(c) != "" && exists id :: LiveId(c, id) && c.s.elements[id].domId == DomId(c)
  }

  /** The element is live, fits what the tier looks for, and no other live element does. */
  ghost predicate OnlyMatch(c: Case, tier: Tier, r: ElementRef) {
    && LiveId(c, r.id) && c.s.elements[r.id] == r && Matches(c, tier, r)
    && forall id | LiveId(c, id) && Matches(c, tier, c.s.elements[id]) :: id == r.id
  }

  lemma VerdictPicksTheOnly(c: Case, tier: Tier, p: ElementRef -> bool, note: string, id: string)
    requires Ready(c)
    ensures Verdict(tier, LiveMatching(c, p), note) == Succeed(tier, id, note) <==> OnlyLive(c, p, id)
    ensures LiveMatching(c, p) == [] <==> forall other | LiveId(c, other) :: !p(c.s.elements[other])
  {
    var q := (r: ElementRef) => p(r) && Live(c.v, r);
    ScanFindsOnly(c.s, c.order, q, id);
    ScanFindsNone(c.s, c.order, q);
    assert OnlyOneHas(c.s, q, id) <==> OnlyLive(c, p, id);
    var live := LiveMatching(c, p);
    if |live| == 1 { assert live == [live[0]]; }
  }

  /** `a` is a success that picks `id`. */
  predicate Picks(a: Attempt, id: string) { a.status == Success && a.candidates == [id] }

  lemma LookupsPickTheOnlyMatch(c: Case, id: string)
    requires Ready(c) && id in c.s.elements
    ensures Picks(TierExistingRef(c), id) <==> OnlyMatch(c, ExistingRef, c.s.elements[id])
    ensures Picks(TierCachedBackend(c), id) <==> OnlyMatch(c, CachedBackendNode, c.s.elements[id])
  {
  }

  lemma SelectorPicksTheOnlyMatch(c: Case, id: string)
    requires Ready(c) && id in c.s.elements
    ensures Picks(TierCssSelector(c), id) <==> OnlyMatch(c, CssSelector, c.s.elements[id])
  {
    VerdictPicksTheOnly(c, CssSelector, HasSelector(Selector(c)), "", id);
  }

  lemma DomIdPicksTheOnlyMatch(c: Case, id: string)
    requires Ready(c) && id in c.s.elements
    ensures Picks(TierDomIdName(c), id) <==> OnlyMatch(c, DomIdName, c.s.elements[id])
  {
    VerdictPicksTheOnly(c, DomIdName, HasDomId(DomId(c)), " via dom_id", id);
    if !SomeoneHasTheDomId(c) { NamePicksTheOnlyMatch(c, id); }
  }

  lemma NamePicksTheOnlyMatch(c: Case, id: string)
    requires Ready(c) && id in c.s.elements && !SomeoneHasTheDomId(c)
    ensures Picks(TierDomIdName(c), id) <==> OnlyMatch(c, DomIdName, c.s.elements[id])
  {
    VerdictPicksTheOnly(c, DomIdName, HasDomId(DomId(c)), " via dom_id", id);
    VerdictPicksTheOnly(c, DomIdName, HasName(Name(c)), " via name", id);
    assert DomId(c) != "" ==> LiveMatching(c, HasDomId(DomId(c))) == [];
  }

  lemma RolePicksTheOnlyMatch(c: Case, id: string)
    requires Ready(c) && id in c.s.elements
    ensures Picks(TierAxRoleName(c), id) <==> OnlyMatch(c, AxRoleName, c.s.elements[id])
  {
    if Role(c) != "" && AccessibleName(c) != "" {
      RoleAndNamePick(c, id);
    } else if Role(c) != "" {
      RoleAlonePicks(c, id);
    } else {
      VerdictPicksTheOnly(c, AxRoleName, HasName(AccessibleName(c)), " via accessible name", id);
    }
  }

  lemma RoleAndNamePick(c: Case, id: string)
    requires Ready(c) && id in c.s.elements && Role(c) != "" && AccessibleName(c) != ""
    ensures Picks(TierAxRoleName(c), id) <==> OnlyMatch(c, AxRoleName, c.s.elements[id])
  {
    VerdictPicksTheOnly(c, AxRoleName, HasRoleName(Role(c), AccessibleName(c)), " via role+name", id);
  }

  lemma RoleAlonePicks(c: Case, id: string)
    requires Ready(c) && id in c.s.elements && Role(c) != "" && AccessibleName(c) == ""
    ensures Picks(TierAxRoleName(c), id) <==> OnlyMatch(c, AxRoleName, c.s.elements[id])
  {
    VerdictPicksTheOnly(c, AxRoleName, HasRole(Role(c)), " via role", id);
  }

  lemma TextPicksTheOnlyMatch(c: Case, id: string)
    requires Ready(c) && id in c.s.elements
    ensures Picks(TierSemanticText(c), id) <==> OnlyMatch(c, SemanticText, c.s.elements[id])
  {
    VerdictPicksTheOnly(c, SemanticText, HasText(SoughtText(c)), " via semantic text", id);
  }

  lemma FreshSearchPicksTheOnlyMatch(c: Case, id: string)
    requires Ready(c) && id in c.s.elements
    ensures Picks(TierFreshSearch(c), id) <==> OnlyMatch(c, FreshDomAxSearch, c.s.elements[id])
  {
    VerdictPicksTheOnly(c, FreshDomAxSearch, SharingAToken(Tokens(c)), " via fresh DOM/AX search", id);
  }

  /** A tier succeeds with exactly the element that is the only live one to fit what it looks for. */
  lemma TierPicksTheOnlyMatch(c: Case, tier: Tier, id: string)
    requires Ready(c) && id in c.s.elements && tier != FrameShadowTraversal
    ensures Picks(Try(c, tier), id) <==> OnlyMatch(c, tier, c.s.elements[id])
  {
    match tier
    case ExistingRef => LookupsPickTheOnlyMatch(c, id);
    case CachedBackendNode => LookupsPickTheOnlyMatch(c, id);
    case CssSelector => SelectorPicksTheOnlyMatch(c, id);
    case DomIdName => DomIdPicksTheOnlyMatch(c, id);
    case AxRoleName => RolePicksTheOnlyMatch(c, id);
    case SemanticText => TextPicksTheOnlyMatch(c, id);
    case FreshDomAxSearch => FreshSearchPicksTheOnlyMatch(c, id);
    case _ =>
  }

  /** `k` is the first tier that decides. */
  ghost predicate FirstDeciding(c: Case, k: nat) { k < 10 && Undecided(c, k) && Deciding(Try(c, LADDER[k])) }

  lemma {:induction false} SomeTierDecidesFirst(c: Case, n: nat) returns (k: nat)
    requires n <= 10 && !Undecided(c, n)
    ensures FirstDeciding(c, k)
    decreases n
  {
    if !Undecided(c, n - 1) { k := SomeTierDecidesFirst(c, n - 1); } else { k := n - 1; }
  }

  lemma PiercingDecidesNothing(c: Case, k: nat)
    requires Ready(c) && FirstDeciding(c, k)
    ensures LADDER[k] != FrameShadowTraversal
  {
    if LADDER[k] == FrameShadowTraversal {
      assert k == 7 && LADDER[2] == CssSelector && LADDER[3] == DomIdName && LADDER[5] == SemanticText;
      assert !Deciding(Trying(c)(LADDER[2])) && !Deciding(Trying(c)(LADDER[3])) && !Deciding(Trying(c)(LADDER[5]));
      TriedInVain(c);
    }
  }

  lemma FirstDecidingConcludes(c: Case, k: nat)
    requires Ready(c) && FirstDeciding(c, k)
    ensures var a, outcome := Try(c, LADDER[k]), Conclude(c, ClimbAll(c, LADDER));
      && (a.status == Success ==>
            (|a.candidates| == 1 && a.candidates[0] in c.s.elements
                && outcome == Recovered(c.s.elements[a.candidates[0]])))
      && (a.status == Ambiguity ==> outcome == AmbiguousOutcome(a.candidates))
  {
    forall tier | tier in LADDER[..k] ensures !Deciding(Try(c, tier)) {
      var i :| 0 <= i < k && LADDER[i] == tier;
      assert !Deciding(Trying(c)(LADDER[i]));
    }
    TheFirstDecidingTierWins(c, k);
  }

  /** The tier that recovers `r`, if it is recovered. */
  ghost predicate RecoveredByMatch(c: Case, k: nat, r: ElementRef) {
    k < 10 && Undecided(c, k) && OnlyMatch(c, LADDER[k], r)
  }

  lemma FirstDecidingPicks(c: Case, k: nat, r: ElementRef)
    requires Ready(c) && FirstDeciding(c, k) && r.id in c.s.elements && c.s.elements[r.id] == r
    ensures Conclude(c, ClimbAll(c, LADDER)) == Recovered(r) <==> OnlyMatch(c, LADDER[k], r)
  {
    FirstDecidingConcludes(c, k);
    PiercingDecidesNothing(c, k);
    TierPicksTheOnlyMatch(c, LADDER[k], r.id);
    StatusOf(Try(c, LADDER[k]));
  }

  lemma StatusOf(a: Attempt)
    ensures Deciding(a) <==> a.status == Success || a.status == Ambiguity
  {
  }

  lemma OnlyMatchDecides(c: Case, k: nat, r: ElementRef)
    requires Ready(c) && k < 10 && OnlyMatch(c, LADDER[k], r)
    ensures Deciding(Trying(c)(LADDER[k]))
  {
    TierPicksTheOnlyMatch(c, LADDER[k], r.id);
  }

  /** An element is recovered exactly when, at the first tier that decides, it is the only live element that fits
      what that tier looks for. */
  lemma RecoveredExactlyWhenTheOnlyMatch(c: Case, r: ElementRef)
    requires Ready(c) && Recovering(c, LADDER).Completed?
    ensures Recovering(c, LADDER).outcome == Recovered(r) <==> exists k: nat :: RecoveredByMatch(c, k, r)
  {
    CompletedMeans(c, LADDER);
    if Recovering(c, LADDER).outcome == Recovered(r) {
      NothingDecidesMeansNothingRecovered(c, r);
      var k := SomeTierDecidesFirst(c, 10);
      FirstDecidingPicks(c, k, r);
      assert RecoveredByMatch(c, k, r);
    }
    if k: nat :| RecoveredByMatch(c, k, r) {
      OnlyMatchDecides(c, k, r);
      FirstDecidingPicks(c, k, r);
    }
  }

  lemma NothingDecidesMeansNothingRecovered(c: Case, r: ElementRef)
    requires Ready(c) && Conclude(c, ClimbAll(c, LADDER)) == Recovered(r)
    ensures !Undecided(c, 10) && r.id in c.s.elements && c.s.elements[r.id] == r
  {
    forall tier ensures Honest(c, tier, Trying(c)(tier)) { TryIsHonest(c, tier); }
    UndecidedExactlyWhen(c, Trying(c), LADDER);
    ClimbIsWellRecorded(c, LADDER);
    ConclusionIsHonest(c, LADDER, ClimbAll(c, LADDER));
  }

  /** The fresh search, once reached, recovers an element exactly when it is the only live one that is related to
      the request or has an empty field. So it never guesses on a page whose live elements have no empty field. */
  lemma FreshSearchRecoversExactlyWhen(c: Case, r: ElementRef)
    requires Ready(c) && Recovering(c, LADDER).Completed? && Undecided(c, 6) && Tokens(c) != []
    ensures Recovering(c, LADDER).outcome == Recovered(r) <==> OnlyRelatedOrEmpty(c, r)
    ensures (forall id | LiveId(c, id) :: "" !in Fields(c.s.elements[id]))
        && Recovering(c, LADDER).outcome == Recovered(r)
      ==> Related(Tokens(c), r)
  {
    MatchesTheFreshSearchExactlyWhen(c, r);
    RecoveredExactlyWhenTheOnlyMatch(c, r);
    assert LADDER[6] == FreshDomAxSearch;
    if OnlyMatch(c, FreshDomAxSearch, r) { assert RecoveredByMatch(c, 6, r); }
    if Recovering(c, LADDER).outcome == Recovered(r) { RecoveredFromTheSixthOn(c, r); }
  }

  lemma MatchesTheFreshSearchExactlyWhen(c: Case, r: ElementRef)
    requires Tokens(c) != []
    ensures OnlyMatch(c, FreshDomAxSearch, r) <==> OnlyRelatedOrEmpty(c, r)
  {
    var tokens := Tokens(c);
    forall e: ElementRef ensures SharesAToken(tokens, e) <==> Related(tokens, e) || "" in Fields(e) {
      FreshSearchMatchesExactlyWhen(tokens, e);
    }
  }

  lemma NothingMatchesLater(c: Case, k: nat, r: ElementRef)
    requires 7 <= k < 10
    ensures !Matches(c, LADDER[k], r)
  {
  }

  lemma RecoveredFromTheSixthOn(c: Case, r: ElementRef)
    requires Ready(c) && Undecided(c, 6) && exists k: nat :: RecoveredByMatch(c, k, r)
    ensures OnlyMatch(c, FreshDomAxSearch, r)
  {
    var k: nat :| RecoveredByMatch(c, k, r);
    OnlyMatchDecides(c, k, r);
    if k > 6 { NothingMatchesLater(c, k, r); }
  }

  ghost predicate OnlyRelatedOrEmpty(c: Case, r: ElementRef) {
    && LiveId(c, r.id) && c.s.elements[r.id] == r && (Related(Tokens(c), r) || "" in Fields(r))
    && forall id | LiveId(c, id) && (Related(Tokens(c), c.s.elements[id]) || "" in Fields(c.s.elements[id])) ::
        id == r.id
  }

  /** So a recovery can guess: asked for an element with a dom id nothing carries, it hands back the one
      element on the page, which shares nothing with the request. */
  lemma UnrelatedElementCanBeRecovered()
    ensures exists c: Case, r: ElementRef ::
      && Ready(c) && c.prior == None && !Related(Tokens(c), r)
      && Recovering(c, LADDER).Completed? && Recovering(c, LADDER).outcome == Recovered(r)
  {
    var r := ElementRef("e_001", 7, 0, 0, "", 0, "", "", "b", "", [], "b", "", true, true, 0);
    var s := Put(EmptyStore(), r);
    PutAgreesExactlyWhen(EmptyStore(), r);
    var req := Request(None, None, None, Some("zzz"), None, None, None, None, None);
    var c := Case(s, InitialVersions(), ["e_001"], None, req, Options(false, false));
    assert s.elements == map["e_001" := r];
    assert Ready(c);
    UnrelatedCase(c, r);
  }

  lemma NothingShared(r: ElementRef)
    requires Fields(r) == ["", "", "", "b", "", "b"]
    ensures !Related(["zzz"], r)
  {
    assert Lower("zzz") == "zzz" && Lower("b") == "b";
    assert !OccursAt("zzz", "b", 0) && !OccursAt("zzz", "b", 1) && !OccursAt("zzz", "b", 2) by {
      assert "zzz"[0..1][0] == 'z' && "zzz"[1..2][0] == 'z' && "zzz"[2..3][0] == 'z' && "b"[0] == 'b';
    }
    assert !Overlap("zzz", "b");
  }

  lemma MatchesTheOne(c: Case, r: ElementRef, p: ElementRef -> bool)
    requires c.s.elements == map["e_001" := r] && c.order == ["e_001"] && Live(c.v, r)
    ensures LiveMatching(c, p) == if p(r) then ["e_001"] else []
  {
    var q := (e: ElementRef) => p(e) && Live(c.v, e);
    assert c.order[1..] == [] && Matching(c.s, [], q) == [];
    assert Matching(c.s, c.order, q) == (if q(r) then ["e_001"] else []) + Matching(c.s, c.order[1..], q);
  }

  lemma UnrelatedTokens(c: Case)
    requires c.prior == None && c.req == Request(None, None, None, Some("zzz"), None, None, None, None, None)
    ensures Tokens(c) == ["zzz"]
  {
    assert !IsWhitespace("zzz"[0]);
  }

  ghost predicate UnrelatedSetting(c: Case, r: ElementRef) {
    && Ready(c) && c.s.elements == map["e_001" := r] && c.order == ["e_001"] && c.v == InitialVersions()
    && c.prior == None && c.req == Request(None, None, None, Some("zzz"), None, None, None, None, None)
    && r == ElementRef("e_001", 7, 0, 0, "", 0, "", "", "b", "", [], "b", "", true, true, 0)
  }

  lemma EarlierTiersSayNothing(c: Case, r: ElementRef, tier: Tier)
    requires UnrelatedSetting(c, r)
        && tier in [ExistingRef, CachedBackendNode, CssSelector, DomIdName, AxRoleName, SemanticText]
    ensures !Deciding(Try(c, tier))
  {
    MatchesTheOne(c, r, HasDomId("zzz"));
  }

  lemma FreshSearchTakesIt(c: Case, r: ElementRef)
    requires UnrelatedSetting(c, r)
    ensures TierFreshSearch(c) == Succeed(FreshDomAxSearch, "e_001", " via fresh DOM/AX search")
  {
    UnrelatedTokens(c);
    var tokens := Tokens(c);
    assert Fields(r)[0] == "";
    FreshSearchMatchesExactlyWhen(tokens, r);
    MatchesTheOne(c, r, SharingAToken(tokens));
  }

  lemma UnrelatedCase(c: Case, r: ElementRef)
    requires UnrelatedSetting(c, r)
    ensures !Related(Tokens(c), r) && Recovering(c, LADDER).Completed? && Recovering(c, LADDER).outcome == Recovered(r)
  {
    UnrelatedConclusion(c, r);
    NothingToQuote(c, r);
    CompletedMeans(c, LADDER);
  }

  lemma NothingToQuote(c: Case, r: ElementRef)
    requires UnrelatedSetting(c, r)
    ensures Recovering(c, LADDER).Completed?
  {
    FreshSearchTakesIt(c, r);
    assert SoughtText(c) == "" && IsBlank(SoughtText(c));
    assert !QuotingPanics(c.req) && !TierPanics(c, SemanticText) && !TierPanics(c, FreshDomAxSearch);
    LadderPanicsExactlyWhen(c, LADDER);
  }

  lemma UnrelatedConclusion(c: Case, r: ElementRef)
    requires UnrelatedSetting(c, r)
    ensures !Related(Tokens(c), r) && Conclude(c, ClimbAll(c, LADDER)) == Recovered(r)
  {
    UnrelatedTokens(c);
    NothingShared(r);
    FreshSearchTakesIt(c, r);
    assert LADDER[..6] == [ExistingRef, CachedBackendNode, CssSelector, DomIdName, AxRoleName, SemanticText];
    forall tier | tier in LADDER[..6] ensures !Deciding(Try(c, tier)) {
      EarlierTiersSayNothing(c, r, tier);
    }
    TheFirstDecidingTierWins(c, 6);
  }

  // -- over every run of the runtime ---------------------------------------------

  /** The premises of the results above hold whenever the index was filled by the runtime itself. */
  lemma RecoveryIsReadyAfterAnyRun(hs: seq<Happening>, w: World, order: seq<string>, prior: Option<ElementRef>,
      req: Request, opts: Options)
    requires Run(InitialWorld(), hs) == Some(w) && Listing(w.store, order)
    ensures Ready(Case(w.store, w.versions, order, prior, req, opts))
  {
    MapsAgreeAfterAnyRun(hs, w);
    forall id | id in w.store.elements ensures id != "" && !HasWhitespace(id) {
      var n: nat :| n < w.store.nextId && id == IdOf(n);
      IdsAreWords(n);
    }
  }
}
