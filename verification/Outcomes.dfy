/** What a recovery hands out, in terms of the request, the expired reference and the elements alone. */
module Outcomes {
  import opened Wrappers
  import opened Text
  import opened PageVersions
  import opened ElementIndex
  import opened Resolution
  import opened Recovery

  /** The element may be handed out: it carries the current versions, and is visible and enabled. */
  ghost predicate Usable(c: Case, id: string) {
    && id in c.s.elements
    && var r := c.s.elements[id];
      && r.targetGeneration == c.v.target && r.domVersion == c.v.dom
      && r.frameVersion == (if r.frame in c.v.frames then c.v.frames[r.frame] else 0)
      && r.visible && r.enabled
  }

  lemma UsableExactlyWhenLive(c: Case, id: string)
    ensures Usable(c, id) <==> LiveId(c, id)
  {
  }

  // -- what each tier looks for ---------------------------------------------------------

  /** `x` is the value sought for a field: the one the request gives, or else that of the expired reference. */
  predicate Seeks(asked: Option<string>, prior: Option<ElementRef>, field: ElementRef -> string, x: string) {
    if asked.Some? then x == asked.value else prior.Some? && x == field(prior.value)
  }

  /** Some value other than the empty one is sought for the field. */
  predicate SeeksSome(asked: Option<string>, prior: Option<ElementRef>, field: ElementRef -> string) {
    if asked.Some? then asked.value != "" else prior.Some? && field(prior.value) != ""
  }

  predicate Includes(field: string, sought: string) { Contains(Lower(field), Lower(sought)) }

  predicate FitsId(q: Request, prior: Option<ElementRef>, r: ElementRef) {
    Seeks(q.refId, prior, (e: ElementRef) => e.id, r.id)
  }

  predicate FitsBackend(q: Request, prior: Option<ElementRef>, r: ElementRef) {
    r.backend != 0
    && if q.backend.Some? then q.backend.value == r.backend else prior.Some? && prior.value.backend == r.backend
  }

  predicate FitsSelector(q: Request, prior: Option<ElementRef>, r: ElementRef) {
    && r.selector != "" && r.selector != "*" && !Contains(r.selector, ":contains")
    && Seeks(q.selector, prior, (e: ElementRef) => e.selector, r.selector)
  }

  predicate FitsDomId(q: Request, prior: Option<ElementRef>, r: ElementRef) {
    r.domId != "" && Seeks(q.domId, prior, (e: ElementRef) => e.domId, r.domId)
  }

  predicate FitsName(q: Request, prior: Option<ElementRef>, r: ElementRef) {
    || (r.name != "" && Seeks(q.name, prior, (e: ElementRef) => e.name, r.name))
    || (r.text != "" && Seeks(q.name, prior, (e: ElementRef) => e.name, r.text))
  }

  predicate SeeksRole(q: Request, prior: Option<ElementRef>) { SeeksSome(q.role, prior, (e: ElementRef) => e.role) }

  predicate SeeksAccessibleName(q: Request, prior: Option<ElementRef>) {
    SeeksSome(q.accessibleName, prior, (e: ElementRef) => e.name)
  }

  predicate FitsRole(q: Request, prior: Option<ElementRef>, r: ElementRef) {
    && (SeeksRole(q, prior) || SeeksAccessibleName(q, prior))
    && (SeeksRole(q, prior) ==> Seeks(q.role, prior, (e: ElementRef) => e.role, r.role))
    && (SeeksAccessibleName(q, prior) ==>
        || Seeks(q.accessibleName, prior, (e: ElementRef) => e.name, r.name)
        || Seeks(q.accessibleName, prior, (e: ElementRef) => e.name, r.text))
  }

  ghost predicate FitsText(q: Request, prior: Option<ElementRef>, r: ElementRef) {
    exists x :: Seeks(q.text, prior, (e: ElementRef) => e.text, x) && !IsBlank(x)
                && (Includes(r.text, x) || Includes(r.name, x))
  }

  /** `x` is one of the texts the fresh search goes by. */
  predicate IsToken(q: Request, prior: Option<ElementRef>, x: string) {
    && !IsBlank(x)
    && (|| Some(x) in {q.domId, q.name, q.accessibleName, q.text, q.role, q.tag}
        || (prior.Some? && x in {prior.value.domId, prior.value.name, prior.value.text}))
  }

  ghost predicate FitsSomehow(q: Request, prior: Option<ElementRef>, r: ElementRef) {
    exists x, y :: IsToken(q, prior, x) && y in {r.domId, r.name, r.text, r.tag, r.role, r.selector}
                   && (Includes(y, x) || Includes(x, y))
  }

  /** Tier `k` looks for this element. The name counts only if nobody usable has the dom id sought. */
  ghost predicate Fits(c: Case, k: nat, r: ElementRef) {
    match k
    case 0 => FitsId(c.req, c.prior, r)
    case 1 => FitsBackend(c.req, c.prior, r)
    case 2 => FitsSelector(c.req, c.prior, r)
    case 3 =>
      if exists id :: Usable(c, id) && FitsDomId(c.req, c.prior, c.s.elements[id]) then FitsDomId(c.req, c.prior, r)
      else FitsName(c.req, c.prior, r)
    case 4 => FitsRole(c.req, c.prior, r)
    case 5 => FitsText(c.req, c.prior, r)
    case 6 => FitsSomehow(c.req, c.prior, r)
    case _ => false
  }

  ghost predicate FitsTier(c: Case, k: nat, id: string) { Usable(c, id) && Fits(c, k, c.s.elements[id]) }

  ghost predicate OnlyFits(c: Case, k: nat, id: string) {
    FitsTier(c, k, id) && forall other | FitsTier(c, k, other) :: other == id
  }

  /** Tier `k` decides: some usable element fits; when nothing but a role is sought, exactly one. */
  ghost predicate Decides(c: Case, k: nat) {
    if k == 4 && !SeeksAccessibleName(c.req, c.prior) then exists id :: OnlyFits(c, k, id)
    else exists id :: FitsTier(c, k, id)
  }

  ghost predicate DecidesFirst(c: Case, k: nat) { Decides(c, k) && forall i: nat | i < k :: !Decides(c, i) }

  // -- the tiers look for just that -------------------------------------------------------

  lemma GivenIsSought(c: Case, asked: Option<string>, field: ElementRef -> string, x: string)
    ensures Given(c, asked, field) == Some(x) <==> Seeks(asked, c.prior, field, x)
    ensures Given(c, asked, field).GetOr("") != "" <==> SeeksSome(asked, c.prior, field)
    ensures x != "" ==> (Given(c, asked, field).GetOr("") == x <==> Seeks(asked, c.prior, field, x))
  {
  }

  lemma FitsSelectorMeans(c: Case, r: ElementRef)
    ensures FitsSelector(c.req, c.prior, r) <==> Matches(c, CssSelector, r)
  {
    GivenIsSought(c, c.req.selector, (e: ElementRef) => e.selector, r.selector);
  }

  lemma FitsDomIdMeans(c: Case, r: ElementRef)
    ensures FitsDomId(c.req, c.prior, r) <==> DomId(c) != "" && r.domId == DomId(c)
  {
    GivenIsSought(c, c.req.domId, (e: ElementRef) => e.domId, r.domId);
  }

  lemma FitsNameMeans(c: Case, r: ElementRef)
    ensures FitsName(c.req, c.prior, r) <==> Name(c) != "" && HasName(Name(c))(r)
  {
    GivenIsSought(c, c.req.name, (e: ElementRef) => e.name, r.name);
    GivenIsSought(c, c.req.name, (e: ElementRef) => e.name, r.text);
  }

  lemma FitsRoleMeans(c: Case, r: ElementRef)
    ensures FitsRole(c.req, c.prior, r) <==> Matches(c, AxRoleName, r)
  {
    var role, name := (e: ElementRef) => e.role, (e: ElementRef) => e.name;
    GivenIsSought(c, c.req.role, role, r.role);
    GivenIsSought(c, c.req.accessibleName, name, r.name);
    GivenIsSought(c, c.req.accessibleName, name, r.text);
    RoleSought(c, r);
  }

  lemma RoleSought(c: Case, r: ElementRef)
    ensures SeeksRole(c.req, c.prior) <==> Role(c) != ""
    ensures SeeksAccessibleName(c.req, c.prior) <==> AccessibleName(c) != ""
    ensures SeeksRole(c.req, c.prior) ==> (Seeks(c.req.role, c.prior, (e: ElementRef) => e.role, r.role)
                                           <==> r.role == Role(c))
    ensures SeeksAccessibleName(c.req, c.prior) ==>
      (|| Seeks(c.req.accessibleName, c.prior, (e: ElementRef) => e.name, r.name)
       || Seeks(c.req.accessibleName, c.prior, (e: ElementRef) => e.name, r.text)
       <==> HasName(AccessibleName(c))(r))
  {
  }

  lemma FitsTextMeans(c: Case, r: ElementRef)
    ensures FitsText(c.req, c.prior, r) <==> Matches(c, SemanticText, r)
  {
    var x := SoughtText(c);
    if !IsBlank(x) {
      assert x != "";
      assert Seeks(c.req.text, c.prior, (e: ElementRef) => e.text, x);
    }
  }

  lemma TokensAre(c: Case, x: string)
    ensures x in Tokens(c) <==> IsToken(c.req, c.prior, x)
  {
    TokensOf(c.req.domId, x);
    TokensOf(c.req.name, x);
    TokensOf(c.req.accessibleName, x);
    TokensOf(c.req.text, x);
    TokensOf(c.req.role, x);
    TokensOf(c.req.tag, x);
    if c.prior.Some? {
      TokensOf(Some(c.prior.value.domId), x);
      TokensOf(Some(c.prior.value.name), x);
      TokensOf(Some(c.prior.value.text), x);
    }
  }

  lemma TokensOf(given: Option<string>, x: string)
    ensures x in AsSeq(given) <==> given == Some(x) && !IsBlank(x)
  {
  }

  lemma FieldsAre(r: ElementRef, y: string)
    ensures y in Fields(r) <==> y in {r.domId, r.name, r.text, r.tag, r.role, r.selector}
  {
    var f := Fields(r);
    assert f[0] == r.domId && f[1] == r.name && f[2] == r.text && f[3] == r.tag && f[4] == r.role && f[5] == r.selector;
  }

  lemma FitsSomehowMeans(c: Case, r: ElementRef)
    ensures FitsSomehow(c.req, c.prior, r) <==> Matches(c, FreshDomAxSearch, r)
  {
    var tokens, fields := Tokens(c), Fields(r);
    if SharesAToken(tokens, r) {
      var i, j :| 0 <= i < |tokens| && 0 <= j < 6 && Overlap(tokens[i], fields[j]);
      TokensAre(c, tokens[i]);
      FieldsAre(r, fields[j]);
      assert IsToken(c.req, c.prior, tokens[i]) && (Includes(fields[j], tokens[i]) || Includes(tokens[i], fields[j]));
    }
    if x, y :| IsToken(c.req, c.prior, x) && y in {r.domId, r.name, r.text, r.tag, r.role, r.selector}
               && (Includes(y, x) || Includes(x, y)) {
      TokensAre(c, x);
      FieldsAre(r, y);
      var i :| 0 <= i < |tokens| && tokens[i] == x;
      var j :| 0 <= j < 6 && fields[j] == y;
      assert Overlap(tokens[i], fields[j]);
    }
  }

  // -- what each tier says ------------------------------------------------------------------

  /** The attempt is what tier `k` should say. */
  ghost predicate Says(c: Case, k: nat, a: Attempt) {
    && (Deciding(a) <==> Decides(c, k))
    && (a.status == Success ==> |a.candidates| == 1 && OnlyFits(c, k, a.candidates[0]))
    && (a.status == Ambiguity ==> forall id :: id in a.candidates <==> FitsTier(c, k, id))
  }

  /** A verdict over a predicate that says of every element what the tier does. */
  lemma VerdictSays(c: Case, k: nat, tier: Tier, p: ElementRef -> bool, note: string)
    requires Ready(c) && (k == 4 ==> SeeksAccessibleName(c.req, c.prior))
    requires forall r :: p(r) <==> Fits(c, k, r)
    ensures Says(c, k, Verdict(tier, LiveMatching(c, p), note))
  {
    var q := (r: ElementRef) => p(r) && Live(c.v, r);
    var live := LiveMatching(c, p);
    MatchingMeans(c.s, c.order, q);
    forall id ensures id in live <==> FitsTier(c, k, id) { UsableExactlyWhenLive(c, id); }
    CandidatesSay(c, k, tier, live, note);
  }

  lemma CandidatesSay(c: Case, k: nat, tier: Tier, live: seq<string>, note: string)
    requires (k == 4 ==> SeeksAccessibleName(c.req, c.prior)) && forall id :: id in live <==> FitsTier(c, k, id)
    ensures Says(c, k, Verdict(tier, live, note))
  {
    if live != [] { assert live[0] in live; }
    if |live| == 1 { assert forall id :: id in live <==> id == live[0]; }
  }

  lemma NothingSaid(c: Case, k: nat, a: Attempt)
    requires !Deciding(a) && forall r :: !Fits(c, k, r)
    ensures Says(c, k, a)
  {
  }

  lemma ExistingRefSays(c: Case)
    requires Ready(c)
    ensures Says(c, 0, TierExistingRef(c))
  {
    var given := Given(c, c.req.refId, (r: ElementRef) => r.id);
    forall id ensures FitsTier(c, 0, id) <==> given == Some(id) && LiveId(c, id) {
      UsableExactlyWhenLive(c, id);
      if id in c.s.elements { GivenIsSought(c, c.req.refId, (e: ElementRef) => e.id, id); }
    }
  }

  lemma BackendSays(c: Case)
    requires Ready(c)
    ensures Says(c, 1, TierCachedBackend(c))
  {
    var backend := SoughtBackend(c);
    forall id ensures FitsTier(c, 1, id) <==> LiveId(c, id) && backend != 0 && c.s.elements[id].backend == backend {
      UsableExactlyWhenLive(c, id);
    }
  }

  lemma SelectorSays(c: Case)
    requires Ready(c)
    ensures Says(c, 2, TierCssSelector(c))
  {
    forall r ensures Fits(c, 2, r) <==> Matches(c, CssSelector, r) { FitsSelectorMeans(c, r); }
    if UsableSelector(Selector(c)) {
      VerdictSays(c, 2, CssSelector, HasSelector(Selector(c)), "");
    } else {
      NothingSaid(c, 2, TierCssSelector(c));
    }
  }

  /** Some usable element has the dom id sought. */
  ghost predicate DomIdCounts(c: Case) { exists id :: Usable(c, id) && FitsDomId(c.req, c.prior, c.s.elements[id]) }

  lemma DomIdCountsExactlyWhen(c: Case)
    requires Ready(c)
    ensures DomIdCounts(c) <==> DomId(c) != "" && LiveMatching(c, HasDomId(DomId(c))) != []
  {
    var p := HasDomId(DomId(c));
    var live := LiveMatching(c, p);
    MatchingMeans(c.s, c.order, (r: ElementRef) => p(r) && Live(c.v, r));
    if live != [] && DomId(c) != "" {
      assert live[0] in live;
      UsableExactlyWhenLive(c, live[0]);
      FitsDomIdMeans(c, c.s.elements[live[0]]);
    }
    if id :| Usable(c, id) && FitsDomId(c.req, c.prior, c.s.elements[id]) {
      UsableExactlyWhenLive(c, id);
      FitsDomIdMeans(c, c.s.elements[id]);
      assert id in live;
    }
  }

  lemma DomIdSays(c: Case)
    requires Ready(c)
    ensures Says(c, 3, TierDomIdName(c))
  {
    DomIdCountsExactlyWhen(c);
    if DomIdCounts(c) {
      forall r ensures Fits(c, 3, r) <==> HasDomId(DomId(c))(r) { FitsDomIdMeans(c, r); }
      VerdictSays(c, 3, DomIdName, HasDomId(DomId(c)), " via dom_id");
    } else {
      NameSays(c);
    }
  }

  lemma NameSays(c: Case)
    requires Ready(c) && !DomIdCounts(c) && (DomId(c) == "" || LiveMatching(c, HasDomId(DomId(c))) == [])
    ensures Says(c, 3, TierDomIdName(c))
  {
    forall r ensures Fits(c, 3, r) <==> Name(c) != "" && HasName(Name(c))(r) { FitsNameMeans(c, r); }
    if Name(c) != "" {
      VerdictSays(c, 3, DomIdName, HasName(Name(c)), " via name");
    } else {
      NothingSaid(c, 3, TierDomIdName(c));
    }
  }

  lemma RoleSays(c: Case)
    requires Ready(c)
    ensures Says(c, 4, TierAxRoleName(c))
  {
    forall r ensures Fits(c, 4, r) <==> Matches(c, AxRoleName, r) { FitsRoleMeans(c, r); }
    RoleSought(c, Placeholder(""));
    var role, name := Role(c), AccessibleName(c);
    if name != "" {
      if role != "" {
        VerdictSays(c, 4, AxRoleName, HasRoleName(role, name), " via role+name");
      } else {
        VerdictSays(c, 4, AxRoleName, HasName(name), " via accessible name");
      }
    } else if role != "" {
      RoleAloneSays(c);
    }
  }

  lemma RoleAloneSays(c: Case)
    requires Ready(c) && Role(c) != "" && AccessibleName(c) == "" && !SeeksAccessibleName(c.req, c.prior)
    requires forall r :: Fits(c, 4, r) <==> r.role == Role(c)
    ensures Says(c, 4, TierAxRoleName(c))
  {
    var p := HasRole(Role(c));
    var live := LiveMatching(c, p);
    var q := (r: ElementRef) => p(r) && Live(c.v, r);
    forall id ensures OnlyOneHas(c.s, q, id) <==> OnlyFits(c, 4, id) {
      forall other ensures FitsTier(c, 4, other) <==> other in c.s.elements && q(c.s.elements[other]) {
        UsableExactlyWhenLive(c, other);
      }
    }
    ScanFindsOne(c.s, c.order, q);
    if |live| == 1 { ScanFindsOnly(c.s, c.order, q, live[0]); }
  }

  lemma TextSays(c: Case)
    requires Ready(c)
    ensures Says(c, 5, TierSemanticText(c))
  {
    forall r ensures Fits(c, 5, r) <==> Matches(c, SemanticText, r) { FitsTextMeans(c, r); }
    if !IsBlank(SoughtText(c)) {
      VerdictSays(c, 5, SemanticText, HasText(SoughtText(c)), " via semantic text");
    } else {
      NothingSaid(c, 5, TierSemanticText(c));
    }
  }

  lemma FreshSearchSays(c: Case)
    requires Ready(c)
    ensures Says(c, 6, TierFreshSearch(c))
  {
    forall r ensures Fits(c, 6, r) <==> Matches(c, FreshDomAxSearch, r) { FitsSomehowMeans(c, r); }
    if Tokens(c) != [] {
      VerdictSays(c, 6, FreshDomAxSearch, SharingAToken(Tokens(c)), " via fresh DOM/AX search");
    } else {
      NothingSaid(c, 6, TierFreshSearch(c));
    }
  }

  /** The seven tiers that can decide, in their order. */
  function TierNumber(k: nat): Tier
    requires k < 7
  {
    match k
    case 0 => ExistingRef
    case 1 => CachedBackendNode
    case 2 => CssSelector
    case 3 => DomIdName
    case 4 => AxRoleName
    case 5 => SemanticText
    case 6 => FreshDomAxSearch
  }

  lemma TierSays(c: Case, k: nat)
    requires Ready(c) && k < 7
    ensures LADDER[k] == TierNumber(k) && Says(c, k, Try(c, LADDER[k]))
  {
    LadderIs(k);
    TryTierSays(c, k);
  }

  lemma LadderIs(k: nat)
    requires k < 7
    ensures LADDER[k] == TierNumber(k)
  {
  }

  lemma TryTierSays(c: Case, k: nat)
    requires Ready(c) && k < 7
    ensures Says(c, k, Try(c, TierNumber(k)))
  {
    match k
    case 0 => ExistingRefSays(c);
    case 1 => BackendSays(c);
    case 2 => SelectorSays(c);
    case 3 => DomIdSays(c);
    case 4 => RoleSays(c);
    case 5 => TextSays(c);
    case 6 => FreshSearchSays(c);
  }

  // -- the outcome ----------------------------------------------------------------------------

  lemma OnlySevenDecide(c: Case, k: nat)
    requires Decides(c, k)
    ensures k < 7
  {
  }

  lemma UndecidedInPlainTerms(c: Case, k: nat)
    requires Ready(c) && k <= 7
    ensures Undecided(c, k) <==> forall i: nat | i < k :: !Decides(c, i)
  {
    forall i: nat | i < k ensures Deciding(Trying(c)(LADDER[i])) <==> Decides(c, i) { TierSays(c, i); }
  }

  lemma LastThreeNeverDecide(c: Case)
    requires Ready(c) && Undecided(c, 7)
    ensures Undecided(c, 10)
  {
    LadderIs(2);
    LadderIs(3);
    LadderIs(5);
    assert !Deciding(Trying(c)(LADDER[2])) && !Deciding(Trying(c)(LADDER[3])) && !Deciding(Trying(c)(LADDER[5]));
    PiercingIsVain(c);
    forall i | 7 <= i < 10 ensures !Deciding(Trying(c)(LADDER[i])) { LadderEnds(i); }
  }

  lemma LadderEnds(i: nat)
    requires 7 <= i < 10
    ensures LADDER[i] in {FrameShadowTraversal, AmbiguityResolution, VisionFallback}
  {
  }

  lemma PiercingIsVain(c: Case)
    requires !Deciding(Try(c, CssSelector)) && !Deciding(Try(c, DomIdName)) && !Deciding(Try(c, SemanticText))
    ensures !Deciding(Try(c, FrameShadowTraversal))
  {
    TriedInVain(c);
  }

  /** The first tier that decides gives the outcome: the one usable element that fits it, or all of them. */
  lemma TheFirstToDecideConcludes(c: Case, k: nat)
    requires Ready(c) && Recovering(c, LADDER).Completed? && DecidesFirst(c, k)
    ensures match Recovering(c, LADDER).outcome
      case Recovered(r) => exists id :: OnlyFits(c, k, id) && r == c.s.elements[id]
      case AmbiguousOutcome(ids) =>
        |ids| >= 2 && Distinct(ids) && forall id :: id in ids <==> FitsTier(c, k, id)
      case _ => false
  {
    OnlySevenDecide(c, k);
    UndecidedInPlainTerms(c, k);
    TierSays(c, k);
    CompletedMeans(c, LADDER);
    FirstDecidingConcludes(c, k);
    OutcomesAreHonest(c);
    var a := Try(c, LADDER[k]);
    if a.status == Success { assert OnlyFits(c, k, a.candidates[0]); }
  }

  lemma {:induction false} SomethingDecidesFirst(c: Case, k: nat) returns (first: nat)
    requires Decides(c, k)
    ensures DecidesFirst(c, first)
  {
    if i: nat :| i < k && Decides(c, i) { first := SomethingDecidesFirst(c, i); } else { first := k; }
  }

  /** What a completed recovery hands out: of the first tier that decides, the one usable element that fits it, or, if
      several do, exactly those; vision or failure, by the options, when no tier decides. */
  lemma OutcomeInPlainTerms(c: Case)
    requires Ready(c) && Recovering(c, LADDER).Completed?
    ensures match Recovering(c, LADDER).outcome
      case Recovered(r) => exists k: nat, id :: DecidesFirst(c, k) && OnlyFits(c, k, id) && r == c.s.elements[id]
      case AmbiguousOutcome(ids) => |ids| >= 2 && Distinct(ids)
        && exists k: nat :: DecidesFirst(c, k) && forall id :: id in ids <==> FitsTier(c, k, id)
      case VisionNeeded => c.opts.allowVision && c.opts.isVisualContext && forall k: nat :: !Decides(c, k)
      case ResolutionFailed => !(c.opts.allowVision && c.opts.isVisualContext) && forall k: nat :: !Decides(c, k)
  {
    if k: nat :| Decides(c, k) {
      var first := SomethingDecidesFirst(c, k);
      TheFirstToDecideConcludes(c, first);
    } else {
      UndecidedInPlainTerms(c, 7);
      LastThreeNeverDecide(c);
      CompletedMeans(c, LADDER);
      NothingDecidesExactlyWhen(c);
      NothingIsHandedOut(c);
    }
  }

  lemma NothingIsHandedOut(c: Case)
    requires Ready(c) && Undecided(c, 10)
    ensures Conclude(c, ClimbAll(c, LADDER)) == if VisionApplies(c) then VisionNeeded else ResolutionFailed
  {
    forall tier ensures Honest(c, tier, Trying(c)(tier)) { TryIsHonest(c, tier); }
    UndecidedExactlyWhen(c, Trying(c), LADDER);
    ClimbIsWellRecorded(c, LADDER);
    ConclusionIsHonest(c, LADDER, ClimbAll(c, LADDER));
    assert LADDER[9] == VisionFallback;
  }

  // -- the trace ------------------------------------------------------------------------------

  /** The request or the reference gives tier `k` something to go by. */
  ghost predicate HasInput(c: Case, k: nat) {
    match k
    case 0 => c.req.refId.Some? || c.prior.Some?
    case 1 => if c.req.backend.Some? then c.req.backend != Some(0) else c.prior.Some? && c.prior.value.backend != 0
    case 2 =>
      && SeeksSome(c.req.selector, c.prior, (e: ElementRef) => e.selector)
      && !Seeks(c.req.selector, c.prior, (e: ElementRef) => e.selector, "*")
    case 3 =>
      || SeeksSome(c.req.domId, c.prior, (e: ElementRef) => e.domId)
      || SeeksSome(c.req.name, c.prior, (e: ElementRef) => e.name)
    case 4 => SeeksRole(c.req, c.prior) || SeeksAccessibleName(c.req, c.prior)
    case 5 => exists x :: Seeks(c.req.text, c.prior, (e: ElementRef) => e.text, x) && !IsBlank(x)
    case 6 => exists x :: IsToken(c.req, c.prior, x)
    case _ => false
  }

  /** The selector sought is one the index refuses. */
  ghost predicate SeeksRefused(c: Case) {
    exists x :: Seeks(c.req.selector, c.prior, (e: ElementRef) => e.selector, x) && Contains(x, ":contains")
  }

  /** What a tier that can decide records when it is tried: that it had nothing to go by, that its selector is refused,
      that it decided, or a miss. */
  ghost predicate RecordsRightly(c: Case, k: nat, a: Attempt)
    requires k < 7
  {
    && a.tier == TierNumber(k)
    && (a.status == SkippedMissingInput <==> !HasInput(c, k))
    && (a.status == Error <==> k == 2 && HasInput(c, 2) && SeeksRefused(c))
    && (Deciding(a) <==> Decides(c, k))
    && a.status in {SkippedMissingInput, Error, Success, Ambiguity, Miss}
  }

  lemma InputIsKnown(c: Case, k: nat)
    requires k < 7 && k !in {2, 5, 6}
    ensures Try(c, TierNumber(k)).status == SkippedMissingInput <==> !HasInput(c, k)
    ensures Try(c, TierNumber(k)).status != Error
  {
  }

  lemma SelectorInputIsKnown(c: Case)
    ensures TierCssSelector(c).status == SkippedMissingInput <==> !HasInput(c, 2)
    ensures TierCssSelector(c).status == Error <==> HasInput(c, 2) && SeeksRefused(c)
  {
    var sel := Selector(c);
    if sel != "" { GivenIsSought(c, c.req.selector, (e: ElementRef) => e.selector, sel); }
  }

  lemma TextInputIsKnown(c: Case)
    ensures TierSemanticText(c).status == SkippedMissingInput <==> !HasInput(c, 5)
  {
    var x := SoughtText(c);
    if !IsBlank(x) {
      assert x != "";
      assert Seeks(c.req.text, c.prior, (e: ElementRef) => e.text, x);
    }
  }

  lemma TokenInputIsKnown(c: Case)
    ensures TierFreshSearch(c).status == SkippedMissingInput <==> !HasInput(c, 6)
  {
    if Tokens(c) != [] { TokensAre(c, Tokens(c)[0]); }
    if x :| IsToken(c.req, c.prior, x) { TokensAre(c, x); }
  }

  predicate IsTried(a: Attempt, tier: Tier) {
    a.tier == tier && a.status in {SkippedMissingInput, Error, Success, Ambiguity, Miss}
  }

  lemma IdIsTried(c: Case)
    ensures IsTried(TierExistingRef(c), ExistingRef)
  {
  }

  lemma BackendIsTried(c: Case)
    ensures IsTried(TierCachedBackend(c), CachedBackendNode)
  {
  }

  lemma SelectorIsTried(c: Case)
    ensures IsTried(TierCssSelector(c), CssSelector)
  {
  }

  lemma DomIdIsTried(c: Case)
    ensures IsTried(TierDomIdName(c), DomIdName)
  {
  }

  lemma RoleIsTried(c: Case)
    ensures IsTried(TierAxRoleName(c), AxRoleName)
  {
  }

  lemma TextIsTried(c: Case)
    ensures IsTried(TierSemanticText(c), SemanticText)
  {
  }

  lemma SearchIsTried(c: Case)
    ensures IsTried(TierFreshSearch(c), FreshDomAxSearch)
  {
  }

  lemma AttemptIsOf(c: Case, k: nat)
    requires k < 7
    ensures IsTried(Try(c, TierNumber(k)), TierNumber(k))
  {
    match k
    case 0 => IdIsTried(c);
    case 1 => BackendIsTried(c);
    case 2 => SelectorIsTried(c);
    case 3 => DomIdIsTried(c);
    case 4 => RoleIsTried(c);
    case 5 => TextIsTried(c);
    case 6 => SearchIsTried(c);
  }

  lemma AllInputIsKnown(c: Case, k: nat)
    requires k < 7
    ensures Try(c, TierNumber(k)).status == SkippedMissingInput <==> !HasInput(c, k)
    ensures Try(c, TierNumber(k)).status == Error <==> k == 2 && HasInput(c, 2) && SeeksRefused(c)
  {
    match k
    case 2 => SelectorInputIsKnown(c);
    case 5 => TextInputIsKnown(c);
    case 6 => TokenInputIsKnown(c);
    case _ => InputIsKnown(c, k);
  }

  lemma TierRecordsRightly(c: Case, k: nat)
    requires Ready(c) && k < 7
    ensures RecordsRightly(c, k, Try(c, TierNumber(k)))
  {
    RecordsIfSaid(c, k, Try(c, TierNumber(k)));
  }

  lemma RecordsIfSaid(c: Case, k: nat, a: Attempt)
    requires Ready(c) && k < 7 && a == Try(c, TierNumber(k))
    ensures RecordsRightly(c, k, a)
  {
    TryTierSays(c, k);
    AttemptIsOf(c, k);
    AllInputIsKnown(c, k);
  }

  predicate RecordedAs(below: Climb, a: Attempt, tier: Tier, recorded: Attempt) {
    recorded == if Decided(below) then Attempt(tier, SkippedDueToEarlierSuccess, "", []) else a
  }

  lemma LastIsRecorded(says: Tier -> Attempt, tiers: seq<Tier>, below: seq<Tier>, last: Tier)
    requires tiers == below + [last]
    ensures RecordedAs(ClimbWith(says, below), says(last), last, ClimbWith(says, tiers).trace[|below|])
  {
    assert tiers[..|tiers| - 1] == below;
  }

  lemma {:induction false} EarlierIsKept(says: Tier -> Attempt, tiers: seq<Tier>, more: seq<Tier>, i: nat)
    requires i < |tiers|
    ensures ClimbWith(says, tiers + more).trace[i] == ClimbWith(says, tiers).trace[i]
  {
    if more == [] {
      assert tiers + more == tiers;
    } else {
      var n := |more| - 1;
      EarlierIsKept(says, tiers, more[..n], i);
      OneMoreKeeps(says, tiers + more[..n], more[n], i);
      assert tiers + more == tiers + more[..n] + [more[n]];
    }
  }

  lemma OneMoreKeeps(says: Tier -> Attempt, tiers: seq<Tier>, tier: Tier, i: nat)
    requires i < |tiers|
    ensures ClimbWith(says, tiers + [tier]).trace[i] == ClimbWith(says, tiers).trace[i]
  {
    assert (tiers + [tier])[..|tiers|] == tiers;
  }

  lemma ClimbRecords(says: Tier -> Attempt, below: seq<Tier>, last: Tier, more: seq<Tier>)
    ensures var trace := ClimbWith(says, below + [last] + more).trace;
      RecordedAs(ClimbWith(says, below), says(last), last, trace[|below|])
  {
    LastIsRecorded(says, below + [last], below, last);
    EarlierIsKept(says, below + [last], more, |below|);
  }

  lemma ReachedExactlyWhen(c: Case, k: nat)
    requires Ready(c) && k <= 10
    ensures Decided(ClimbWith(Trying(c), LADDER[..k])) <==> !Undecided(c, k)
  {
    forall tier ensures Honest(c, tier, Trying(c)(tier)) { TryIsHonest(c, tier); }
    UndecidedExactlyWhen(c, Trying(c), LADDER[..k]);
    assert forall i | 0 <= i < k :: LADDER[..k][i] == LADDER[i];
  }

  /** The trace of a completed recovery: each of the seven tiers that can decide is recorded for what it found, until
      one decides; every one after that is skipped. */
  lemma TraceInPlainTerms(c: Case, k: nat)
    requires Ready(c) && Recovering(c, LADDER).Completed? && k < 7
    ensures |Recovering(c, LADDER).trace| == 10
    ensures var a := Recovering(c, LADDER).trace[k];
      if exists i: nat | i < k :: Decides(c, i) then a == Attempt(TierNumber(k), SkippedDueToEarlierSuccess, "", [])
      else RecordsRightly(c, k, a)
  {
    EveryTierIsRecorded(c);
    CompletedMeans(c, LADDER);
    assert LADDER == LADDER[..k] + [LADDER[k]] + LADDER[k + 1..];
    ClimbRecords(Trying(c), LADDER[..k], LADDER[k], LADDER[k + 1..]);
    ReachedExactlyWhen(c, k);
    LadderIs(k);
    UndecidedInPlainTerms(c, k);
    TierRecordsRightly(c, k);
  }

  // -- the request comes before the expired reference -----------------------------------------

  /** The request gives every field this tier looks at. */
  predicate AsksAll(q: Request, k: nat) {
    match k
    case 0 => q.refId.Some?
    case 1 => q.backend.Some?
    case 2 => q.selector.Some?
    case 3 => q.domId.Some? && q.name.Some?
    case 4 => q.role.Some? && q.accessibleName.Some?
    case 5 => q.text.Some?
    case _ => false
  }

  /** A tier the request gives everything to says the same whatever reference has expired. */
  lemma TheRequestOutranksTheReference(c: Case, prior: Option<ElementRef>, k: nat)
    requires k < 7 && AsksAll(c.req, k)
    ensures LADDER[k] == TierNumber(k)
    ensures Try(c.(prior := prior), TierNumber(k)) == Try(c, TierNumber(k))
  {
    var d := c.(prior := prior);
    match k
    case 0 => assert TierExistingRef(d) == TierExistingRef(c);
    case 1 => assert TierCachedBackend(d) == TierCachedBackend(c);
    case 2 => SameSelector(c, prior);
    case 3 => SameDomIdName(c, prior);
    case 4 => SameRole(c, prior);
    case 5 => SameText(c, prior);
    case _ =>
  }

  lemma SameMatching(c: Case, prior: Option<ElementRef>, p: ElementRef -> bool)
    ensures LiveMatching(c.(prior := prior), p) == LiveMatching(c, p)
  {
    var d := c.(prior := prior);
    SamePredicate(c.s, c.order, (r: ElementRef) => p(r) && Live(c.v, r), (r: ElementRef) => p(r) && Live(d.v, r));
  }

  lemma {:induction false} SamePredicate(s: Store, order: seq<string>, p: ElementRef -> bool, q: ElementRef -> bool)
    requires forall r :: p(r) <==> q(r)
    ensures Matching(s, order, p) == Matching(s, order, q)
  {
    if order != [] { SamePredicate(s, order[1..], p, q); }
  }

  lemma SameSelector(c: Case, prior: Option<ElementRef>)
    requires c.req.selector.Some?
    ensures TierCssSelector(c.(prior := prior)) == TierCssSelector(c)
  {
    SameMatching(c, prior, HasSelector(c.req.selector.value));
  }

  lemma SameDomIdName(c: Case, prior: Option<ElementRef>)
    requires c.req.domId.Some? && c.req.name.Some?
    ensures TierDomIdName(c.(prior := prior)) == TierDomIdName(c)
  {
    SameMatching(c, prior, HasDomId(c.req.domId.value));
    SameMatching(c, prior, HasName(c.req.name.value));
  }

  lemma SameRole(c: Case, prior: Option<ElementRef>)
    requires c.req.role.Some? && c.req.accessibleName.Some?
    ensures TierAxRoleName(c.(prior := prior)) == TierAxRoleName(c)
  {
    SameMatching(c, prior, HasRoleName(c.req.role.value, c.req.accessibleName.value));
    SameMatching(c, prior, HasRole(c.req.role.value));
    SameMatching(c, prior, HasName(c.req.accessibleName.value));
  }

  lemma SameText(c: Case, prior: Option<ElementRef>)
    requires c.req.text.Some?
    ensures TierSemanticText(c.(prior := prior)) == TierSemanticText(c)
  {
    SameMatching(c, prior, HasText(c.req.text.value));
  }

  /** So when the selector tier is reached, the one usable element with the selector asked for is recovered, whatever
      reference has expired. */
  lemma TheSelectorAskedForWins(c: Case, sel: string, id: string)
    requires Ready(c) && Recovering(c, LADDER).Completed? && !Decides(c, 0) && !Decides(c, 1)
    requires c.req.selector == Some(sel) && sel != "" && sel != "*" && !Contains(sel, ":contains")
    requires Usable(c, id) && c.s.elements[id].selector == sel
    requires forall other | Usable(c, other) && c.s.elements[other].selector == sel :: other == id
    ensures Recovering(c, LADDER).outcome == Recovered(c.s.elements[id])
  {
    assert OnlyFits(c, 2, id) && FitsTier(c, 2, id);
    assert DecidesFirst(c, 2);
    TheFirstToDecideConcludes(c, 2);
    NotSeveral(c, 2, id);
  }

  lemma NotSeveral(c: Case, k: nat, id: string)
    requires OnlyFits(c, k, id)
    ensures forall ids | |ids| >= 2 && Distinct(ids) :: !forall other :: other in ids <==> FitsTier(c, k, other)
  {
    forall ids: seq<string> | |ids| >= 2 && Distinct(ids)
      ensures exists other :: other in ids && other != id
    {
      assert ids[0] in ids && ids[1] in ids;
    }
  }
}
