/** What resolving a request answers, in terms of the request and the elements alone. */
module Answers {
  import opened Wrappers
  import opened Text
  import opened PageVersions
  import opened ElementIndex
  import opened Resolution

  predicate Includes(field: string, sought: string) { Contains(Lower(field), Lower(sought)) }

  /** The element answers to what the request says in its k-th place. */
  predicate AnswersTo(q: Request, k: nat, r: ElementRef) {
    match k
    case 0 => q.refId == Some(r.id)
    case 1 => r.backend != 0 && q.backend == Some(r.backend)
    case 2 => q.selector == Some(r.selector)
    case 3 => q.domId == Some(r.domId)
    case 4 => q.name == Some(r.name) || q.name == Some(r.text)
    case 5 =>
      q.role == Some(r.role)
      && (q.accessibleName.Some? ==> q.accessibleName == Some(r.name) || q.accessibleName == Some(r.text))
    case 6 => q.text.Some? && (Includes(r.text, q.text.value) || Includes(r.name, q.text.value))
    case 7 => q.accessibleName == Some(r.name) || q.accessibleName == Some(r.text)
    case _ => false
  }

  predicate Refused(q: Request) { q.selector.Some? && Contains(q.selector.value, ":contains") }

  predicate Among(s: Store, q: Request, k: nat, id: string) { id in s.elements && AnswersTo(q, k, s.elements[id]) }

  ghost predicate OnlyAmong(s: Store, q: Request, k: nat, id: string) {
    Among(s, q, k, id) && forall other | Among(s, q, k, other) :: other == id
  }

  /** The k-th place decides: a refused selector, or some element that answers; for a role alone, exactly one. */
  ghost predicate Decides(s: Store, q: Request, k: nat) {
    if k == 2 && Refused(q) then true
    else if k == 5 && q.accessibleName.None? then exists id :: OnlyAmong(s, q, k, id)
    else exists id :: Among(s, q, k, id)
  }

  ghost predicate DecidesFirst(s: Store, q: Request, k: nat) {
    Decides(s, q, k) && forall i: nat | i < k :: !Decides(s, q, i)
  }

  /** An element as it is handed out: stale, hidden or disabled, or usable, tested in that order. */
  function HandedOut(v: Versions, r: ElementRef): Result {
    if r.targetGeneration != v.target || r.domVersion != v.dom
       || r.frameVersion != (if r.frame in v.frames then v.frames[r.frame] else 0) then Stale(r.id)
    else if !r.visible || !r.enabled then NotInteractable(r.id)
    else Found(r)
  }

  /** What the k-th place answers when it decides: the only element that answers, or the one the selector map knows, or
      all that answer. */
  ghost predicate IsAnswer(s: Store, v: Versions, q: Request, k: nat, a: Result) {
    if k == 2 && Refused(q) then a == InvalidSelector
    else if k == 2 && q.selector.Some? && q.selector.value in s.bySelector then
      s.bySelector[q.selector.value] in s.elements && a == HandedOut(v, s.elements[s.bySelector[q.selector.value]])
    else if exists id :: OnlyAmong(s, q, k, id) then
      exists id :: OnlyAmong(s, q, k, id) && a == HandedOut(v, s.elements[id])
    else
      a.Ambiguous? && |a.candidates| >= 2 && Distinct(a.candidates)
      && forall id :: id in a.candidates <==> Among(s, q, k, id)
  }

  ghost predicate Says(s: Store, v: Versions, q: Request, k: nat, o: Option<Result>) {
    (o.Some? <==> Decides(s, q, k)) && (o.Some? ==> IsAnswer(s, v, q, k, o.value))
  }

  lemma CheckedIsHandedOut(v: Versions, r: ElementRef)
    ensures Checked(v, r) == HandedOut(v, r)
  {
  }

  lemma ScanSays(s: Store, v: Versions, order: seq<string>, q: Request, k: nat, p: ElementRef -> bool)
    requires Listing(s, order) && forall r :: p(r) <==> AnswersTo(q, k, r)
    requires k != 2 && (k == 5 ==> q.accessibleName.Some?)
    ensures Says(s, v, q, k, Settle(s, v, Matching(s, order, p)))
  {
    MatchingMeans(s, order, p);
    SettlingSays(s, v, q, k, Matching(s, order, p));
  }

  /** One, several or no candidates. */
  lemma SettlingSays(s: Store, v: Versions, q: Request, k: nat, m: seq<string>)
    requires Distinct(m) && forall id :: id in m <==> Among(s, q, k, id)
    requires (k == 2 ==> q.selector.Some? && !Refused(q) && q.selector.value !in s.bySelector)
    requires k == 5 ==> q.accessibleName.Some? || |m| == 1
    ensures Says(s, v, q, k, Settle(s, v, m))
  {
    if m != [] { assert m[0] in m; }
    if |m| == 1 {
      assert OnlyAmong(s, q, k, m[0]);
      CheckedIsHandedOut(v, s.elements[m[0]]);
    } else if |m| > 1 {
      assert m[1] in m && m[0] != m[1];
    }
  }

  lemma LookupsSay(s: Store, v: Versions, q: Request)
    requires Consistent(s)
    ensures Says(s, v, q, 0, ByRef(s, v, q.refId)) && Says(s, v, q, 1, ByBackendNode(s, v, q.backend))
  {
    if q.refId.Some? && q.refId.value in s.elements {
      assert OnlyAmong(s, q, 0, q.refId.value);
      CheckedIsHandedOut(v, s.elements[q.refId.value]);
    }
    if q.backend.Some? && q.backend.value in s.byBackend {
      var id := s.byBackend[q.backend.value];
      BackendIsAmong(s, q, id);
      CheckedIsHandedOut(v, s.elements[id]);
    }
  }

  lemma BackendIsAmong(s: Store, q: Request, id: string)
    requires Consistent(s) && q.backend.Some? && q.backend.value in s.byBackend && id == s.byBackend[q.backend.value]
    ensures OnlyAmong(s, q, 1, id)
  {
    var b := q.backend.value;
    assert b != 0 && id in s.elements && s.elements[id].backend == b;
    forall other | Among(s, q, 1, other) ensures other == id {
      assert s.elements[other].backend == b;
    }
  }

  lemma SelectorSays(s: Store, v: Versions, order: seq<string>, q: Request)
    requires Consistent(s) && Listing(s, order)
    ensures Says(s, v, q, 2, BySelector(s, v, order, q.selector))
  {
    if q.selector.Some? && !Refused(q) {
      var sel := q.selector.value;
      var p := HasSelector(sel);
      if sel in s.bySelector {
        assert Among(s, q, 2, s.bySelector[sel]);
        CheckedIsHandedOut(v, s.elements[s.bySelector[sel]]);
      } else {
        MatchingMeans(s, order, p);
        SettlingSays(s, v, q, 2, Matching(s, order, p));
      }
    }
  }

  lemma RoleSays(s: Store, v: Versions, order: seq<string>, q: Request)
    requires Listing(s, order)
    ensures Says(s, v, q, 5, ByRoleName(s, v, order, q.role, q.accessibleName))
  {
    if q.role.Some? {
      if q.accessibleName.Some? {
        ScanSays(s, v, order, q, 5, HasRoleName(q.role.value, q.accessibleName.value));
      } else {
        RoleAloneSays(s, v, order, q);
      }
    }
  }

  lemma RoleAloneSays(s: Store, v: Versions, order: seq<string>, q: Request)
    requires Listing(s, order) && q.role.Some? && q.accessibleName.None?
    ensures Says(s, v, q, 5, ByRoleName(s, v, order, q.role, q.accessibleName))
  {
    var p := HasRole(q.role.value);
    var m := Matching(s, order, p);
    MatchingMeans(s, order, p);
    forall id ensures OnlyAmong(s, q, 5, id) <==> OnlyOneHas(s, p, id) {
      forall other ensures Among(s, q, 5, other) <==> other in s.elements && p(s.elements[other]) {
        if other in s.elements { assert AnswersTo(q, 5, s.elements[other]) <==> p(s.elements[other]); }
      }
    }
    ScanFindsOne(s, order, p);
    if |m| == 1 { SettlingSays(s, v, q, 5, m); }
  }

  lemma GivenSays(s: Store, v: Versions, order: seq<string>, q: Request, k: nat, given: Option<string>,
      p: string -> ElementRef -> bool)
    requires Listing(s, order) && k !in {2, 5}
    requires forall r :: AnswersTo(q, k, r) <==> given.Some? && p(given.value)(r)
    ensures Says(s, v, q, k, ByScan(s, v, order, given, p))
  {
    if given.Some? { ScanSays(s, v, order, q, k, p(given.value)); }
  }

  lemma DomIdSays(s: Store, v: Versions, order: seq<string>, q: Request)
    requires Listing(s, order)
    ensures Says(s, v, q, 3, ByScan(s, v, order, q.domId, HasDomId))
  {
    GivenSays(s, v, order, q, 3, q.domId, HasDomId);
  }

  lemma NameSays(s: Store, v: Versions, order: seq<string>, q: Request)
    requires Listing(s, order)
    ensures Says(s, v, q, 4, ByScan(s, v, order, q.name, HasName))
  {
    GivenSays(s, v, order, q, 4, q.name, HasName);
  }

  lemma TextSays(s: Store, v: Versions, order: seq<string>, q: Request)
    requires Listing(s, order)
    ensures Says(s, v, q, 6, ByScan(s, v, order, q.text, HasText))
  {
    GivenSays(s, v, order, q, 6, q.text, HasText);
  }

  lemma AccessibleNameSays(s: Store, v: Versions, order: seq<string>, q: Request)
    requires Listing(s, order)
    ensures Says(s, v, q, 7, ByScan(s, v, order, q.accessibleName, HasName))
  {
    GivenSays(s, v, order, q, 7, q.accessibleName, HasName);
  }

  /** What the k-th of the tiers is. */
  lemma TiersAre(s: Store, v: Versions, order: seq<string>, q: Request)
    ensures var tiers := Tiers(s, v, order, q);
      && tiers[0] == ByRef(s, v, q.refId) && tiers[1] == ByBackendNode(s, v, q.backend)
      && tiers[2] == BySelector(s, v, order, q.selector)
      && tiers[3] == ByScan(s, v, order, q.domId, HasDomId) && tiers[4] == ByScan(s, v, order, q.name, HasName)
      && tiers[5] == ByRoleName(s, v, order, q.role, q.accessibleName)
      && tiers[6] == ByScan(s, v, order, q.text, HasText)
      && tiers[7] == ByScan(s, v, order, q.accessibleName, HasName)
  {
  }

  lemma TierSays(s: Store, v: Versions, order: seq<string>, q: Request, k: nat)
    requires Consistent(s) && Listing(s, order) && k < 8
    ensures Says(s, v, q, k, Tiers(s, v, order, q)[k])
  {
    TiersAre(s, v, order, q);
    match k
    case 0 => LookupsSay(s, v, q);
    case 1 => LookupsSay(s, v, q);
    case 2 => SelectorSays(s, v, order, q);
    case 3 => DomIdSays(s, v, order, q);
    case 4 => NameSays(s, v, order, q);
    case 5 => RoleSays(s, v, order, q);
    case 6 => TextSays(s, v, order, q);
    case 7 => AccessibleNameSays(s, v, order, q);
  }

  lemma {:induction false} SomethingDecidesFirst(s: Store, q: Request, k: nat) returns (first: nat)
    requires Decides(s, q, k)
    ensures DecidesFirst(s, q, first)
  {
    if i: nat :| i < k && Decides(s, q, i) { first := SomethingDecidesFirst(s, q, i); } else { first := k; }
  }

  lemma OnlyEightDecide(s: Store, q: Request, k: nat)
    requires Decides(s, q, k)
    ensures k < 8
  {
  }

  /** What a request is answered: by the first of its places that decides, id before backend node before selector
      before dom id before name before role before text before accessible name; not found, or a panic over a text that
      cannot be cut after 80 bytes, when none does. */
  lemma AnswerInPlainTerms(s: Store, v: Versions, order: seq<string>, q: Request)
    requires Consistent(s) && Listing(s, order)
    ensures var a := Resolve(s, v, order, q);
      if exists k: nat :: Decides(s, q, k) then
        exists k: nat :: DecidesFirst(s, q, k) && IsAnswer(s, v, q, k, a)
      else
        a == if (q.selector.Some? ==> CutsCleanly(q.selector.value, 80))
                && (q.text.Some? ==> CutsCleanly(q.text.value, 80)) then NotFound else Panics
  {
    var tiers := Tiers(s, v, order, q);
    if k: nat :| Decides(s, q, k) {
      var first := SomethingDecidesFirst(s, q, k);
      OnlyEightDecide(s, q, first);
      TierSays(s, v, order, q, first);
      forall i: nat | i < first ensures tiers[i] == None { TierSays(s, v, order, q, i); }
      FirstDecidedIs(tiers, first);
    } else {
      forall i: nat | i < 8 ensures tiers[i] == None { TierSays(s, v, order, q, i); }
      NoneDecidedExactlyWhen(tiers);
      QuotingPanicsExactlyWhen(q);
    }
  }
}
