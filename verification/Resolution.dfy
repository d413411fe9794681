/** Resolving a request against the index in memory: lookups first, then scans, tier by tier. */
module Resolution {
  import opened Wrappers
  import opened Text
  import opened PageVersions
  import opened ElementIndex

  datatype Request = Request(
    refId: Option<string>, backend: Option<int>, selector: Option<string>, domId: Option<string>,
    name: Option<string>, role: Option<string>, accessibleName: Option<string>, text: Option<string>,
    tag: Option<string>)

  datatype Result =
    | Found(element: ElementRef)
    | Stale(id: string)
    | NotInteractable(id: string)
    | Ambiguous(candidates: seq<string>)
    | InvalidSelector
    | NotFound
    | Panics   // no result: the request could not be cut for the error text

  /** Usable right now: not stale, visible and enabled. */
  predicate Live(v: Versions, r: ElementRef) { !IsStale(v, StampOf(r)) && Interactable(r) }

  /** The snapshot test comes before the interactability test. */
  function Checked(v: Versions, r: ElementRef): Result {
    if IsStale(v, StampOf(r)) then Stale(r.id)
    else if !Interactable(r) then NotInteractable(r.id)
    else Found(r)
  }

  predicate ValidSelector(sel: string) { !Contains(sel, ":contains") }

  // -- scans ------------------------------------------------------------------

  predicate Distinct(ids: seq<string>) {
    forall i, j | 0 <= i < j < |ids| :: ids[i] != ids[j]
  }

  /** `order` is some iteration order of the store: each key once. */
  ghost predicate Listing(s: Store, order: seq<string>) {
    Distinct(order) && forall id :: id in order <==> id in s.elements
  }

  /** The keys of the stored elements that satisfy `p`, in iteration order. */
  function Matching(s: Store, order: seq<string>, p: ElementRef -> bool): seq<string> {
    if order == [] then []
    else (if order[0] in s.elements && p(s.elements[order[0]]) then [order[0]] else []) + Matching(s, order[1..], p)
  }

  function HasSelector(sel: string): ElementRef -> bool { (r: ElementRef) => r.selector == sel }
  function HasDomId(domId: string): ElementRef -> bool { (r: ElementRef) => r.domId == domId }
  function HasName(name: string): ElementRef -> bool { (r: ElementRef) => r.name == name || r.text == name }
  function HasRole(role: string): ElementRef -> bool { (r: ElementRef) => r.role == role }
  function HasRoleName(role: string, name: string): ElementRef -> bool {
    (r: ElementRef) => r.role == role && (r.name == name || r.text == name)
  }
  function HasText(text: string): ElementRef -> bool {
    (r: ElementRef) => Contains(Lower(r.text), Lower(text)) || Contains(Lower(r.name), Lower(text))
  }

  lemma {:induction false} MatchingMeans(s: Store, order: seq<string>, p: ElementRef -> bool)
    ensures forall id :: id in Matching(s, order, p) <==> id in order && id in s.elements && p(s.elements[id])
    ensures Distinct(order) ==> Distinct(Matching(s, order, p))
  {
    if order != [] {
      MatchingMeans(s, order[1..], p);
      assert order == [order[0]] + order[1..];
      assert Distinct(order) ==> Distinct(order[1..]) && order[0] !in order[1..];
    }
  }

  lemma {:induction false} MatchingSplits(s: Store, a: seq<string>, b: seq<string>, p: ElementRef -> bool)
    ensures Matching(s, a + b, p) == Matching(s, a, p) + Matching(s, b, p)
  {
    if a == [] {
      assert a + b == b;
    } else {
      assert (a + b)[1..] == a[1..] + b;
      MatchingSplits(s, a[1..], b, p);
    }
  }

  function Dropping(ids: seq<string>, i: nat): seq<string>
    requires i < |ids|
  {
    ids[..i] + ids[i + 1..]
  }

  lemma DroppingTheSame(a: seq<string>, b: seq<string>, i: nat)
    requires a != [] && i < |b| && a[0] == b[i] && multiset(a) == multiset(b)
    ensures multiset(a[1..]) == multiset(Dropping(b, i))
  {
    assert a == [a[0]] + a[1..];
    assert b == b[..i] + [b[i]] + b[i + 1..];
    assert multiset(a[1..]) == multiset(a) - multiset{a[0]};
    assert multiset(Dropping(b, i)) == multiset(b) - multiset{b[i]};
  }

  lemma MatchingWithoutOne(s: Store, b: seq<string>, i: nat, p: ElementRef -> bool)
    requires i < |b|
    ensures multiset(Matching(s, b, p)) == multiset(Matching(s, [b[i]], p)) + multiset(Matching(s, Dropping(b, i), p))
  {
    var l, r := b[..i], b[i + 1..];
    assert b == l + ([b[i]] + r);
    MatchingSplits(s, l, [b[i]] + r, p);
    MatchingSplits(s, [b[i]], r, p);
    MatchingSplits(s, l, r, p);
  }

  lemma {:induction false} MatchingPermutes(s: Store, a: seq<string>, b: seq<string>, p: ElementRef -> bool)
    requires multiset(a) == multiset(b)
    ensures multiset(Matching(s, a, p)) == multiset(Matching(s, b, p))
    decreases |a|
  {
    if a == [] {
      assert |multiset(b)| == 0;
    } else {
      assert a[0] in multiset(b);
      var i :| 0 <= i < |b| && b[i] == a[0];
      DroppingTheSame(a, b, i);
      MatchingPermutes(s, a[1..], Dropping(b, i), p);
      MatchingWithoutOne(s, a, 0, p);
      MatchingWithoutOne(s, b, i, p);
      assert Dropping(a, 0) == a[1..];
    }
  }

  lemma {:induction false} DistinctCounts(a: seq<string>, id: string)
    requires Distinct(a)
    ensures multiset(a)[id] == if id in a then 1 else 0
  {
    if a != [] {
      assert a == [a[0]] + a[1..];
      assert Distinct(a[1..]) && a[0] !in a[1..];
      DistinctCounts(a[1..], id);
    }
  }

  lemma ListingsArePermutations(s: Store, a: seq<string>, b: seq<string>)
    requires Listing(s, a) && Listing(s, b)
    ensures multiset(a) == multiset(b)
  {
    forall id ensures multiset(a)[id] == multiset(b)[id] {
      DistinctCounts(a, id);
      DistinctCounts(b, id);
    }
  }

  // -- the ladder -------------------------------------------------------------

  predicate IsResult(r: Option<Result>) { r.Some? ==> !r.value.NotFound? && !r.value.Panics? }

  /** One candidate is checked, several are ambiguous, none leaves the matter open. */
  function Settle(s: Store, v: Versions, candidates: seq<string>): (r: Option<Result>)
    ensures IsResult(r)
  {
    if |candidates| == 0 then None
    else if |candidates| == 1 then
      (if candidates[0] in s.elements then Some(Checked(v, s.elements[candidates[0]])) else None)
    else Some(Ambiguous(candidates))
  }

  function ByRef(s: Store, v: Versions, refId: Option<string>): (r: Option<Result>)
    ensures IsResult(r)
  {
    if refId.Some? && refId.value in s.elements then Some(Checked(v, s.elements[refId.value])) else None
  }

  function ByBackendNode(s: Store, v: Versions, backend: Option<int>): (r: Option<Result>)
    ensures IsResult(r)
  {
    if backend.None? then None
    else match ByBackend(s, backend.value) case Some(r) => Some(Checked(v, r)) case None => None
  }

  /** A hit in the selector map decides without looking for further elements with that selector. */
  function BySelector(s: Store, v: Versions, order: seq<string>, selector: Option<string>): (r: Option<Result>)
    ensures IsResult(r)
  {
    match selector
    case None => None
    case Some(sel) =>
      if !ValidSelector(sel) then Some(InvalidSelector)
      else if sel in s.bySelector && s.bySelector[sel] in s.elements then
        Some(Checked(v, s.elements[s.bySelector[sel]]))
      else Settle(s, v, Matching(s, order, HasSelector(sel)))
  }

  function ByScan(s: Store, v: Versions, order: seq<string>, given: Option<string>,
      p: string -> ElementRef -> bool): (r: Option<Result>)
    ensures IsResult(r)
  {
    match given
    case None => None
    case Some(x) => Settle(s, v, Matching(s, order, p(x)))
  }

  /** Role and name together must be unique; a role alone decides only if it is unique. */
  function ByRoleName(s: Store, v: Versions, order: seq<string>, role: Option<string>,
      name: Option<string>): (r: Option<Result>)
    ensures IsResult(r)
  {
    if role.None? then None
    else if name.Some? then Settle(s, v, Matching(s, order, HasRoleName(role.value, name.value)))
    else
      var candidates := Matching(s, order, HasRole(role.value));
      if |candidates| == 1 then Settle(s, v, candidates) else None
  }

  /** What each tier would say, in the order they are consulted. */
  function Tiers(s: Store, v: Versions, order: seq<string>, req: Request): (tiers: seq<Option<Result>>)
    ensures |tiers| == 8 && forall i | 0 <= i < 8 :: IsResult(tiers[i])
  {
    [ByRef(s, v, req.refId),
     ByBackendNode(s, v, req.backend),
     BySelector(s, v, order, req.selector),
     ByScan(s, v, order, req.domId, HasDomId),
     ByScan(s, v, order, req.name, HasName),
     ByRoleName(s, v, order, req.role, req.accessibleName),
     ByScan(s, v, order, req.text, HasText),
     ByScan(s, v, order, req.accessibleName, HasName)]
  }

  function FirstDecided(tiers: seq<Option<Result>>): Option<Result> {
    if tiers == [] then None
    else match tiers[0] case Some(r) => Some(r) case None => FirstDecided(tiers[1..])
  }

  /** How many bytes of a selector or text an error quotes. */
  const QUOTED: nat := 80

  /** Quoting the request in an error fails: its selector or its text cannot be cut. */
  predicate QuotingPanics(req: Request) {
    || (req.selector.Some? && Truncate(req.selector.value, QUOTED).None?)
    || (req.text.Some? && Truncate(req.text.value, QUOTED).None?)
  }

  function Resolve(s: Store, v: Versions, order: seq<string>, req: Request): Result {
    match FirstDecided(Tiers(s, v, order, req))
    case Some(r) => r
    case None => if QuotingPanics(req) then Panics else NotFound
  }

  // -- laws -------------------------------------------------------------------

  ghost predicate Usable(s: Store, v: Versions, result: Option<Result>) {
    match result
    case Some(Found(r)) => r.id in s.elements && s.elements[r.id] == r && Live(v, r)
    case Some(Ambiguous(ids)) => |ids| >= 2 && (forall id | id in ids :: id in s.elements) && Distinct(ids)
    case _ => true
  }

  lemma SettleIsUsable(s: Store, v: Versions, order: seq<string>, p: ElementRef -> bool)
    requires KeysAreIds(s) && Listing(s, order)
    ensures Usable(s, v, Settle(s, v, Matching(s, order, p)))
  {
    MatchingMeans(s, order, p);
  }

  lemma {:induction false} FirstDecidedIsUsable(s: Store, v: Versions, tiers: seq<Option<Result>>)
    requires forall i | 0 <= i < |tiers| :: Usable(s, v, tiers[i])
    ensures Usable(s, v, FirstDecided(tiers))
  {
    if tiers != [] && tiers[0] == None { FirstDecidedIsUsable(s, v, tiers[1..]); }
    if tiers != [] { assert Usable(s, v, tiers[0]); }
  }

  lemma ScanIsUsable(s: Store, v: Versions, order: seq<string>, given: Option<string>, p: string -> ElementRef -> bool)
    requires KeysAreIds(s) && Listing(s, order)
    ensures Usable(s, v, ByScan(s, v, order, given, p))
  {
    if given.Some? { SettleIsUsable(s, v, order, p(given.value)); }
  }

  lemma LookupsAreUsable(s: Store, v: Versions, order: seq<string>, req: Request)
    requires Consistent(s) && Listing(s, order)
    ensures Usable(s, v, ByRef(s, v, req.refId)) && Usable(s, v, ByBackendNode(s, v, req.backend))
    ensures Usable(s, v, BySelector(s, v, order, req.selector))
  {
    if req.selector.Some? { SettleIsUsable(s, v, order, HasSelector(req.selector.value)); }
  }

  lemma RoleNameIsUsable(s: Store, v: Versions, order: seq<string>, req: Request)
    requires Consistent(s) && Listing(s, order)
    ensures Usable(s, v, ByRoleName(s, v, order, req.role, req.accessibleName))
  {
    if req.role.Some? {
      SettleIsUsable(s, v, order, HasRole(req.role.value));
      SettleIsUsable(s, v, order, HasRoleName(req.role.value, req.accessibleName.GetOr("")));
    }
  }

  /** Whatever tier decides: a found element is stored, not stale, visible and enabled, and an ambiguity
      lists at least two distinct stored ids. */
  lemma ResolutionIsUsable(s: Store, v: Versions, order: seq<string>, req: Request)
    requires Consistent(s) && Listing(s, order)
    ensures Usable(s, v, Some(Resolve(s, v, order, req)))
  {
    LookupsAreUsable(s, v, order, req);
    RoleNameIsUsable(s, v, order, req);
    ScanIsUsable(s, v, order, req.domId, HasDomId);
    ScanIsUsable(s, v, order, req.name, HasName);
    ScanIsUsable(s, v, order, req.text, HasText);
    ScanIsUsable(s, v, order, req.accessibleName, HasName);
    var tiers := Tiers(s, v, order, req);
    assert forall i | 0 <= i < 8 :: Usable(s, v, tiers[i]);
    FirstDecidedIsUsable(s, v, tiers);
  }

  /** Equal, or ambiguities that list the same candidates in another order. */
  predicate Alike(a: Option<Result>, b: Option<Result>) {
    a == b || (a.Some? && b.Some? && a.value.Ambiguous? && b.value.Ambiguous?
        && multiset(a.value.candidates) == multiset(b.value.candidates))
  }

  lemma SettleIgnoresOrder(s: Store, v: Versions, a: seq<string>, b: seq<string>, p: ElementRef -> bool)
    requires Listing(s, a) && Listing(s, b)
    ensures Alike(Settle(s, v, Matching(s, a, p)), Settle(s, v, Matching(s, b, p)))
    ensures |Matching(s, a, p)| == |Matching(s, b, p)|
  {
    ListingsArePermutations(s, a, b);
    MatchingPermutes(s, a, b, p);
    PermutedSettlesAlike(s, v, Matching(s, a, p), Matching(s, b, p));
  }

  lemma PermutedSettlesAlike(s: Store, v: Versions, x: seq<string>, y: seq<string>)
    requires multiset(x) == multiset(y)
    ensures |x| == |y| && Alike(Settle(s, v, x), Settle(s, v, y))
  {
    assert |multiset(x)| == |x| && |multiset(y)| == |y|;
    if |x| == 1 { OneCandidateIsTheSame(x, y); }
  }

  lemma OneCandidateIsTheSame(x: seq<string>, y: seq<string>)
    requires |x| == |y| == 1 && multiset(x) == multiset(y)
    ensures x == y
  {
    assert x == [x[0]] && y == [y[0]];
    assert x[0] in multiset(y);
  }

  lemma {:induction false} FirstDecidedIgnoresOrder(a: seq<Option<Result>>, b: seq<Option<Result>>)
    requires |a| == |b| && forall i | 0 <= i < |a| :: Alike(a[i], b[i])
    ensures Alike(FirstDecided(a), FirstDecided(b))
  {
    if a != [] {
      assert Alike(a[0], b[0]);
      if a[0] == None { FirstDecidedIgnoresOrder(a[1..], b[1..]); }
    }
  }

  lemma ScanIgnoresOrder(s: Store, v: Versions, a: seq<string>, b: seq<string>, given: Option<string>,
      p: string -> ElementRef -> bool)
    requires Listing(s, a) && Listing(s, b)
    ensures Alike(ByScan(s, v, a, given, p), ByScan(s, v, b, given, p))
  {
    if given.Some? { SettleIgnoresOrder(s, v, a, b, p(given.value)); }
  }

  lemma LookupsIgnoreOrder(s: Store, v: Versions, a: seq<string>, b: seq<string>, req: Request)
    requires Listing(s, a) && Listing(s, b)
    ensures Alike(BySelector(s, v, a, req.selector), BySelector(s, v, b, req.selector))
    ensures Alike(ByRoleName(s, v, a, req.role, req.accessibleName), ByRoleName(s, v, b, req.role, req.accessibleName))
  {
    if req.selector.Some? { SettleIgnoresOrder(s, v, a, b, HasSelector(req.selector.value)); }
    if req.role.Some? {
      SettleIgnoresOrder(s, v, a, b, HasRole(req.role.value));
      SettleIgnoresOrder(s, v, a, b, HasRoleName(req.role.value, req.accessibleName.GetOr("")));
    }
  }

  /** The order in which the store happens to be iterated never changes the answer, beyond permuting the
      candidates of an ambiguity. */
  lemma ResolutionIgnoresIterationOrder(s: Store, v: Versions, a: seq<string>, b: seq<string>, req: Request)
    requires Listing(s, a) && Listing(s, b)
    ensures Alike(Some(Resolve(s, v, a, req)), Some(Resolve(s, v, b, req)))
  {
    LookupsIgnoreOrder(s, v, a, b, req);
    ScanIgnoresOrder(s, v, a, b, req.domId, HasDomId);
    ScanIgnoresOrder(s, v, a, b, req.name, HasName);
    ScanIgnoresOrder(s, v, a, b, req.text, HasText);
    ScanIgnoresOrder(s, v, a, b, req.accessibleName, HasName);
    var x, y := Tiers(s, v, a, req), Tiers(s, v, b, req);
    assert forall i | 0 <= i < 8 :: Alike(x[i], y[i]);
    FirstDecidedIgnoresOrder(x, y);
  }

  lemma SeveralMeansTwoDistinct(m: seq<string>)
    requires Distinct(m) && |m| > 1
    ensures exists x, y :: x in m && y in m && x != y
  {
    assert m[0] in m && m[1] in m && m[0] != m[1];
  }

  function HasBackend(backend: int): ElementRef -> bool { (r: ElementRef) => r.backend == backend }

  /** The backend lookup is the scan: it decides for exactly the element that carries the node, if any. For 0,
      which stands for no node, the lookup never finds anything, so it is the scan only if no element lacks a node. */
  lemma BackendLookupIsTheScanExactlyWhen(s: Store, v: Versions, order: seq<string>, backend: int)
    requires Consistent(s) && Listing(s, order)
    ensures var carriers := Matching(s, order, HasBackend(backend));
      ByBackendNode(s, v, Some(backend)) == Settle(s, v, carriers) <==> backend != 0 || carriers == []
  {
    var p := HasBackend(backend);
    MatchingMeans(s, order, p);
    var m := Matching(s, order, p);
    if backend == 0 {
      assert |m| == 1 ==> m[0] in m;
      return;
    }
    if |m| > 1 { SeveralMeansTwoDistinct(m); }
    assert backend in s.byBackend ==> s.byBackend[backend] in m;
    assert |m| == 1 ==> m[0] in m;
  }

  /** The selector lookup agrees with a full scan exactly when the selector has no map entry or at most one
      carrier: with an entry and several carriers it returns the mapped one instead of the ambiguity. */
  lemma SelectorLookupIsTheScanExactlyWhen(s: Store, v: Versions, order: seq<string>, sel: string)
    requires Consistent(s) && Listing(s, order) && ValidSelector(sel)
    ensures var carriers := Matching(s, order, HasSelector(sel));
      BySelector(s, v, order, Some(sel)) == Settle(s, v, carriers) <==> sel !in s.bySelector || |carriers| <= 1
  {
    var m := Matching(s, order, HasSelector(sel));
    MatchingMeans(s, order, HasSelector(sel));
    if sel in s.bySelector { assert s.bySelector[sel] in m; }
    if |m| == 1 { assert m[0] in m; }
  }

  /** What a request can name exactly: a stored id; failing that a backend node, of which 0 is none; failing
      that a selector the index accepts. */
  ghost predicate NamesExactly(s: Store, req: Request, r: ElementRef) {
    && r.id in s.elements && s.elements[r.id] == r
    && if req.refId.Some? && req.refId.value in s.elements then r.id == req.refId.value
       else if req.backend.Some? && req.backend != Some(0)
           && (exists id | id in s.elements :: s.elements[id].backend == req.backend.value)
       then r.backend == req.backend.value
       else
         && req.selector == Some(r.selector) && ValidSelector(r.selector)
         && forall id | id in s.elements && s.elements[id].selector == r.selector :: id == r.id
  }

  /** The one element a request names is the one that is picked, whatever else the request says and whatever
      the store holds besides; it is handed out or refused on its own staleness and interactability. */
  lemma TheNamedElementIsPicked(s: Store, v: Versions, order: seq<string>, req: Request, r: ElementRef)
    requires Consistent(s) && Listing(s, order) && NamesExactly(s, req, r)
    ensures Resolve(s, v, order, req) == Checked(v, r)
  {
    var tiers := Tiers(s, v, order, req);
    if ByRef(s, v, req.refId).Some? {
      FirstDecidedIs(tiers, 0);
    } else if ByBackendNode(s, v, req.backend).Some? {
      var b := req.backend.value;
      assert s.elements[s.byBackend[b]].backend == b;
      FirstDecidedIs(tiers, 1);
    } else {
      TheOnlyCarrierIsPicked(s, v, order, r);
      FirstDecidedIs(tiers, 2);
    }
  }

  lemma {:induction false} FirstDecidedIs(tiers: seq<Option<Result>>, i: nat)
    requires i < |tiers| && tiers[i].Some? && forall j | 0 <= j < i :: tiers[j] == None
    ensures FirstDecided(tiers) == tiers[i]
  {
    if i > 0 { FirstDecidedIs(tiers[1..], i - 1); }
  }

  /** Nothing in the store answers to the request: no id, node, selector, dom id, name, text or accessible name of
      it is carried by any element, its role and name by none together, its role alone not by exactly one. */
  ghost predicate NothingAnswers(s: Store, req: Request) { NoLookupAnswers(s, req) && NoScanAnswers(s, req) }

  ghost predicate NoLookupAnswers(s: Store, req: Request) {
    && (req.refId.Some? ==> req.refId.value !in s.elements)
    && (req.backend.Some? && req.backend != Some(0) ==> NoneHas(s, HasBackend(req.backend.value)))
    && (req.selector.Some? ==> ValidSelector(req.selector.value) && NoneHas(s, HasSelector(req.selector.value)))
  }

  ghost predicate NoScanAnswers(s: Store, req: Request) {
    && (req.domId.Some? ==> NoneHas(s, HasDomId(req.domId.value)))
    && (req.name.Some? ==> NoneHas(s, HasName(req.name.value)))
    && (req.role.Some? && req.accessibleName.Some?
        ==> NoneHas(s, HasRoleName(req.role.value, req.accessibleName.value)))
    && (req.role.Some? && req.accessibleName.None? ==> !OneHas(s, HasRole(req.role.value)))
    && (req.text.Some? ==> NoneHas(s, HasText(req.text.value)))
    && (req.accessibleName.Some? ==> NoneHas(s, HasName(req.accessibleName.value)))
  }

  ghost predicate NoneHas(s: Store, p: ElementRef -> bool) { forall id | id in s.elements :: !p(s.elements[id]) }

  ghost predicate OneHas(s: Store, p: ElementRef -> bool) { exists id :: OnlyOneHas(s, p, id) }

  ghost predicate OnlyOneHas(s: Store, p: ElementRef -> bool, id: string) {
    id in s.elements && p(s.elements[id]) && forall other | other in s.elements && p(s.elements[other]) :: other == id
  }

  lemma ScanFindsNone(s: Store, order: seq<string>, p: ElementRef -> bool)
    requires Listing(s, order)
    ensures Matching(s, order, p) == [] <==> NoneHas(s, p)
  {
    var m := Matching(s, order, p);
    MatchingMeans(s, order, p);
    if m != [] { assert m[0] in m; }
  }

  /** A scan finds exactly one element exactly when only one satisfies the predicate. */
  lemma ScanFindsOnly(s: Store, order: seq<string>, p: ElementRef -> bool, id: string)
    requires Listing(s, order)
    ensures Matching(s, order, p) == [id] <==> OnlyOneHas(s, p, id)
  {
    var m := Matching(s, order, p);
    MatchingMeans(s, order, p);
    if m == [id] {
      assert id in m;
      assert forall other | other in m :: other == id;
    } else if OnlyOneHas(s, p, id) {
      assert id in m && forall other | other in m :: other == id;
      AllTheSame(m, id);
    }
  }

  lemma AllTheSame(m: seq<string>, id: string)
    requires Distinct(m) && id in m && forall other | other in m :: other == id
    ensures m == [id]
  {
    if |m| > 1 { SeveralMeansTwoDistinct(m); }
  }

  lemma ScanFindsOne(s: Store, order: seq<string>, p: ElementRef -> bool)
    requires Listing(s, order)
    ensures |Matching(s, order, p)| == 1 <==> OneHas(s, p)
  {
    var m := Matching(s, order, p);
    if |m| == 1 {
      assert m == [m[0]];
      ScanFindsOnly(s, order, p, m[0]);
    }
    if id :| OnlyOneHas(s, p, id) { ScanFindsOnly(s, order, p, id); }
  }

  lemma SettleIsSilentExactlyWhen(s: Store, v: Versions, order: seq<string>, p: ElementRef -> bool)
    requires Listing(s, order)
    ensures Settle(s, v, Matching(s, order, p)) == None <==> NoneHas(s, p)
  {
    var m := Matching(s, order, p);
    ScanFindsNone(s, order, p);
    MatchingMeans(s, order, p);
    if |m| == 1 { assert m[0] in m; }
  }

  lemma BackendIsSilentExactlyWhen(s: Store, v: Versions, backend: Option<int>)
    requires Consistent(s)
    ensures ByBackendNode(s, v, backend) == None
      <==> (backend.Some? && backend != Some(0) ==> NoneHas(s, HasBackend(backend.value)))
  {
    if backend.Some? && ByBackendNode(s, v, backend).Some? {
      var id := s.byBackend[backend.value];
      assert HasBackend(backend.value)(s.elements[id]);
    }
  }

  lemma SelectorIsSilentExactlyWhen(s: Store, v: Versions, order: seq<string>, selector: Option<string>)
    requires Consistent(s) && Listing(s, order)
    ensures BySelector(s, v, order, selector) == None
      <==> (selector.Some? ==> ValidSelector(selector.value) && NoneHas(s, HasSelector(selector.value)))
  {
    if selector.Some? {
      var sel := selector.value;
      SettleIsSilentExactlyWhen(s, v, order, HasSelector(sel));
      if sel in s.bySelector { assert HasSelector(sel)(s.elements[s.bySelector[sel]]); }
    }
  }

  lemma RoleTierIsSilentExactlyWhen(s: Store, v: Versions, order: seq<string>, role: Option<string>,
      name: Option<string>)
    requires Listing(s, order)
    ensures ByRoleName(s, v, order, role, name) == None <==> (
      && (role.Some? && name.Some? ==> NoneHas(s, HasRoleName(role.value, name.value)))
      && (role.Some? && name.None? ==> !OneHas(s, HasRole(role.value))))
  {
    if role.Some? {
      if name.Some? {
        SettleIsSilentExactlyWhen(s, v, order, HasRoleName(role.value, name.value));
      } else {
        var m := Matching(s, order, HasRole(role.value));
        ScanFindsOne(s, order, HasRole(role.value));
        MatchingMeans(s, order, HasRole(role.value));
        if |m| == 1 { assert m[0] in m; }
      }
    }
  }

  lemma ScanIsSilentExactlyWhen(s: Store, v: Versions, order: seq<string>, given: Option<string>,
      p: string -> ElementRef -> bool)
    requires Listing(s, order)
    ensures ByScan(s, v, order, given, p) == None <==> (given.Some? ==> NoneHas(s, p(given.value)))
  {
    if given.Some? { SettleIsSilentExactlyWhen(s, v, order, p(given.value)); }
  }

  lemma {:induction false} NoneDecidedExactlyWhen(tiers: seq<Option<Result>>)
    ensures FirstDecided(tiers) == None <==> forall i | 0 <= i < |tiers| :: tiers[i] == None
  {
    if tiers != [] { NoneDecidedExactlyWhen(tiers[1..]); }
  }

  ghost predicate QuotesCleanly(req: Request) {
    && (req.selector.Some? ==> CutsCleanly(req.selector.value, QUOTED))
    && (req.text.Some? ==> CutsCleanly(req.text.value, QUOTED))
  }

  lemma QuotingPanicsExactlyWhen(req: Request)
    ensures QuotingPanics(req) <==> !QuotesCleanly(req)
  {
    if req.selector.Some? { TruncateSucceedsExactlyWhen(req.selector.value, QUOTED); }
    if req.text.Some? { TruncateSucceedsExactlyWhen(req.text.value, QUOTED); }
  }

  /** Resolution comes back empty-handed exactly when nothing answers to the request; and then, instead of the
      error, it panics exactly when the request's selector or text does not cut cleanly for the error text. */
  lemma EmptyHandedExactlyWhen(s: Store, v: Versions, order: seq<string>, req: Request)
    requires Consistent(s) && Listing(s, order)
    ensures Resolve(s, v, order, req) in {NotFound, Panics} <==> NothingAnswers(s, req)
    ensures Resolve(s, v, order, req) == Panics <==> NothingAnswers(s, req) && !QuotesCleanly(req)
  {
    QuotingPanicsExactlyWhen(req);
    SilentExactlyWhen(s, v, order, req);
    FirstDecidedIsAResult(Tiers(s, v, order, req));
  }

  lemma LookupsAreSilentExactlyWhen(s: Store, v: Versions, order: seq<string>, req: Request)
    requires Consistent(s) && Listing(s, order)
    ensures var tiers := Tiers(s, v, order, req);
      tiers[0] == tiers[1] == tiers[2] == None <==> NoLookupAnswers(s, req)
  {
    BackendIsSilentExactlyWhen(s, v, req.backend);
    SelectorIsSilentExactlyWhen(s, v, order, req.selector);
  }

  lemma ScansAreSilentExactlyWhen(s: Store, v: Versions, order: seq<string>, req: Request)
    requires Listing(s, order)
    ensures var tiers := Tiers(s, v, order, req);
      tiers[3] == tiers[4] == tiers[5] == tiers[6] == tiers[7] == None <==> NoScanAnswers(s, req)
  {
    RoleTierIsSilentExactlyWhen(s, v, order, req.role, req.accessibleName);
    ScanIsSilentExactlyWhen(s, v, order, req.domId, HasDomId);
    ScanIsSilentExactlyWhen(s, v, order, req.name, HasName);
    ScanIsSilentExactlyWhen(s, v, order, req.text, HasText);
    ScanIsSilentExactlyWhen(s, v, order, req.accessibleName, HasName);
  }

  lemma AllEight(tiers: seq<Option<Result>>)
    requires |tiers| == 8
    ensures (forall i | 0 <= i < 8 :: tiers[i] == None) <==>
      (tiers[0] == tiers[1] == tiers[2] == None && tiers[3] == tiers[4] == tiers[5] == tiers[6] == tiers[7] == None)
  {
  }

  lemma SilentExactlyWhen(s: Store, v: Versions, order: seq<string>, req: Request)
    requires Consistent(s) && Listing(s, order)
    ensures FirstDecided(Tiers(s, v, order, req)) == None <==> NothingAnswers(s, req)
  {
    LookupsAreSilentExactlyWhen(s, v, order, req);
    ScansAreSilentExactlyWhen(s, v, order, req);
    NoneDecidedExactlyWhen(Tiers(s, v, order, req));
    AllEight(Tiers(s, v, order, req));
  }

  lemma {:induction false} FirstDecidedIsAResult(tiers: seq<Option<Result>>)
    requires forall i | 0 <= i < |tiers| :: IsResult(tiers[i])
    ensures IsResult(FirstDecided(tiers))
  {
    if tiers != [] {
      assert IsResult(tiers[0]);
      FirstDecidedIsAResult(tiers[1..]);
    }
  }

  function TextRequest(text: string): Request { Request(None, None, None, None, None, None, None, Some(text), None) }

  lemma UncutTextPanics(text: string, v: Versions)
    requires !CutsCleanly(text, QUOTED)
    ensures Resolve(EmptyStore(), v, [], TextRequest(text)) == Panics
  {
    assert NothingAnswers(EmptyStore(), TextRequest(text));
    EmptyHandedExactlyWhen(EmptyStore(), v, [], TextRequest(text));
  }

  /** An error text can cost the error: on an empty index, 27 three-byte characters take 81 bytes, and the 80th is
      inside one of them. */
  lemma ResolvingCanPanic(v: Versions)
    ensures Resolve(EmptyStore(), v, [], TextRequest(Repeated('\U{4E2D}', 27))) == Panics
  {
    ThreeByteTextCutsExactlyWhen('\U{4E2D}', 27, QUOTED);
    UncutTextPanics(Repeated('\U{4E2D}', 27), v);
  }

  lemma TheOnlyCarrierIsPicked(s: Store, v: Versions, order: seq<string>, r: ElementRef)
    requires Consistent(s) && Listing(s, order) && ValidSelector(r.selector)
    requires r.id in s.elements && s.elements[r.id] == r
    requires forall id | id in s.elements && s.elements[id].selector == r.selector :: id == r.id
    ensures BySelector(s, v, order, Some(r.selector)) == Some(Checked(v, r))
  {
    var m := Matching(s, order, HasSelector(r.selector));
    MatchingMeans(s, order, HasSelector(r.selector));
    assert r.id in m;
    if |m| > 1 { SeveralMeansTwoDistinct(m); }
  }

  lemma BothMatch(s: Store, x: string, y: string, p: ElementRef -> bool)
    requires x in s.elements && y in s.elements && p(s.elements[x]) && p(s.elements[y])
    ensures Matching(s, [x, y], p) == [x, y]
  {
    assert [x, y][1..] == [y] && [y][1..] == [];
    assert Matching(s, [y], p) == [y] + Matching(s, [], p);
  }

  lemma LaterOneIsPicked(s: Store, r: ElementRef, q: ElementRef)
    requires s.elements == map["x" := r, "y" := q] && s.bySelector == map["a" := "y"]
    requires r.selector == "a" && q.selector == "a" && Live(InitialVersions(), q)
    ensures Listing(s, ["x", "y"]) && ValidSelector("a") && |Matching(s, ["x", "y"], HasSelector("a"))| == 2
    ensures BySelector(s, InitialVersions(), ["x", "y"], Some("a")) == Some(Found(q))
  {
    BothMatch(s, "x", "y", HasSelector("a"));
  }

  /** Two visible, enabled, fresh elements with one selector: the lookup picks the later one. */
  lemma SharedSelectorIsGuessed()
    ensures exists s: Store, v, order, sel ::
      && Consistent(s) && Listing(s, order) && ValidSelector(sel) && |Matching(s, order, HasSelector(sel))| == 2
      && BySelector(s, v, order, Some(sel)).Some? && BySelector(s, v, order, Some(sel)).value.Found?
  {
    var r := ElementRef("x", 7, 0, 0, "", 0, "", "", "a", "", [], "a", "", true, true, 0);
    var q := r.(id := "y", backend := 8);
    var s := Put(Put(EmptyStore(), r), q);
    PutAgreesExactlyWhen(EmptyStore(), r);
    PutAgreesExactlyWhen(Put(EmptyStore(), r), q);
    assert s.elements == map["x" := r, "y" := q] && s.bySelector == map["a" := "y"];
    LaterOneIsPicked(s, r, q);
  }
}
