/** Incremental index updates: how one event changes the store, and the diff that reports it. */
module DomDiff {
  import opened Wrappers
  import opened Text
  import opened Events
  import opened PageVersions
  import opened ElementIndex

  datatype DiffKind = Incremental | FullRebuild

  /** `explained` is true when the diff carries a reason for not having guessed. */
  datatype Diff = Diff(
    kind: DiffKind, domBefore: nat, domAfter: nat, indexBefore: nat, indexAfter: nat,
    added: seq<string>, removed: seq<string>, changed: seq<string>, invalidated: seq<string>,
    parents: seq<int>, countAfter: nat, explained: bool)

  function NonZero(id: int): seq<int> { if id != 0 then [id] else [] }

  function FullDiff(s: Store, v: Versions, domBefore: nat, indexBefore: nat): Diff {
    Diff(FullRebuild, domBefore, v.dom, indexBefore, v.index, [], [], [], [], [], |s.elements|, true)
  }

  // -- the handlers -----------------------------------------------------------

  predicate Identified(p: NodePayload) { p.backend != 0 || p.node != 0 }

  /** The reference built for an inserted node: no frame is known, so the empty one is recorded with
      the global frame version. */
  function NewRef(v: Versions, p: NodePayload): ElementRef {
    ElementRef("", p.backend, p.node, v.target, "", v.frameTree, "", p.text, p.tag, p.domId, p.classes,
               BuildSelector(p.tag, p.domId, p.classes), p.text, true, true, v.dom)
  }

  /** The store after dropping whatever already had the inserted node's backend. */
  function Displaced(s: Store, backend: int): Store {
    match ByBackend(s, backend) case Some(prior) => Removed(s, prior.id) case None => s
  }

  function HandleInsert(s: Store, v: Versions, parent: int, payload: Option<NodePayload>, domBefore: nat,
      indexBefore: nat): (Store, Diff) {
    match payload
    case None =>
      (s, Diff(Incremental, domBefore, v.dom, indexBefore, v.index, [], [], [], [], NonZero(parent),
          |s.elements|, true))
    case Some(p) =>
      if !Identified(p) then (s, FullDiff(s, v, domBefore, indexBefore))
      else
        var gone := match ByBackend(s, p.backend) case Some(prior) => [prior.id] case None => [];
        var kept := Displaced(s, p.backend);
        var t := Inserted(kept, v, NewRef(v, p));
        (t, Diff(Incremental, domBefore, v.dom, indexBefore, v.index, [IdOf(kept.nextId)], gone, [], gone,
            NonZero(parent), |t.elements|, p.hasChildren))
  }

  /** `scanned` is what the scan by node id found; the backend hint is tried only if it found nothing. */
  function RemovalTarget(s: Store, scanned: Option<string>, hint: Option<int>): Option<string> {
    if scanned.Some? then scanned
    else match hint
      case Some(b) => (match ByBackend(s, b) case Some(r) => Some(r.id) case None => None)
      case None => None
  }

  function HandleRemove(s: Store, v: Versions, parent: int, hint: Option<int>, scanned: Option<string>,
      domBefore: nat, indexBefore: nat): (Store, Diff) {
    match RemovalTarget(s, scanned, hint)
    case Some(id) =>
      var t := Removed(s, id);
      (t, Diff(Incremental, domBefore, v.dom, indexBefore, v.index, [], [id], [], [id], NonZero(parent), |t.elements|,
          false))
    case None =>
      (s, Diff(Incremental, domBefore, v.dom, indexBefore, v.index, [], [], [], [], NonZero(parent), |s.elements|,
          true))
  }

  function WithAttribute(r: ElementRef, name: string, value: string): ElementRef {
    var off := value == "" || value == "false";
    match name
    case "id" => r.(domId := value, selector := BuildSelector(r.tag, value, r.classes))
    case "class" => r.(classes := Words(value), selector := BuildSelector(r.tag, r.domId, Words(value)))
    case "data-version" | "data-state" | "data-*" => r.(text := name + ":" + value)
    case "disabled" => r.(enabled := off)
    case "hidden" | "aria-hidden" => r.(visible := off)
    case _ => r
  }

  function HandleAttribute(s: Store, v: Versions, node: int, name: string, value: string, scanned: Option<string>,
      domBefore: nat, indexBefore: nat): (Store, Diff)
    requires scanned.Some? ==> scanned.value in s.elements
  {
    match scanned
    case Some(id) =>
      var r := WithAttribute(s.elements[id], name, value).(domVersion := v.dom);
      var t := Updated(s, r);
      (t, Diff(Incremental, domBefore, v.dom, indexBefore, v.index, [], [], [r.id], [r.id], NonZero(node),
          |t.elements|, false))
    case None =>
      (s, Diff(Incremental, domBefore, v.dom, indexBefore, v.index, [], [], [], [], NonZero(node), |s.elements|, true))
  }

  function HandleFullRebuild(s: Store, v: Versions, domBefore: nat, indexBefore: nat): (Store, Diff) {
    (Cleared(s), FullDiff(Cleared(s), v, domBefore, indexBefore))
  }

  /** `scanned` is a possible answer of the scan this event makes over the store. */
  predicate ScanAnswers(s: Store, e: PageEvent, scanned: Option<string>) {
    match e
    case ChildRemoved(_, node, _) => if node != 0 then ScanFinds(s, node, scanned) else scanned == None
    case AttributeModified(node, _, _) => ScanFinds(s, node.GetOr(0), scanned)
    case _ => true
  }

  /** The store after one event and the diff reported, given the versions after the state owners have
      seen it and the versions captured before. */
  function OnEventWithPre(s: Store, v: Versions, e: PageEvent, scanned: Option<string>, domBefore: nat,
      indexBefore: nat): (Store, Option<Diff>)
    requires ScanAnswers(s, e, scanned)
  {
    match e
    case ChildInserted(parent, payload) =>
      var (t, d) := HandleInsert(s, v, parent.GetOr(0), payload, domBefore, indexBefore); (t, Some(d))
    case ChildRemoved(parent, _, hint) =>
      var (t, d) := HandleRemove(s, v, parent.GetOr(0), hint, scanned, domBefore, indexBefore); (t, Some(d))
    case AttributeModified(node, name, value) =>
      var (t, d) := HandleAttribute(s, v, node.GetOr(0), name, value, scanned, domBefore, indexBefore); (t, Some(d))
    case DocumentUpdated => var (t, d) := HandleFullRebuild(s, v, domBefore, indexBefore); (t, Some(d))
    case FrameNavigated(_, isMain) =>
      if isMain then var (t, d) := HandleFullRebuild(s, v, domBefore, indexBefore); (t, Some(d)) else (s, None)
    case _ => (s, None)
  }

  function Minus1(n: nat): nat { if n == 0 then 0 else n - 1 }

  predicate TouchesTheDocument(e: PageEvent) {
    e.ChildInserted? || e.ChildRemoved? || e.AttributeModified? || e.DocumentUpdated? || e.FrameNavigated?
  }

  /** The entry point without captured versions, which guesses them from the current ones. */
  function OnEventGuessing(s: Store, v: Versions, e: PageEvent, scanned: Option<string>): (Store, Option<Diff>)
    requires ScanAnswers(s, e, scanned)
  {
    if TouchesTheDocument(e) && v.dom > 0 then
      OnEventWithPre(s, v, e, scanned, Minus1(v.dom), if e.DocumentUpdated? then Minus1(v.index) else v.index)
    else OnEventWithPre(s, v, e, scanned, v.dom, v.index)
  }

  function OnRecovery(s: Store, v: Versions): (Store, Diff) {
    (Cleared(s), FullDiff(Cleared(s), v, Minus1(v.dom), Minus1(v.index)))
  }

  // -- the runtime as a whole ---------------------------------------------------

  datatype World = World(versions: Versions, store: Store)

  datatype Happening =
    | Seen(event: PageEvent, scanned: Option<string>)
    | Reconnect(crash: bool)

  function InitialWorld(): World { World(InitialVersions(), EmptyStore()) }

  predicate Allowed(w: World, h: Happening) { h.Seen? ==> ScanAnswers(w.store, h.event, h.scanned) }

  /** One dispatched event reaches the version owners first and the index last. */
  function Report(w: World, h: Happening): (World, Option<Diff>)
    requires Allowed(w, h)
  {
    match h
    case Seen(e, scanned) =>
      var v := OnEvent(w.versions, e);
      var (t, d) := OnEventWithPre(w.store, v, e, scanned, w.versions.dom, w.versions.index);
      (World(v, t), d)
    case Reconnect(crash) =>
      var v := Apply(w.versions, if crash then CrashRecovery else SimulatedReconnect);
      var (t, d) := OnRecovery(w.store, v);
      (World(v, t), Some(d))
  }

  function Run(w: World, hs: seq<Happening>): Option<World>
    decreases |hs|
  {
    if hs == [] then Some(w)
    else if !Allowed(w, hs[0]) then None
    else Run(Report(w, hs[0]).0, hs[1..])
  }

  /** No stored element is stamped ahead of the counters. */
  ghost predicate StoredAreIssued(w: World) {
    forall id | id in w.store.elements :: Issued(w.versions, StampOf(w.store.elements[id]))
  }

  ghost predicate Sound(w: World) {
    Consistent(w.store) && AutoNumbered(w.store) && StoredAreIssued(w) && FramesBounded(w.versions)
  }

  /** The diff `d` tells exactly how the store changed from `s` to `t`. */
  ghost predicate Explains(s: map<string, ElementRef>, d: Diff, t: map<string, ElementRef>) {
    && d.countAfter == |t| && |t| == |s| + |d.added| - |d.removed|
    && (forall id :: id in t <==> (id in s && id !in d.removed) || id in d.added)
    && (forall id | id in d.removed :: id in s)
    && (forall id | id in d.added :: id !in s)
    && (forall id | id in d.changed :: id in s && id in t)
    && (forall id | id in s && id in t && id !in d.changed :: t[id] == s[id])
  }

  lemma DisplacedIsReady(s: Store, backend: int)
    requires Consistent(s) && AutoNumbered(s)
    ensures var kept := Displaced(s, backend);
      && Consistent(kept) && AutoNumbered(kept) && kept.nextId == s.nextId
          && (backend == 0 || backend !in kept.byBackend)
      && (match ByBackend(s, backend)
          case Some(prior) => prior.id in s.elements && kept.elements == s.elements - {prior.id}
              && |kept.elements| == |s.elements| - 1
          case None => kept == s)
  {
    if ByBackend(s, backend).Some? {
      var id := s.byBackend[backend];
      RemoveKeepsAgreement(s, id);
      RemoveKeepsNumbering(s, id);
    }
  }

  lemma SwapIsExplained(s: map<string, ElementRef>, gone: seq<string>, kept: map<string, ElementRef>, c: ElementRef,
      d: Diff)
    requires (gone == [] && kept == s) || (|gone| == 1 && gone[0] in s && kept == s - {gone[0]} && |kept| == |s| - 1)
    requires c.id !in s && d.added == [c.id] && d.removed == gone && d.changed == []
    requires d.countAfter == |kept[c.id := c]|
    ensures Explains(s, d, kept[c.id := c])
  {
  }

  lemma InsertIsExplained(s: Store, v: Versions, parent: int, p: NodePayload, domBefore: nat, indexBefore: nat)
    requires Consistent(s) && AutoNumbered(s) && Identified(p)
    ensures var (t, d) := HandleInsert(s, v, parent, Some(p), domBefore, indexBefore);
      Consistent(t) && AutoNumbered(t) && Explains(s.elements, d, t.elements)
  {
    var kept := Displaced(s, p.backend);
    DisplacedIsReady(s, p.backend);
    var r := NewRef(v, p);
    AutoInsertKeeps(kept, v, r);
    NextIdIsFresh(s);
    var (t, d) := HandleInsert(s, v, parent, Some(p), domBefore, indexBefore);
    SwapIsExplained(s.elements, d.removed, kept.elements, Completed(kept, v, r), d);
  }

  lemma RemoveIsExplained(s: Store, v: Versions, parent: int, hint: Option<int>, scanned: Option<string>,
      domBefore: nat, indexBefore: nat)
    requires Consistent(s) && AutoNumbered(s) && (scanned.Some? ==> scanned.value in s.elements)
    ensures var (t, d) := HandleRemove(s, v, parent, hint, scanned, domBefore, indexBefore);
      Consistent(t) && AutoNumbered(t) && Explains(s.elements, d, t.elements)
  {
    var target := RemovalTarget(s, scanned, hint);
    if target.Some? {
      assert target.value in s.elements;
      RemoveKeepsAgreement(s, target.value);
      RemoveKeepsNumbering(s, target.value);
    }
  }

  /** An attribute change never moves an element to another id, backend node or frame. */
  lemma AttributesKeepIdentity(r: ElementRef, name: string, value: string)
    ensures var t := WithAttribute(r, name, value);
      t.id == r.id && t.backend == r.backend && t.node == r.node && StampOf(t) == StampOf(r)
  {
  }

  lemma UpdateIsExplained(s: Store, r: ElementRef, d: Diff)
    requires Consistent(s) && AutoNumbered(s) && r.id in s.elements && s.elements[r.id].backend == r.backend
    requires d.added == [] && d.removed == [] && d.changed == [r.id] && d.countAfter == |Updated(s, r).elements|
    ensures Consistent(Updated(s, r)) && AutoNumbered(Updated(s, r)) && Explains(s.elements, d, Updated(s, r).elements)
  {
    UpdateAgreesExactlyWhen(s, r);
    assert Updated(s, r).elements.Keys == s.elements.Keys;
    assert |Updated(s, r).elements.Keys| == |s.elements.Keys|;
  }

  lemma AttributeIsExplained(s: Store, v: Versions, node: int, name: string, value: string, scanned: Option<string>,
      domBefore: nat, indexBefore: nat)
    requires Consistent(s) && AutoNumbered(s) && (scanned.Some? ==> scanned.value in s.elements)
    ensures var (t, d) := HandleAttribute(s, v, node, name, value, scanned, domBefore, indexBefore);
      Consistent(t) && AutoNumbered(t) && Explains(s.elements, d, t.elements)
  {
    if scanned.Some? {
      AttributesKeepIdentity(s.elements[scanned.value], name, value);
      var (t, d) := HandleAttribute(s, v, node, name, value, scanned, domBefore, indexBefore);
      UpdateIsExplained(s, t.elements[scanned.value], d);
    }
  }

  /** One event, applied by the index: the maps stay in agreement, and the diff tells the truth. */
  lemma EventIsExplained(s: Store, v: Versions, e: PageEvent, scanned: Option<string>, domBefore: nat, indexBefore: nat)
    requires Consistent(s) && AutoNumbered(s) && ScanAnswers(s, e, scanned)
    ensures var (t, d) := OnEventWithPre(s, v, e, scanned, domBefore, indexBefore);
      && Consistent(t) && AutoNumbered(t)
      && (d == None ==> t == s)
      && (d.Some? ==> d.value.countAfter == |t.elements|)
      && (d.Some? && d.value.kind == Incremental ==> Explains(s.elements, d.value, t.elements))
  {
    match e
    case ChildInserted(parent, Some(p)) =>
      if Identified(p) { InsertIsExplained(s, v, parent.GetOr(0), p, domBefore, indexBefore); }
    case ChildRemoved(parent, _, hint) =>
      RemoveIsExplained(s, v, parent.GetOr(0), hint, scanned, domBefore, indexBefore);
    case AttributeModified(node, name, value) =>
      AttributeIsExplained(s, v, node.GetOr(0), name, value, scanned, domBefore, indexBefore);
    case _ =>
  }

  lemma MovesOnlyRaise(v: Versions, m: Move, r: Stamp)
    requires Issued(v, r)
    ensures Issued(Apply(v, m), r)
  {
  }

  lemma InsertStampsAreIssued(s: Store, v: Versions, p: NodePayload, parent: int, domBefore: nat, indexBefore: nat)
    requires forall id | id in s.elements :: Issued(v, StampOf(s.elements[id]))
    ensures var t := HandleInsert(s, v, parent, Some(p), domBefore, indexBefore).0;
      forall id | id in t.elements :: Issued(v, StampOf(t.elements[id]))
  {
    if Identified(p) {
      var kept := Displaced(s, p.backend);
      var c := Completed(kept, v, NewRef(v, p));
      assert HandleInsert(s, v, parent, Some(p), domBefore, indexBefore).0.elements == kept.elements[c.id := c];
    }
  }

  lemma AttributeStampsAreIssued(s: Store, v: Versions, node: int, name: string, value: string,
      scanned: Option<string>, domBefore: nat, indexBefore: nat)
    requires forall id | id in s.elements :: Issued(v, StampOf(s.elements[id]))
    requires scanned.Some? ==> scanned.value in s.elements
    ensures var t := HandleAttribute(s, v, node, name, value, scanned, domBefore, indexBefore).0;
      forall id | id in t.elements :: Issued(v, StampOf(t.elements[id]))
  {
    if scanned.Some? { AttributesKeepIdentity(s.elements[scanned.value], name, value); }
  }

  lemma EventStampsAreIssued(s: Store, v: Versions, e: PageEvent, scanned: Option<string>, domBefore: nat,
      indexBefore: nat)
    requires ScanAnswers(s, e, scanned)
    requires forall id | id in s.elements :: Issued(v, StampOf(s.elements[id]))
    ensures var t := OnEventWithPre(s, v, e, scanned, domBefore, indexBefore).0;
      forall id | id in t.elements :: Issued(v, StampOf(t.elements[id]))
  {
    match e
    case ChildInserted(parent, Some(p)) => InsertStampsAreIssued(s, v, p, parent.GetOr(0), domBefore, indexBefore);
    case AttributeModified(node, name, value) =>
      AttributeStampsAreIssued(s, v, node.GetOr(0), name, value, scanned, domBefore, indexBefore);
    case _ =>
  }

  lemma HappeningKeepsSound(w: World, h: Happening)
    requires Sound(w) && Allowed(w, h)
    ensures Sound(Report(w, h).0)
  {
    match h
    case Seen(e, scanned) =>
      var v := OnEvent(w.versions, e);
      MoveKeepsFramesBounded(w.versions, Page(e));
      assert v == Apply(w.versions, Page(e));
      forall id | id in w.store.elements ensures Issued(v, StampOf(w.store.elements[id])) {
        MovesOnlyRaise(w.versions, Page(e), StampOf(w.store.elements[id]));
      }
      EventIsExplained(w.store, v, e, scanned, w.versions.dom, w.versions.index);
      EventStampsAreIssued(w.store, v, e, scanned, w.versions.dom, w.versions.index);
    case Reconnect(crash) => MoveKeepsFramesBounded(w.versions, if crash then CrashRecovery else SimulatedReconnect);
  }

  lemma {:induction false} RunKeepsSound(w: World, hs: seq<Happening>)
    requires Sound(w) && Run(w, hs).Some?
    ensures Sound(Run(w, hs).value)
    decreases |hs|
  {
    if hs != [] {
      HappeningKeepsSound(w, hs[0]);
      RunKeepsSound(Report(w, hs[0]).0, hs[1..]);
    }
  }

  // -- the promises, over every run -----------------------------------------

  /** After any run of page events and reconnects the backend map is the exact inverse of the stored
      backend ids, every selector entry points at a stored element with that selector, keys equal ids,
      ids are the store's own, and no stored element is stamped ahead of the counters. */
  lemma MapsAgreeAfterAnyRun(hs: seq<Happening>, w: World)
    requires Run(InitialWorld(), hs) == Some(w)
    ensures Sound(w)
  {
    assert Sound(InitialWorld());
    RunKeepsSound(InitialWorld(), hs);
  }

  /** A diff carries the bounds it was given, before and after. */
  lemma DiffCarriesItsBounds(s: Store, v: Versions, e: PageEvent, scanned: Option<string>, domBefore: nat,
      indexBefore: nat)
    requires ScanAnswers(s, e, scanned)
    ensures var (t, d) := OnEventWithPre(s, v, e, scanned, domBefore, indexBefore);
      && (d.Some? <==> MovesDom(e))
      && (d.Some? ==>
          && d.value.domBefore == domBefore && d.value.domAfter == v.dom
          && d.value.indexBefore == indexBefore && d.value.indexAfter == v.index
          && (d.value.kind == FullRebuild ==> if e.ChildInserted? then t == s else t == Cleared(s)))
  {
    match e
    case ChildInserted(parent, payload) => assert e.ChildInserted?;
    case _ =>
  }

  lemma DomMovesByOne(v: Versions, e: PageEvent)
    requires MovesDom(e)
    ensures OnEvent(v, e).dom == v.dom + 1
  {
  }

  lemma DiffBoundsAreExact(s: Store, v: Versions, e: PageEvent, scanned: Option<string>)
    requires ScanAnswers(s, e, scanned)
    ensures var now := OnEvent(v, e);
      var (t, d) := OnEventWithPre(s, now, e, scanned, v.dom, v.index);
      && (d.Some? <==> MovesDom(e))
      && (d.Some? ==>
          && d.value.domBefore == v.dom && d.value.domAfter == now.dom == v.dom + 1
          && d.value.indexBefore == v.index && d.value.indexAfter == now.index
          && (d.value.kind == FullRebuild ==> if e.ChildInserted? then t == s else t == Cleared(s)))
  {
    DiffCarriesItsBounds(s, OnEvent(v, e), e, scanned, v.dom, v.index);
    if MovesDom(e) { DomMovesByOne(v, e); }
  }

  /** The events that replace the whole document. */
  predicate ReplacesDocument(e: PageEvent) { e.DocumentUpdated? || (e.FrameNavigated? && e.isMain) }

  /** An inserted node that comes with data but without any id. */
  predicate InsertsUnidentified(e: PageEvent) { e.ChildInserted? && e.payload.Some? && !Identified(e.payload.value) }

  /** Which events are reported as a rebuild, and what they leave: one that replaces the document leaves the index
      empty; one that inserts a node nobody can identify is reported as a rebuild all the same, and clears nothing. */
  lemma RebuildsExactlyWhen(s: Store, v: Versions, e: PageEvent, scanned: Option<string>, domBefore: nat,
      indexBefore: nat)
    requires ScanAnswers(s, e, scanned)
    ensures var (t, d) := OnEventWithPre(s, v, e, scanned, domBefore, indexBefore);
      && (d.Some? && d.value.kind == FullRebuild <==> ReplacesDocument(e) || InsertsUnidentified(e))
      && (ReplacesDocument(e) ==> t.elements == map[] && t.byBackend == map[] && t.bySelector == map[])
      && (ReplacesDocument(e) ==> d.Some? && d.value.countAfter == 0)
      && (InsertsUnidentified(e) ==> t == s)
  {
    match e
    case ChildInserted(parent, payload) =>
      if payload.Some? && Identified(payload.value) { assert !InsertsUnidentified(e); }
    case _ =>
  }

  /** So a reported rebuild has emptied a non-empty index exactly when the event replaces the document. */
  lemma RebuildsEmptyExactlyWhen(w: World, e: PageEvent, scanned: Option<string>)
    requires Allowed(w, Seen(e, scanned)) && w.store.elements != map[]
    ensures var (after, d) := Report(w, Seen(e, scanned));
      d.Some? && d.value.kind == FullRebuild ==> (after.store.elements == map[] <==> ReplacesDocument(e))
  {
    RebuildsExactlyWhen(w.store, OnEvent(w.versions, e), e, scanned, w.versions.dom, w.versions.index);
  }

  /** After any run, every incremental diff accounts for the change it reports, id by id and in number,
      and carries the exact version bounds; a rebuild leaves the index empty exactly when it is not the
      one reported for an inserted node that cannot be identified, which changes nothing. */
  lemma DiffsAreTruthful(hs: seq<Happening>, w: World, e: PageEvent, scanned: Option<string>)
    requires Run(InitialWorld(), hs) == Some(w) && Allowed(w, Seen(e, scanned))
    ensures var (after, d) := Report(w, Seen(e, scanned));
      && (d == None ==> after.store == w.store)
      && (d.Some? ==>
          && d.value.domBefore == w.versions.dom && d.value.domAfter == after.versions.dom == w.versions.dom + 1
          && d.value.indexBefore == w.versions.index && d.value.indexAfter == after.versions.index
          && d.value.countAfter == |after.store.elements|
          && (d.value.kind == Incremental ==> Explains(w.store.elements, d.value, after.store.elements))
          && (d.value.kind == FullRebuild ==>
                if e.ChildInserted? then after.store == w.store else after.store == Cleared(w.store)))
      && (d.Some? && d.value.kind == FullRebuild <==> ReplacesDocument(e) || InsertsUnidentified(e))
      && (ReplacesDocument(e) ==> after.store.elements == map[])
  {
    RebuildsExactlyWhen(w.store, OnEvent(w.versions, e), e, scanned, w.versions.dom, w.versions.index);
    MapsAgreeAfterAnyRun(hs, w);
    DiffBoundsAreExact(w.store, w.versions, e, scanned);
    EventIsExplained(w.store, OnEvent(w.versions, e), e, scanned, w.versions.dom, w.versions.index);
  }

  /** Called right after the version owners have seen the event, the entry point that guesses the earlier
      versions reports and does exactly what the one given them does. */
  lemma GuessingIsExact(w: World, e: PageEvent, scanned: Option<string>)
    requires Allowed(w, Seen(e, scanned))
    ensures var v := OnEvent(w.versions, e);
      OnEventGuessing(w.store, v, e, scanned)
          == OnEventWithPre(w.store, v, e, scanned, w.versions.dom, w.versions.index)
  {
    var v := OnEvent(w.versions, e);
    if MovesDocument(e) {
      GuessesAreRight(w.versions, e);
    } else {
      OtherEventsReportNothing(w.store, v, e, scanned, v.dom, v.index);
      OtherEventsReportNothing(w.store, v, e, scanned, w.versions.dom, w.versions.index);
    }
  }

  predicate MovesDocument(e: PageEvent) {
    TouchesTheDocument(e) && (e.FrameNavigated? ==> e.isMain)
  }

  lemma GuessesAreRight(v: Versions, e: PageEvent)
    requires MovesDocument(e)
    ensures OnEvent(v, e).dom == v.dom + 1
    ensures OnEvent(v, e).index == v.index + if e.DocumentUpdated? then 1 else 0
  {
  }

  lemma OtherEventsReportNothing(s: Store, v: Versions, e: PageEvent, scanned: Option<string>, dom: nat, index: nat)
    requires ScanAnswers(s, e, scanned) && !MovesDocument(e)
    ensures OnEventWithPre(s, v, e, scanned, dom, index) == (s, None)
  {
  }

  /** After a reconnect the index is empty, every counter has moved on but that of navigations and, unless there was a
      crash, that of frames, no frame has a version of its own, and the recovery diff has the exact version bounds. */
  lemma RecoveryIsReportedExactly(w: World, crash: bool)
    ensures var (after, d) := Report(w, Reconnect(crash));
      && after.store == Cleared(w.store) && d.Some? && d.value.kind == FullRebuild && d.value.countAfter == 0
      && d.value.domBefore == w.versions.dom && d.value.domAfter == w.versions.dom + 1
      && d.value.indexBefore == w.versions.index && d.value.indexAfter == w.versions.index + 1
    ensures var (v, u) := (w.versions, Report(w, Reconnect(crash)).0.versions);
      && u.target == v.target + 1 && u.runtime == v.runtime + 1 && u.navigation == v.navigation
      && u.dom == v.dom + 1 && u.index == v.index + 1 && u.frames == map[]
      && u.frameTree == (if crash then v.frameTree + 1 else v.frameTree)
  {
  }

  /** A reference created for an inserted node is stale at birth exactly when some frame event has been
      seen since start-up: it is stamped with the global frame version under a frame that never has one. */
  lemma InsertedIsBornStaleExactlyWhen(hs: seq<Happening>, w: World, parent: Option<int>, p: NodePayload)
    requires Run(InitialWorld(), hs) == Some(w) && Identified(p)
    ensures var (after, d) := Report(w, Seen(ChildInserted(parent, Some(p)), None));
      && d.Some? && |d.value.added| == 1 && d.value.added[0] in after.store.elements
      && (IsStale(after.versions, StampOf(after.store.elements[d.value.added[0]])) <==> w.versions.frameTree != 0)
  {
    MapsAgreeAfterAnyRun(hs, w);
    var v := OnEvent(w.versions, ChildInserted(parent, Some(p)));
    var kept := Displaced(w.store, p.backend);
    DisplacedIsReady(w.store, p.backend);
    var c := Completed(kept, v, NewRef(v, p));
    assert Report(w, Seen(ChildInserted(parent, Some(p)), None)).0.store.elements[c.id] == c;
    assert c.id == IdOf(kept.nextId);
    assert FrameVersion(v, "") == 0;
  }

  lemma {:induction false} OneMoreHappening(w: World, hs: seq<Happening>, h: Happening)
    requires Run(w, hs).Some? && Allowed(Run(w, hs).value, h)
    ensures Run(w, hs + [h]) == Some(Report(Run(w, hs).value, h).0)
    decreases |hs|
  {
    if hs == [] {
      assert (hs + [h])[1..] == [];
    } else {
      OneMoreHappening(Report(w, hs[0]).0, hs[1..], h);
      assert (hs + [h])[1..] == hs[1..] + [h];
    }
  }

  /** What a subscriber is handed: an event, or None for a gap where it lagged behind and events were lost. */
  type Inbox = seq<Option<PageEvent>>

  function Heard(inbox: Inbox): seq<PageEvent> {
    if inbox == [] then []
    else Heard(inbox[..|inbox| - 1]) + match inbox[|inbox| - 1] case Some(e) => [e] case None => []
  }

  ghost predicate AreSeen(hs: seq<Happening>, es: seq<PageEvent>) {
    |hs| == |es| && forall i | 0 <= i < |hs| :: hs[i].Seen? && hs[i].event == es[i]
  }

  // -- the engine ---------------------------------------------------------------

  class Engine {
    const index: Index
    var lastDiff: Option<Diff>
    var incrementalCount: nat
    var rebuildCount: nat

    constructor (index: Index)
      ensures this.index == index && lastDiff == None && incrementalCount == 0 && rebuildCount == 0
    {
      this.index := index;
      lastDiff, incrementalCount, rebuildCount := None, 0, 0;
    }

    method BuildFull(domBefore: nat, indexBefore: nat) returns (d: Diff)
      modifies this`rebuildCount
      ensures d == FullDiff(index.View(), index.Now(), domBefore, indexBefore) && rebuildCount == old(rebuildCount) + 1
    {
      var now := index.Now();
      rebuildCount := rebuildCount + 1;
      d := Diff(FullRebuild, domBefore, now.dom, indexBefore, now.index, [], [], [], [], [], |index.elements|, true);
    }

    method Insert(parent: int, payload: Option<NodePayload>, domBefore: nat, indexBefore: nat) returns (d: Diff)
      modifies this`incrementalCount, this`rebuildCount, index
      ensures (index.View(), d) == HandleInsert(old(index.View()), index.Now(), parent, payload, domBefore, indexBefore)
    {
      var now := index.Now();
      if payload == None {
        return Diff(Incremental, domBefore, now.dom, indexBefore, now.index, [], [], [], [], NonZero(parent),
            |index.elements|, true);
      }
      var p := payload.value;
      if p.backend == 0 && p.node == 0 {
        d := BuildFull(domBefore, indexBefore);
        return;
      }
      var removed := [];
      var existing := ByBackend(index.View(), p.backend);
      if existing.Some? {
        removed := [existing.value.id];
        var _ := index.RemoveById(existing.value.id);
      }
      assert index.View() == Displaced(old(index.View()), p.backend);
      var id := index.Insert(NewRef(now, p));
      incrementalCount := incrementalCount + 1;
      d := Diff(Incremental, domBefore, now.dom, indexBefore, now.index, [id], removed, [], removed, NonZero(parent),
                |index.elements|, p.hasChildren);
    }

    method Remove(parent: Option<int>, node: int, hint: Option<int>, domBefore: nat, indexBefore: nat)
        returns (d: Diff, ghost scanned: Option<string>)
      modifies this`incrementalCount, index
      ensures ScanAnswers(old(index.View()), ChildRemoved(parent, node, hint), scanned)
      ensures (index.View(), d) == HandleRemove(old(index.View()), index.Now(), parent.GetOr(0), hint, scanned,
          domBefore, indexBefore)
    {
      var now := index.Now();
      var found: Option<string> := None;
      if node != 0 { found := index.FindByNode(node); }
      scanned := found;
      if found == None && hint.Some? {
        var r := ByBackend(index.View(), hint.value);
        if r.Some? { found := Some(r.value.id); }
      }
      incrementalCount := incrementalCount + 1;
      if found.Some? {
        var _ := index.RemoveById(found.value);
        d := Diff(Incremental, domBefore, now.dom, indexBefore, now.index, [], [found.value], [], [found.value],
            NonZero(parent.GetOr(0)), |index.elements|, false);
      } else {
        d := Diff(Incremental, domBefore, now.dom, indexBefore, now.index, [], [], [], [], NonZero(parent.GetOr(0)),
            |index.elements|, true);
      }
    }

    method Attribute(node: int, name: string, value: string, domBefore: nat, indexBefore: nat)
        returns (d: Diff, ghost scanned: Option<string>)
      modifies this`incrementalCount, index
      ensures ScanFinds(old(index.View()), node, scanned)
      ensures (index.View(), d) == HandleAttribute(old(index.View()), index.Now(), node, name, value, scanned,
          domBefore, indexBefore)
    {
      var now := index.Now();
      var found := index.FindByNode(node);
      scanned := found;
      incrementalCount := incrementalCount + 1;
      if found.Some? {
        var r := WithAttribute(index.elements[found.value], name, value).(domVersion := now.dom);
        index.UpdateInPlace(r);
        d := Diff(Incremental, domBefore, now.dom, indexBefore, now.index, [], [], [r.id], [r.id], NonZero(node),
            |index.elements|, false);
      } else {
        d := Diff(Incremental, domBefore, now.dom, indexBefore, now.index, [], [], [], [], NonZero(node),
            |index.elements|, true);
      }
    }

    /** Applies one event to the index after the version owners have seen it, and publishes the diff. */
    method OnEvent(e: PageEvent, domBefore: nat, indexBefore: nat)
        returns (result: Option<Diff>, ghost scanned: Option<string>)
      modifies this, index
      ensures ScanAnswers(old(index.View()), e, scanned)
      ensures (index.View(), result)
          == OnEventWithPre(old(index.View()), index.Now(), e, scanned, domBefore, indexBefore)
      ensures lastDiff == if result.Some? then result else old(lastDiff)
    {
      result, scanned := None, None;
      var d: Diff;
      match e {
        case ChildInserted(parent, payload) =>
          d := Insert(parent.GetOr(0), payload, domBefore, indexBefore);
          result := Some(d);
        case ChildRemoved(parent, node, hint) =>
          d, scanned := Remove(parent, node, hint, domBefore, indexBefore);
          result := Some(d);
        case AttributeModified(node, name, value) =>
          d, scanned := Attribute(node.GetOr(0), name, value, domBefore, indexBefore);
          result := Some(d);
        case DocumentUpdated =>
          index.Clear();
          d := BuildFull(domBefore, indexBefore);
          result := Some(d);
        case FrameNavigated(_, isMain) =>
          if isMain {
            index.Clear();
            d := BuildFull(domBefore, indexBefore);
            result := Some(d);
          }
        case _ =>
      }
      if result.Some? { lastDiff := result; }
    }

    /** Recovery: whatever the index holds is dropped and the drop is published as a rebuild. */
    method OnRecoveryInvalidation() returns (d: Diff)
      modifies this, index
      ensures (index.View(), d) == OnRecovery(old(index.View()), index.Now()) && lastDiff == Some(d)
    {
      var now := index.Now();
      index.Clear();
      d := BuildFull(Minus1(now.dom), Minus1(now.index));
      lastDiff := Some(d);
    }

    /** One event in dispatch order: capture the versions, then DomState, frames, and the index last. */
    method DispatchEvent(e: PageEvent) returns (result: Option<Diff>, ghost scanned: Option<string>)
      requires |index.frameManager.domState.affectedParents| <= 512
      modifies this, index, index.frameManager, index.frameManager.domState
      ensures Allowed(World(old(index.Now()), old(index.View())), Seen(e, scanned))
      ensures (World(index.Now(), index.View()), result)
          == Report(World(old(index.Now()), old(index.View())), Seen(e, scanned))
      ensures |index.frameManager.domState.affectedParents| <= 512
    {
      var frames := index.frameManager;
      var domBefore, indexBefore := frames.domState.domVersion, frames.domState.elementIndexVersion;
      frames.domState.OnEvent(e);
      assert index.Now() == DomOnEvent(old(index.Now()), e);
      frames.OnEvent(e);
      result, scanned := OnEvent(e, domBefore, indexBefore);
    }

    /** The disconnect of a crash: the bumps, the index dropped and the drop published, the frame reset last. */
    method HandleDisconnect() returns (d: Diff)
      modifies this, index, index.frameManager, index.frameManager.domState
      ensures (World(index.Now(), index.View()), Some(d))
          == Report(World(old(index.Now()), old(index.View())), Reconnect(true))
      ensures lastDiff == Some(d)
    {
      var frames := index.frameManager;
      var newTarget, newConnection := frames.domState.OnReconnected();
      assert index.Now() == Reconnected(old(index.Now()));
      frames.domState.frameTreeVersion := frames.domState.frameTreeVersion + 1;
      var newFrameTree := frames.domState.frameTreeVersion;
      index.Clear();
      d := OnRecoveryInvalidation();
      frames.HandleReconnect(newFrameTree);
    }

    /** The simulated reconnect: the frames are reset before the index is dropped, and their version is not bumped. */
    method SimulateReconnect() returns (d: Diff)
      modifies this, index, index.frameManager, index.frameManager.domState
      ensures (World(index.Now(), index.View()), Some(d))
          == Report(World(old(index.Now()), old(index.View())), Reconnect(false))
      ensures lastDiff == Some(d)
    {
      var frames := index.frameManager;
      var newTarget, newConnection := frames.domState.OnReconnected();
      assert index.Now() == Reconnected(old(index.Now()));
      frames.HandleReconnect(frames.domState.frameTreeVersion);
      index.Clear();
      d := OnRecoveryInvalidation();
    }

    /** Receives until the channel closes: the runtime goes through exactly the events heard, in order. */
    method DispatchLoop(inbox: Inbox) returns (ghost hs: seq<Happening>)
      requires |index.frameManager.domState.affectedParents| <= 512
      modifies this, index, index.frameManager, index.frameManager.domState
      ensures AreSeen(hs, Heard(inbox))
      ensures Run(World(old(index.Now()), old(index.View())), hs) == Some(World(index.Now(), index.View()))
    {
      hs := [];
      for i := 0 to |inbox|
        invariant |index.frameManager.domState.affectedParents| <= 512
        invariant AreSeen(hs, Heard(inbox[..i]))
        invariant Run(World(old(index.Now()), old(index.View())), hs) == Some(World(index.Now(), index.View()))
      {
        assert inbox[..i + 1][..i] == inbox[..i];
        if inbox[i].Some? {
          ghost var scanned;
          var result;
          result, scanned := DispatchEvent(inbox[i].value);
          OneMoreHappening(World(old(index.Now()), old(index.View())), hs, Seen(inbox[i].value, scanned));
          hs := hs + [Seen(inbox[i].value, scanned)];
        }
      }
      assert inbox[..|inbox|] == inbox;
    }
  }
}
