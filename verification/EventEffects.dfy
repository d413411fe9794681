/** What each page event does to the store and what it reports, in the event's own terms. */
module EventEffects {
  import opened Wrappers
  import opened Text
  import opened Events
  import opened PageVersions
  import opened ElementIndex
  import opened DomDiff

  /** Exactly this element has gone, from the store and from both lookup maps. */
  ghost predicate Gone(s: Store, id: string, t: Store) {
    && id in s.elements
    && t.elements == s.elements - {id}
    && (forall b :: b in t.byBackend <==> b in s.byBackend && s.byBackend[b] != id)
    && (forall b | b in t.byBackend :: t.byBackend[b] == s.byBackend[b])
    && (forall sel :: sel in t.bySelector <==> sel in s.bySelector && s.bySelector[sel] != id)
    && (forall sel | sel in t.bySelector :: t.bySelector[sel] == s.bySelector[sel])
  }

  lemma RemovedIsGone(s: Store, id: string)
    requires Consistent(s) && id in s.elements
    ensures Gone(s, id, Removed(s, id))
  {
  }

  predicate Named(parents: seq<int>, node: Option<int>) {
    parents == if node.Some? && node.value != 0 then [node.value] else []
  }

  ghost predicate Carried(s: Store, node: int) { exists id :: id in s.elements && s.elements[id].node == node }

  ghost predicate BackendCarried(s: Store, backend: int) {
    backend != 0 && exists id :: id in s.elements && s.elements[id].backend == backend
  }

  // -- removals -------------------------------------------------------------------

  /** What the diff reports of a removal besides the element removed. */
  predicate ReportsRemoval(d: Diff, parent: Option<int>) {
    && d.kind == Incremental && d.added == [] && d.changed == []
    && d.invalidated == d.removed && Named(d.parents, parent) && (d.explained <==> d.removed == [])
  }

  /** The element that carries the node has gone; failing that, the one that carries the backend node hinted at;
      failing that, nothing has changed. */
  ghost predicate RemovesCarrier(s: Store, node: int, hint: Option<int>, t: Store, removed: seq<string>) {
    if node != 0 && Carried(s, node) then
      |removed| == 1 && Gone(s, removed[0], t) && s.elements[removed[0]].node == node
    else if hint.Some? && BackendCarried(s, hint.value) then
      |removed| == 1 && Gone(s, removed[0], t) && s.elements[removed[0]].backend == hint.value
    else
      removed == [] && t == s
  }

  lemma HintIsCarriedExactlyWhen(s: Store, backend: int)
    requires Consistent(s)
    ensures ByBackend(s, backend).Some? <==> BackendCarried(s, backend)
    ensures ByBackend(s, backend).Some? ==>
      var r := ByBackend(s, backend).value; r.id in s.elements && s.elements[r.id] == r && r.backend == backend
  {
  }

  lemma HandlesRemoval(s: Store, v: Versions, parent: Option<int>, node: int, hint: Option<int>,
      scanned: Option<string>, dom: nat, index: nat)
    requires Consistent(s) && ScanAnswers(s, ChildRemoved(parent, node, hint), scanned)
    ensures var (t, d) := HandleRemove(s, v, parent.GetOr(0), hint, scanned, dom, index);
      ReportsRemoval(d, parent) && RemovesCarrier(s, node, hint, t, d.removed)
  {
    if scanned.Some? {
      RemovedIsGone(s, scanned.value);
    } else if hint.Some? {
      HintIsCarriedExactlyWhen(s, hint.value);
      var r := ByBackend(s, hint.value);
      if r.Some? { RemovedIsGone(s, r.value.id); }
    }
  }

  /** After any run, a removed node takes the element that carries it out of the index; failing that, the element
      that carries the backend node hinted at; failing that, nothing changes, and the diff says why. */
  lemma RemovalsRemove(hs: seq<Happening>, w: World, parent: Option<int>, node: int, hint: Option<int>,
      scanned: Option<string>)
    requires Run(InitialWorld(), hs) == Some(w) && Allowed(w, Seen(ChildRemoved(parent, node, hint), scanned))
    ensures var (after, d) := Report(w, Seen(ChildRemoved(parent, node, hint), scanned));
      && d.Some? && ReportsRemoval(d.value, parent)
      && RemovesCarrier(w.store, node, hint, after.store, d.value.removed)
  {
    MapsAgreeAfterAnyRun(hs, w);
    var v := OnEvent(w.versions, ChildRemoved(parent, node, hint));
    HandlesRemoval(w.store, v, parent, node, hint, scanned, w.versions.dom, w.versions.index);
  }

  // -- attributes -----------------------------------------------------------------

  /** The element after its attribute took this value, seen at version `dom`. */
  predicate AttributeTaken(r: ElementRef, name: string, value: string, dom: nat, t: ElementRef) {
    var off := value == "" || value == "false";
    && t.id == r.id && t.backend == r.backend && t.node == r.node && t.tag == r.tag && t.role == r.role
    && t.name == r.name && t.frame == r.frame && t.frameVersion == r.frameVersion
    && t.targetGeneration == r.targetGeneration && t.domVersion == dom
    && t.domId == (if name == "id" then value else r.domId)
    && t.classes == (if name == "class" then Words(value) else r.classes)
    && t.selector == (if name == "id" || name == "class" then BuildSelector(t.tag, t.domId, t.classes) else r.selector)
    && t.text == (if name in {"data-version", "data-state", "data-*"} then name + ":" + value else r.text)
    && t.enabled == (if name == "disabled" then off else r.enabled)
    && t.visible == (if name == "hidden" || name == "aria-hidden" then off else r.visible)
  }

  lemma AttributesAreTaken(r: ElementRef, name: string, value: string, dom: nat)
    ensures AttributeTaken(r, name, value, dom, WithAttribute(r, name, value).(domVersion := dom))
  {
    if name == "id" || name == "class" {
      SelectorFollows(r, name, value);
    } else {
      OtherAttributes(r, name, value);
    }
  }

  lemma SelectorFollows(r: ElementRef, name: string, value: string)
    requires name == "id" || name == "class"
    ensures var domId := if name == "id" then value else r.domId;
      var classes := if name == "class" then Words(value) else r.classes;
      WithAttribute(r, name, value)
        == r.(domId := domId, classes := classes, selector := BuildSelector(r.tag, domId, classes))
  {
  }

  lemma OtherAttributes(r: ElementRef, name: string, value: string)
    requires name != "id" && name != "class"
    ensures var off := value == "" || value == "false";
      WithAttribute(r, name, value) == r.(
        text := if name in {"data-version", "data-state", "data-*"} then name + ":" + value else r.text,
        enabled := if name == "disabled" then off else r.enabled,
        visible := if name == "hidden" || name == "aria-hidden" then off else r.visible)
  {
  }

  /** The selector entry of this element has moved with its selector; no other entry has changed. */
  ghost predicate SelectorMoves(s: map<string, string>, id: string, before: string, after: string,
      t: map<string, string>) {
    if before == after then t == s
    else
      && after in t && t[after] == id
      && (before in t <==> before in s && s[before] != id) && (before in t ==> t[before] == s[before])
      && (forall sel | sel != before && sel != after :: sel in t <==> sel in s)
      && (forall sel | sel in t && sel != before && sel != after :: t[sel] == s[sel])
  }

  lemma UpdatedMoves(s: Store, r: ElementRef)
    requires r.id in s.elements && (r.selector != "" || r.selector == s.elements[r.id].selector)
    ensures SelectorMoves(s.bySelector, r.id, s.elements[r.id].selector, r.selector, Updated(s, r).bySelector)
  {
  }

  /** An attribute change alters the element that carries the node, in the field the attribute stands for, and keeps it
      fresh; when none carries it, nothing changes, and the diff says why. */
  lemma AttributesChange(hs: seq<Happening>, w: World, node: Option<int>, name: string, value: string,
      scanned: Option<string>)
    requires Run(InitialWorld(), hs) == Some(w) && Allowed(w, Seen(AttributeModified(node, name, value), scanned))
    ensures var (after, d) := Report(w, Seen(AttributeModified(node, name, value), scanned));
      && d.Some? && d.value.kind == Incremental && d.value.added == [] && d.value.removed == []
      && d.value.invalidated == d.value.changed && Named(d.value.parents, node)
      && (d.value.explained <==> d.value.changed == [])
      && (if Carried(w.store, node.GetOr(0)) then
            && |d.value.changed| == 1
            && var id := d.value.changed[0];
              && id in w.store.elements && w.store.elements[id].node == node.GetOr(0) && id in after.store.elements
              && after.store.elements == w.store.elements[id := after.store.elements[id]]
              && AttributeTaken(w.store.elements[id], name, value, w.versions.dom + 1, after.store.elements[id])
              && SelectorMoves(w.store.bySelector, id, w.store.elements[id].selector, after.store.elements[id].selector,
                  after.store.bySelector)
          else d.value.changed == [] && after.store == w.store)
  {
    MapsAgreeAfterAnyRun(hs, w);
    if scanned.Some? {
      var r := w.store.elements[scanned.value];
      AttributesAreTaken(r, name, value, w.versions.dom + 1);
      var t := WithAttribute(r, name, value).(domVersion := w.versions.dom + 1);
      DerivedSelectorsAreNotEmpty(t.tag, t.domId, t.classes);
      UpdatedMoves(w.store, t);
    }
  }

  // -- inserts --------------------------------------------------------------------

  /** The element made for a node, under this id, in these versions. */
  function Made(id: string, p: NodePayload, v: Versions): ElementRef {
    ElementRef(id, p.backend, p.node, v.target, "", v.frameTree, "", p.text, p.tag, p.domId, p.classes,
               BuildSelector(p.tag, p.domId, p.classes), p.text, true, true, v.dom + 1)
  }

  /** What the diff reports of an insert besides the elements. */
  predicate ReportsInsert(d: Diff, parent: Option<int>, hasChildren: bool) {
    && d.kind == Incremental && d.changed == [] && d.invalidated == d.removed
    && Named(d.parents, parent) && (d.explained <==> hasChildren)
  }

  /** Removed is whatever carried the backend node before. */
  ghost predicate Displaces(s: Store, backend: int, removed: seq<string>) {
    && |removed| <= 1
    && forall id :: id in removed <==> backend != 0 && id in s.elements && s.elements[id].backend == backend
  }

  /** `made` is stored beside all that was not removed, and both lookups find it. */
  ghost predicate StoresBeside(s: Store, removed: seq<string>, made: ElementRef, t: Store) {
    && made.id !in s.elements
    && (forall id :: id in t.elements <==> id == made.id || (id in s.elements && id !in removed))
    && (forall id | id in t.elements && id != made.id :: t.elements[id] == s.elements[id])
    && t.elements[made.id] == made
    && (made.backend != 0 ==> ByBackend(t, made.backend) == Some(made))
    && made.selector in t.bySelector && t.bySelector[made.selector] == made.id
  }

  /** An identified node was inserted: one new element, under the next id. */
  ghost predicate InsertEffect(s: Store, was: Versions, parent: Option<int>, p: NodePayload, t: Store, d: Diff) {
    && ReportsInsert(d, parent, p.hasChildren)
    && d.added == [IdOf(s.nextId)] && t.nextId == s.nextId + 1
    && Displaces(s, p.backend, d.removed)
    && StoresBeside(s, d.removed, Made(IdOf(s.nextId), p, was), t)
  }

  /** After any run, an inserted node that can be identified gets a new element, visible and enabled, that both
      lookups find; whatever carried its backend node before goes; all else stays. */
  lemma InsertsStore(hs: seq<Happening>, w: World, parent: Option<int>, p: NodePayload)
    requires Run(InitialWorld(), hs) == Some(w) && (p.backend != 0 || p.node != 0)
    ensures var (after, d) := Report(w, Seen(ChildInserted(parent, Some(p)), None));
      d.Some? && InsertEffect(w.store, w.versions, parent, p, after.store, d.value)
  {
    MapsAgreeAfterAnyRun(hs, w);
    HandlesInsert(w.store, w.versions, parent, p);
    InsertIsReported(w, parent, p);
  }

  lemma InsertIsReported(w: World, parent: Option<int>, p: NodePayload)
    ensures var (after, d) := Report(w, Seen(ChildInserted(parent, Some(p)), None));
      var v := w.versions.(dom := w.versions.dom + 1);
      d.Some?
      && (after.store, d.value)
          == HandleInsert(w.store, v, parent.GetOr(0), Some(p), w.versions.dom, w.versions.index)
  {
  }

  lemma HandlesInsert(s: Store, was: Versions, parent: Option<int>, p: NodePayload)
    requires Consistent(s) && AutoNumbered(s) && Identified(p)
    ensures var (t, d) := HandleInsert(s, was.(dom := was.dom + 1), parent.GetOr(0), Some(p), was.dom, was.index);
      InsertEffect(s, was, parent, p, t, d)
  {
    NextIdIsFresh(s);
    DerivedSelectorsAreNotEmpty(p.tag, p.domId, p.classes);
    var made := Made(IdOf(s.nextId), p, was);
    DisplacedKeepsNumber(s, p.backend);
    MadeIsCompleted(Displaced(s, p.backend), was.(dom := was.dom + 1), p, was);
    Beside(s, p.backend, Displaced(s, p.backend), made, s.nextId + 1);
    InsertedIs(s, was, parent, p);
  }

  lemma DisplacedKeepsNumber(s: Store, backend: int)
    ensures Displaced(s, backend).nextId == s.nextId
  {
  }

  lemma InsertedIs(s: Store, was: Versions, parent: Option<int>, p: NodePayload)
    requires Identified(p) && Displaced(s, p.backend).nextId == s.nextId
    requires Completed(Displaced(s, p.backend), was.(dom := was.dom + 1), NewRef(was.(dom := was.dom + 1), p))
          == Made(IdOf(s.nextId), p, was)
    ensures var (t, d) := HandleInsert(s, was.(dom := was.dom + 1), parent.GetOr(0), Some(p), was.dom, was.index);
      && t == Put(Displaced(s, p.backend), Made(IdOf(s.nextId), p, was)).(nextId := s.nextId + 1)
      && ReportsInsert(d, parent, p.hasChildren) && d.added == [IdOf(s.nextId)]
      && d.removed == match ByBackend(s, p.backend) case Some(prior) => [prior.id] case None => []
  {
  }

  lemma Beside(s: Store, backend: int, kept: Store, made: ElementRef, n: nat)
    requires Consistent(s) && made.id !in s.elements && made.backend == backend && made.selector != ""
    requires kept == Displaced(s, backend)
    ensures var removed := match ByBackend(s, backend) case Some(prior) => [prior.id] case None => [];
      Displaces(s, backend, removed) && StoresBeside(s, removed, made, Put(kept, made).(nextId := n))
  {
    HintIsCarriedExactlyWhen(s, backend);
  }

  lemma MadeIsCompleted(s: Store, v: Versions, p: NodePayload, was: Versions)
    requires v == was.(dom := was.dom + 1)
    ensures Completed(s, v, NewRef(v, p)) == Made(IdOf(s.nextId), p, was)
  {
    DerivedSelectorsAreNotEmpty(p.tag, p.domId, p.classes);
  }

  /** An inserted node without data changes nothing and is explained. */
  lemma EmptyInsertsChangeNothing(w: World, parent: Option<int>)
    ensures var (after, d) := Report(w, Seen(ChildInserted(parent, None), None));
      && after.store == w.store && d.Some? && d.value.kind == Incremental && d.value.explained
      && d.value.added == d.value.removed == d.value.changed == d.value.invalidated == []
      && Named(d.value.parents, parent)
  {
  }

  /** A rebuild lists no element and no parent, and always says why: that of a page event, and that of a reconnect. */
  lemma RebuildsListNothing(w: World, h: Happening)
    requires Allowed(w, h)
    ensures var d := Report(w, h).1;
      d.Some? && d.value.kind == FullRebuild ==>
        && d.value.added == d.value.removed == d.value.changed == d.value.invalidated == []
        && d.value.parents == [] && d.value.explained
    ensures h.Reconnect? ==> Report(w, h).1.Some? && Report(w, h).1.value.kind == FullRebuild
  {
  }
}
