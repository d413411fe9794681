/** The element store: elements by id, ids by backend node and by selector, and the rule that keeps
    the two lookup maps in agreement with the store. */
module ElementIndex {
  import opened Wrappers
  import opened Text
  import opened PageVersions

  datatype ElementRef = ElementRef(
    id: string, backend: int, node: int, targetGeneration: nat, frame: string, frameVersion: nat,
    role: string, name: string, tag: string, domId: string, classes: seq<string>, selector: string,
    text: string, visible: bool, enabled: bool, domVersion: nat)

  function StampOf(r: ElementRef): Stamp { Stamp(r.targetGeneration, r.domVersion, r.frame, r.frameVersion) }

  predicate Interactable(r: ElementRef) { r.visible && r.enabled }

  datatype Store = Store(
    elements: map<string, ElementRef>, byBackend: map<int, string>, bySelector: map<string, string>, nextId: nat)

  function EmptyStore(): Store { Store(map[], map[], map[], 1) }

  // -- selectors ------------------------------------------------------------

  predicate NeedsEscape(c: char) {
    c in {'#', '.', ':', '[', ']', '\"', '\'', '\\', ' ', '>', '+', '~', ','}
  }

  function Escape(s: string): string {
    if s == "" then "" else (if NeedsEscape(s[0]) then ['\\', s[0]] else [s[0]]) + Escape(s[1..])
  }

  function ClassSelector(classes: seq<string>): string {
    if classes == [] then "" else "." + Escape(classes[0]) + ClassSelector(classes[1..])
  }

  /** Prefers the id, then tag with classes, then the tag, then everything. */
  function BuildSelector(tag: string, domId: string, classes: seq<string>): string {
    if domId != "" then "#" + Escape(domId)
    else if classes == [] || tag == "" then (if tag == "" then "*" else Lower(tag))
    else Lower(tag) + ClassSelector(classes)
  }

  /** A derived selector is never empty, so every stored element can be looked up by one. */
  lemma DerivedSelectorsAreNotEmpty(tag: string, domId: string, classes: seq<string>)
    ensures BuildSelector(tag, domId, classes) != ""
  {
    if domId == "" && tag != "" { assert |Lower(tag)| == |tag|; }
  }

  // -- operations on the store ------------------------------------------------

  /** The element as it is stored: id, versions and selector filled in where the caller left them open. */
  function Completed(s: Store, v: Versions, r: ElementRef): ElementRef {
    r.(id := if r.id == "" then IdOf(s.nextId) else r.id,
       domVersion := if r.domVersion == 0 then v.dom else r.domVersion,
       frameVersion :=
         if r.frameVersion != 0 || r.frame == "" then r.frameVersion
         else if FrameVersion(v, r.frame) != 0 then FrameVersion(v, r.frame) else v.frameTree,
       targetGeneration := if r.targetGeneration == 0 then v.target else r.targetGeneration,
       selector := if r.selector == "" then BuildSelector(r.tag, r.domId, r.classes) else r.selector)
  }

  function Put(s: Store, r: ElementRef): Store {
    Store(s.elements[r.id := r],
          if r.backend != 0 then s.byBackend[r.backend := r.id] else s.byBackend,
          if r.selector != "" then s.bySelector[r.selector := r.id] else s.bySelector,
          s.nextId)
  }

  function Inserted(s: Store, v: Versions, r: ElementRef): Store {
    Put(s, Completed(s, v, r)).(nextId := if r.id == "" then s.nextId + 1 else s.nextId)
  }

  function Removed(s: Store, id: string): Store {
    if id !in s.elements then s
    else
      var r := s.elements[id];
      Store(s.elements - {id},
            if r.backend != 0 then s.byBackend - {r.backend} else s.byBackend,
            if r.selector != "" && r.selector in s.bySelector && s.bySelector[r.selector] == id
            then s.bySelector - {r.selector} else s.bySelector,
            s.nextId)
  }

  function Reselected(bySelector: map<string, string>, id: string, before: string, after: string): map<string, string> {
    if before == after then bySelector
    else
      var m := if before in bySelector && bySelector[before] == id then bySelector - {before} else bySelector;
      if after != "" then m[after := id] else m
  }

  function Updated(s: Store, r: ElementRef): Store {
    Store(s.elements[r.id := r],
          if r.backend != 0 then s.byBackend[r.backend := r.id] else s.byBackend,
          if r.id !in s.elements then s.bySelector
          else Reselected(s.bySelector, r.id, s.elements[r.id].selector, r.selector),
          s.nextId)
  }

  function Cleared(s: Store): Store { Store(map[], map[], map[], s.nextId) }

  function ByBackend(s: Store, backend: int): Option<ElementRef> {
    if backend in s.byBackend && s.byBackend[backend] in s.elements then Some(s.elements[s.byBackend[backend]])
    else None
  }

  // -- agreement ------------------------------------------------------------

  ghost predicate KeysAreIds(s: Store) {
    forall id | id in s.elements :: s.elements[id].id == id
  }

  /** `byBackend` is exactly the inverse of the non-zero backend ids in the store. */
  ghost predicate BackendsInverse(s: Store) {
    && (forall b | b in s.byBackend ::
        && b != 0
        && s.byBackend[b] in s.elements
        && s.elements[s.byBackend[b]].backend == b)
    && (forall id | id in s.elements && s.elements[id].backend != 0 ::
          s.elements[id].backend in s.byBackend && s.byBackend[s.elements[id].backend] == id)
  }

  /** Every selector entry points at a stored element with that selector. */
  ghost predicate SelectorsPoint(s: Store) {
    forall sel | sel in s.bySelector ::
      sel != "" && s.bySelector[sel] in s.elements && s.elements[s.bySelector[sel]].selector == sel
  }

  ghost predicate Consistent(s: Store) {
    KeysAreIds(s) && BackendsInverse(s) && SelectorsPoint(s)
  }

  /** Every id in the store was assigned by the store itself, from a number below the next one. */
  ghost predicate AutoNumbered(s: Store) {
    forall id | id in s.elements :: exists n: nat :: n < s.nextId && id == IdOf(n)
  }

  /** No other stored element carries this element's backend node. */
  ghost predicate BackendIsFree(s: Store, r: ElementRef) {
    r.backend != 0 ==> forall id | id in s.elements && id != r.id :: s.elements[id].backend != r.backend
  }

  /** Storing under an id already in use keeps the backend that id had, if it had one. */
  ghost predicate KeepsBackend(s: Store, r: ElementRef) {
    r.id in s.elements ==> s.elements[r.id].backend in {0, r.backend}
  }

  ghost predicate KeepsSelector(s: Store, r: ElementRef) {
    r.id in s.elements ==>
      var before := s.elements[r.id].selector;
      before == r.selector || before !in s.bySelector || s.bySelector[before] != r.id
  }

  lemma PutAgreesExactlyWhen(s: Store, r: ElementRef)
    requires Consistent(s) && r.selector != ""
    ensures Consistent(Put(s, r)) <==> BackendIsFree(s, r) && KeepsBackend(s, r) && KeepsSelector(s, r)
  {
    var t := Put(s, r);
    if BackendIsFree(s, r) && KeepsBackend(s, r) && KeepsSelector(s, r) {
      assert BackendsInverse(t);
      assert SelectorsPoint(t);
    } else if !BackendIsFree(s, r) {
      var id :| id in s.elements && id != r.id && s.elements[id].backend == r.backend;
      assert t.elements[id].backend == r.backend && t.byBackend[r.backend] == r.id;
    } else if !KeepsBackend(s, r) {
      var b := s.elements[r.id].backend;
      assert b in s.byBackend && t.byBackend[b] == r.id && t.elements[r.id].backend != b;
    } else {
      var before := s.elements[r.id].selector;
      assert t.bySelector[before] == r.id && t.elements[r.id].selector != before;
    }
  }

  /** Inserting, with a caller-chosen or an assigned id, keeps the maps in agreement exactly when the
      backend node is free and an id already in use keeps its backend and its selector entry. */
  lemma InsertAgreesExactlyWhen(s: Store, v: Versions, r: ElementRef)
    requires Consistent(s)
    ensures var c := Completed(s, v, r);
      Consistent(Inserted(s, v, r)) <==> BackendIsFree(s, c) && KeepsBackend(s, c) && KeepsSelector(s, c)
  {
    DerivedSelectorsAreNotEmpty(r.tag, r.domId, r.classes);
    var c := Completed(s, v, r);
    PutAgreesExactlyWhen(s, c);
    var t := Inserted(s, v, r);
    assert Consistent(t) <==> Consistent(Put(s, c));
  }

  /** Two insertions under one chosen id with different backends already break the agreement. */
  lemma ReusedIdCanBreakAgreement()
    ensures exists s: Store, r: ElementRef ::
        && Consistent(s) && r.id != ""
        && !Consistent(Inserted(s, InitialVersions(), r))
  {
    var a := ElementRef("e_001", 7, 0, 0, "", 0, "", "", "a", "", [], "a", "", true, true, 0);
    var s := Inserted(EmptyStore(), InitialVersions(), a);
    InsertAgreesExactlyWhen(EmptyStore(), InitialVersions(), a);
    var b := a.(backend := 8);
    InsertAgreesExactlyWhen(s, InitialVersions(), b);
    assert !KeepsBackend(s, Completed(s, InitialVersions(), b));
  }

  lemma RemoveKeepsAgreement(s: Store, id: string)
    requires Consistent(s)
    ensures Consistent(Removed(s, id))
  {
  }

  /** Updating in place keeps the agreement exactly under the backend conditions: unlike insertion it
      moves the selector entry itself. */
  lemma UpdateAgreesExactlyWhen(s: Store, r: ElementRef)
    requires Consistent(s)
    ensures Consistent(Updated(s, r)) <==> BackendIsFree(s, r) && KeepsBackend(s, r)
  {
    var t := Updated(s, r);
    if !BackendIsFree(s, r) {
      var id :| id in s.elements && id != r.id && s.elements[id].backend == r.backend;
      assert t.elements[id].backend == r.backend && t.byBackend[r.backend] == r.id;
    } else if !KeepsBackend(s, r) {
      var b := s.elements[r.id].backend;
      assert b in s.byBackend && t.byBackend[b] == r.id && t.elements[r.id].backend != b;
    } else {
      assert BackendsInverse(t);
      assert SelectorsPoint(t);
    }
  }

  lemma NextIdIsFresh(s: Store)
    requires AutoNumbered(s)
    ensures IdOf(s.nextId) !in s.elements
  {
    if IdOf(s.nextId) in s.elements {
      var n: nat :| n < s.nextId && IdOf(s.nextId) == IdOf(n);
      IdsAreDistinct(s.nextId, n);
    }
  }

  /** An insertion with an assigned id takes a new slot; it keeps the agreement when the backend is free. */
  lemma AutoInsertKeeps(s: Store, v: Versions, r: ElementRef)
    requires Consistent(s) && AutoNumbered(s) && r.id == ""
    requires r.backend == 0 || r.backend !in s.byBackend
    ensures var t := Inserted(s, v, r);
      Consistent(t) && AutoNumbered(t) && |t.elements| == |s.elements| + 1 && IdOf(s.nextId) in t.elements
  {
    NextIdIsFresh(s);
    var c := Completed(s, v, r);
    InsertAgreesExactlyWhen(s, v, r);
    assert BackendIsFree(s, c);
    var t := Inserted(s, v, r);
    forall id | id in t.elements
      ensures exists n: nat :: n < t.nextId && id == IdOf(n)
    {
      if id != c.id {
        var n: nat :| n < s.nextId && id == IdOf(n);
        assert n < t.nextId;
      } else {
        assert s.nextId < t.nextId;
      }
    }
  }

  lemma RemoveKeepsNumbering(s: Store, id: string)
    requires AutoNumbered(s) && id in s.elements
    ensures AutoNumbered(Removed(s, id)) && |Removed(s, id).elements| == |s.elements| - 1
  {
    var t := Removed(s, id);
    assert t.elements.Keys == s.elements.Keys - {id};
    assert |t.elements| == |t.elements.Keys| && |s.elements| == |s.elements.Keys|;
  }

  // -- what is stored, in the element's own terms -------------------------------------

  /** Storing adds the element as it was given, under its own id or the next one, where both lookups find it; a selector
      is derived for it if it has none; nothing else changes. */
  lemma StoredAsGiven(s: Store, v: Versions, r: ElementRef)
    ensures var t := Inserted(s, v, r);
      var id := if r.id != "" then r.id else IdOf(s.nextId);
      && t.elements.Keys == s.elements.Keys + {id} && (forall other | other in s.elements && other != id ::
          t.elements[other] == s.elements[other])
      && t.nextId == s.nextId + (if r.id == "" then 1 else 0)
      && var e := t.elements[id];
        && e.id == id && e.backend == r.backend && e.node == r.node && e.frame == r.frame && e.role == r.role
        && e.name == r.name && e.tag == r.tag && e.domId == r.domId && e.classes == r.classes && e.text == r.text
        && e.visible == r.visible && e.enabled == r.enabled
        && e.selector == (if r.selector != "" then r.selector else BuildSelector(r.tag, r.domId, r.classes))
        && (e.backend != 0 ==> ByBackend(t, e.backend) == Some(e))
        && (e.selector in t.bySelector && t.bySelector[e.selector] == id)
  {
    DerivedSelectorsAreNotEmpty(r.tag, r.domId, r.classes);
  }

  /** A stored element is fresh exactly when the versions it came with are the current ones, or it came with none; in
      the latter case its frame must have a version of its own, or no frame any. */
  lemma FreshWhenStoredExactlyWhen(s: Store, v: Versions, r: ElementRef)
    ensures var own := if r.frame in v.frames then v.frames[r.frame] else 0;
      !IsStale(v, StampOf(Completed(s, v, r))) <==>
        && (r.targetGeneration == 0 || r.targetGeneration == v.target)
        && (r.domVersion == 0 || r.domVersion == v.dom)
        && (if r.frameVersion != 0 || r.frame == "" then r.frameVersion == own else own != 0 || v.frameTree == 0)
  {
  }

  // -- the index itself -------------------------------------------------------

  class Index {
    var elements: map<string, ElementRef>
    var backendMap: map<int, string>
    var selectorMap: map<string, string>
    var nextId: nat
    const frameManager: FrameManager

    constructor (frameManager: FrameManager)
      ensures this.frameManager == frameManager && View() == EmptyStore()
    {
      this.frameManager := frameManager;
      elements, backendMap, selectorMap, nextId := map[], map[], map[], 1;
    }

    function View(): Store
      reads this
    {
      Store(elements, backendMap, selectorMap, nextId)
    }

    function Now(): Versions
      reads frameManager, frameManager.domState
    {
      frameManager.View()
    }

    /** Fills in what the caller left open: id, versions, selector. */
    method PinToNow(given: ElementRef) returns (r: ElementRef)
      modifies this`nextId
      ensures r == Completed(old(View()), Now(), given)
      ensures nextId == if given.id == "" then old(nextId) + 1 else old(nextId)
    {
      var now := Now();
      var id := given.id;
      if id == "" {
        id := IdOf(nextId);
        nextId := nextId + 1;
      }
      var dom := if given.domVersion == 0 then now.dom else given.domVersion;
      var frameVersion := given.frameVersion;
      if frameVersion == 0 && given.frame != "" {
        frameVersion := FrameVersion(now, given.frame);
        if frameVersion == 0 { frameVersion := now.frameTree; }
      }
      var target := if given.targetGeneration == 0 then now.target else given.targetGeneration;
      var selector :=
        if given.selector == "" then BuildSelector(given.tag, given.domId, given.classes) else given.selector;
      r := given.(id := id, domVersion := dom, frameVersion := frameVersion, targetGeneration := target,
          selector := selector);
    }

    method Insert(given: ElementRef) returns (id: string)
      modifies this
      ensures View() == Inserted(old(View()), Now(), given)
      ensures id == Completed(old(View()), Now(), given).id
    {
      var r := PinToNow(given);
      id := r.id;
      if r.backend != 0 { backendMap := backendMap[r.backend := id]; }
      if r.selector != "" { selectorMap := selectorMap[r.selector := id]; }
      elements := elements[id := r];
    }

    method RemoveById(id: string) returns (removed: Option<ElementRef>)
      modifies this
      ensures View() == Removed(old(View()), id)
      ensures removed == if id in old(elements) then Some(old(elements)[id]) else None
    {
      if id !in elements { return None; }
      var r := elements[id];
      elements := elements - {id};
      if r.backend != 0 { backendMap := backendMap - {r.backend}; }
      if r.selector != "" && r.selector in selectorMap && selectorMap[r.selector] == id {
        selectorMap := selectorMap - {r.selector};
      }
      removed := Some(r);
    }

    method UpdateInPlace(r: ElementRef)
      modifies this
      ensures View() == Updated(old(View()), r)
    {
      if r.id in elements {
        var before := elements[r.id].selector;
        if before != r.selector {
          if before in selectorMap && selectorMap[before] == r.id { selectorMap := selectorMap - {before}; }
          if r.selector != "" { selectorMap := selectorMap[r.selector := r.id]; }
        }
      }
      if r.backend != 0 { backendMap := backendMap[r.backend := r.id]; }
      elements := elements[r.id := r];
    }

    method Clear()
      modifies this
      ensures View() == Cleared(old(View()))
    {
      elements, backendMap, selectorMap := map[], map[], map[];
    }

    /** A scan in an arbitrary iteration order for an element with this node id. */
    method FindByNode(node: int) returns (found: Option<string>)
      ensures ScanFinds(View(), node, found)
    {
      if id :| id in elements && elements[id].node == node {
        found := Some(id);
      } else {
        found := None;
      }
    }
  }

  /** `found` is an element with this node id, and None only if there is none. */
  predicate ScanFinds(s: Store, node: int, found: Option<string>) {
    match found
    case Some(id) => id in s.elements && s.elements[id].node == node
    case None => forall id | id in s.elements :: s.elements[id].node != node
  }
}
