/** The element store under two tasks. Each operation takes the locks of its three maps one after the other, so storing
    an element and clearing the store interleave write by write. */
module IndexRaces {
  import opened Wrappers
  import opened PageVersions
  import opened ElementIndex

  datatype Write =
    | SetBackend | SetSelector | SetElement          // storing an element
    | WipeElements | WipeBackends | WipeSelectors    // clearing the store

  function Written(s: Store, c: ElementRef, w: Write): Store {
    match w
    case SetBackend => if c.backend != 0 then s.(byBackend := s.byBackend[c.backend := c.id]) else s
    case SetSelector => if c.selector != "" then s.(bySelector := s.bySelector[c.selector := c.id]) else s
    case SetElement => s.(elements := s.elements[c.id := c])
    case WipeElements => s.(elements := map[])
    case WipeBackends => s.(byBackend := map[])
    case WipeSelectors => s.(bySelector := map[])
  }

  function AllWritten(s: Store, c: ElementRef, writes: seq<Write>): Store {
    if writes == [] then s else Written(AllWritten(s, c, writes[..|writes| - 1]), c, writes[|writes| - 1])
  }

  const INSERT: seq<Write> := [SetBackend, SetSelector, SetElement]
  const CLEAR: seq<Write> := [WipeElements, WipeBackends, WipeSelectors]

  lemma ThreeWrites(s: Store, c: ElementRef, x: Write, y: Write, z: Write)
    ensures AllWritten(s, c, [x, y, z]) == Written(Written(Written(s, c, x), c, y), c, z)
  {
    assert [x, y, z][..2] == [x, y] && [x, y][..1] == [x] && [x][..0] == [];
    assert AllWritten(s, c, [x]) == Written(AllWritten(s, c, []), c, x);
    assert AllWritten(s, c, [x, y]) == Written(AllWritten(s, c, [x]), c, y);
  }

  /** Undisturbed, the writes are the operations. */
  lemma UndisturbedWritesAreTheOperations(s: Store, c: ElementRef)
    ensures AllWritten(s, c, INSERT) == Put(s, c) && AllWritten(s, c, CLEAR) == Cleared(s)
  {
    ThreeWrites(s, c, SetBackend, SetSelector, SetElement);
    ThreeWrites(s, c, WipeElements, WipeBackends, WipeSelectors);
  }

  // -- interleavings ------------------------------------------------------------------

  /** How often each task has had its turn; `true` is a turn of the one that stores. */
  function Turns(schedule: seq<bool>, storing: bool): nat {
    if schedule == [] then 0
    else Turns(schedule[..|schedule| - 1], storing) + if schedule[|schedule| - 1] == storing then 1 else 0
  }

  /** The writes that store an element: its own entry last. An insert writes the backend entry first, then the selector
      entry; an update the other way round, or no selector entry. (The old selector entry an update removes, and the
      prior element an insert displaces, are wiped by a clear anyway.) */
  predicate Stores(sets: seq<Write>) {
    && sets != [] && sets[|sets| - 1] == SetElement && SetBackend in sets
    && forall w | w in sets :: w in {SetBackend, SetSelector, SetElement}
  }

  /** The writes in the order they come: `sets` once, and clears one after the other. */
  function Interleaved(sets: seq<Write>, schedule: seq<bool>): seq<Write>
    requires Turns(schedule, true) <= |sets|
  {
    if schedule == [] then []
    else
      var before := schedule[..|schedule| - 1];
      Interleaved(sets, before) +
      [if schedule[|schedule| - 1] then sets[Turns(before, true)] else CLEAR[Turns(before, false) % 3]]
  }

  /** Both tasks are done: the element has been stored, and one or more clears have run. */
  predicate Done(sets: seq<Write>, schedule: seq<bool>) {
    && Turns(schedule, true) == |sets|
    && Turns(schedule, false) >= 3 && Turns(schedule, false) % 3 == 0
  }

  /** Of these two writes, `set` comes last. */
  predicate Kept(writes: seq<Write>, set_: Write, wipe: Write) {
    if writes == [] then false
    else if writes[|writes| - 1] == set_ then true
    else if writes[|writes| - 1] == wipe then false
    else Kept(writes[..|writes| - 1], set_, wipe)
  }

  lemma {:induction false} ElementsAfter(s: Store, c: ElementRef, writes: seq<Write>)
    requires WipeElements in writes
    ensures AllWritten(s, c, writes).elements
         == if Kept(writes, SetElement, WipeElements) then map[c.id := c] else map[]
  {
    var front, last := writes[..|writes| - 1], writes[|writes| - 1];
    assert writes == front + [last];
    if last != WipeElements { ElementsAfter(s, c, front); }
  }

  lemma {:induction false} BackendsAfter(s: Store, c: ElementRef, writes: seq<Write>)
    requires WipeBackends in writes
    ensures AllWritten(s, c, writes).byBackend
         == if c.backend != 0 && Kept(writes, SetBackend, WipeBackends) then map[c.backend := c.id] else map[]
  {
    var front, last := writes[..|writes| - 1], writes[|writes| - 1];
    assert writes == front + [last];
    if last != WipeBackends { BackendsAfter(s, c, front); }
  }

  lemma {:induction false} SelectorsAfter(s: Store, c: ElementRef, writes: seq<Write>)
    requires WipeSelectors in writes
    ensures AllWritten(s, c, writes).bySelector
         == if c.selector != "" && Kept(writes, SetSelector, WipeSelectors) then map[c.selector := c.id] else map[]
  {
    var front, last := writes[..|writes| - 1], writes[|writes| - 1];
    assert writes == front + [last];
    if last != WipeSelectors { SelectorsAfter(s, c, front); }
  }

  lemma LastWrite(sets: seq<Write>, schedule: seq<bool>)
    requires Turns(schedule, true) <= |sets| && schedule != []
    ensures var before := schedule[..|schedule| - 1];
      var write := if schedule[|schedule| - 1] then sets[Turns(before, true)] else CLEAR[Turns(before, false) % 3];
      Interleaved(sets, schedule) == Interleaved(sets, before) + [write]
      && Interleaved(sets, schedule)[..|Interleaved(sets, schedule)| - 1] == Interleaved(sets, before)
  {
    assert Interleaved(sets, schedule) == Interleaved(sets, schedule[..|schedule| - 1]) +
      [if schedule[|schedule| - 1] then sets[Turns(schedule[..|schedule| - 1], true)]
       else CLEAR[Turns(schedule[..|schedule| - 1], false) % 3]];
  }

  /** The backend entry is kept only if the element is, except between the first two wipes of a clear. */
  lemma {:induction false} BackendIsKeptWithItsElement(sets: seq<Write>, schedule: seq<bool>)
    requires Stores(sets) && Turns(schedule, true) == |sets| && Turns(schedule, false) % 3 != 1
    requires Kept(Interleaved(sets, schedule), SetBackend, WipeBackends)
    ensures Kept(Interleaved(sets, schedule), SetElement, WipeElements)
    decreases |schedule|
  {
    LastWrite(sets, schedule);
    if !schedule[|schedule| - 1] { BackendIsKeptWithItsElement(sets, schedule[..|schedule| - 1]); }
  }

  /** The selector entry is kept only if the element is, except during a clear. */
  lemma {:induction false} SelectorIsKeptWithItsElement(sets: seq<Write>, schedule: seq<bool>)
    requires Stores(sets) && Turns(schedule, true) == |sets| && Turns(schedule, false) % 3 == 0
    requires Kept(Interleaved(sets, schedule), SetSelector, WipeSelectors)
    ensures Kept(Interleaved(sets, schedule), SetElement, WipeElements)
    decreases |schedule|
  {
    LastWrite(sets, schedule);
  }

  lemma {:induction false} ClearsWipe(sets: seq<Write>, schedule: seq<bool>)
    requires Turns(schedule, true) <= |sets|
    ensures var writes, turns := Interleaved(sets, schedule), Turns(schedule, false);
      && (turns >= 1 ==> WipeElements in writes) && (turns >= 2 ==> WipeBackends in writes)
      && (turns >= 3 ==> WipeSelectors in writes)
    decreases |schedule|
  {
    if schedule != [] { ClearsWipe(sets, schedule[..|schedule| - 1]); }
  }

  lemma MapsAfter(s: Store, c: ElementRef, sets: seq<Write>, schedule: seq<bool>)
    requires Done(sets, schedule)
    ensures var writes := Interleaved(sets, schedule);
      var t := AllWritten(s, c, writes);
      && t.elements == (if Kept(writes, SetElement, WipeElements) then map[c.id := c] else map[])
      && t.byBackend ==
          (if c.backend != 0 && Kept(writes, SetBackend, WipeBackends) then map[c.backend := c.id] else map[])
      && t.bySelector ==
          (if c.selector != "" && Kept(writes, SetSelector, WipeSelectors) then map[c.selector := c.id] else map[])
  {
    ClearsWipe(sets, schedule);
    var writes := Interleaved(sets, schedule);
    ElementsAfter(s, c, writes);
    BackendsAfter(s, c, writes);
    SelectorsAfter(s, c, writes);
  }

  /** Storing an element while the store is cleared leaves the maps in agreement exactly when the element has no
      backend node, or is not stored after the last wipe of the elements, or its backend entry is written after the
      last wipe of those too. */
  lemma RacesAgreeExactlyWhen(s: Store, c: ElementRef, sets: seq<Write>, schedule: seq<bool>)
    requires Stores(sets) && Done(sets, schedule)
    ensures var writes := Interleaved(sets, schedule);
      Consistent(AllWritten(s, c, writes)) <==>
        (c.backend == 0 || !Kept(writes, SetElement, WipeElements) || Kept(writes, SetBackend, WipeBackends))
  {
    var writes := Interleaved(sets, schedule);
    if Kept(writes, SetBackend, WipeBackends) { BackendIsKeptWithItsElement(sets, schedule); }
    if Kept(writes, SetSelector, WipeSelectors) { SelectorIsKeptWithItsElement(sets, schedule); }
    MapsAfter(s, c, sets, schedule);
    AgreesAfter(AllWritten(s, c, writes), c, Kept(writes, SetElement, WipeElements),
        Kept(writes, SetBackend, WipeBackends), Kept(writes, SetSelector, WipeSelectors));
  }

  lemma AgreesAfter(t: Store, c: ElementRef, stored: bool, byBackend: bool, bySelector: bool)
    requires t.elements == if stored then map[c.id := c] else map[]
    requires t.byBackend == if c.backend != 0 && byBackend then map[c.backend := c.id] else map[]
    requires t.bySelector == if c.selector != "" && bySelector then map[c.selector := c.id] else map[]
    requires (byBackend ==> stored) && (bySelector ==> stored)
    ensures Consistent(t) <==> (c.backend == 0 || !stored || byBackend)
  {
    if stored { assert c.id in t.elements && t.elements[c.id] == c; }
    if c.backend != 0 && byBackend { assert t.byBackend[c.backend] == c.id; }
  }

  /** When they do not agree, the element is stored and cannot be found by its backend node. */
  lemma ALostRaceLosesTheBackend(s: Store, c: ElementRef, sets: seq<Write>, schedule: seq<bool>)
    requires Stores(sets) && Done(sets, schedule)
    requires !Consistent(AllWritten(s, c, Interleaved(sets, schedule)))
    ensures var t := AllWritten(s, c, Interleaved(sets, schedule));
      t.elements == map[c.id := c] && c.backend != 0 && ByBackend(t, c.backend) == None
  {
    RacesAgreeExactlyWhen(s, c, sets, schedule);
    MapsAfter(s, c, sets, schedule);
  }

  /** How far a schedule has come, and whether the element and its backend entry are in their maps for good so far. */
  predicate At(sets: seq<Write>, schedule: seq<bool>, stores: nat, wipes: nat, stored: bool, entered: bool) {
    && Turns(schedule, true) == stores <= |sets| && Turns(schedule, false) == wipes
    && Kept(Interleaved(sets, schedule), SetElement, WipeElements) == stored
    && Kept(Interleaved(sets, schedule), SetBackend, WipeBackends) == entered
  }

  lemma StoreNext(sets: seq<Write>, schedule: seq<bool>, stores: nat, wipes: nat, stored: bool, entered: bool)
      returns (more: seq<bool>)
    requires At(sets, schedule, stores, wipes, stored, entered) && stores < |sets|
    requires sets[stores] in {SetBackend, SetSelector, SetElement}
    ensures var w := sets[stores];
      At(sets, more, stores + 1, wipes, stored || w == SetElement, entered || w == SetBackend)
  {
    more := schedule + [true];
    assert more[..|schedule|] == schedule;
    var writes := Interleaved(sets, schedule);
    assert (writes + [sets[stores]])[..|writes|] == writes;
  }

  lemma WipeNext(sets: seq<Write>, schedule: seq<bool>, stores: nat, wipes: nat, stored: bool, entered: bool)
      returns (more: seq<bool>)
    requires At(sets, schedule, stores, wipes, stored, entered)
    ensures At(sets, more, stores, wipes + 1, stored && wipes % 3 != 0, entered && wipes % 3 != 1)
  {
    more := schedule + [false];
    assert more[..|schedule|] == schedule;
    var writes := Interleaved(sets, schedule);
    assert (writes + [CLEAR[wipes % 3]])[..|writes|] == writes;
  }

  /** A race can be lost: a clear comes between the first two writes of an insert. */
  lemma AClearInsideAnInsertLoses(s: Store, c: ElementRef)
    requires c.backend != 0
    ensures exists schedule :: Done(INSERT, schedule) && !Consistent(AllWritten(s, c, Interleaved(INSERT, schedule)))
  {
    assert At(INSERT, [], 0, 0, false, false);
    var schedule := StoreNext(INSERT, [], 0, 0, false, false);
    schedule := WipeNext(INSERT, schedule, 1, 0, false, true);
    schedule := WipeNext(INSERT, schedule, 1, 1, false, true);
    schedule := WipeNext(INSERT, schedule, 1, 2, false, false);
    schedule := StoreNext(INSERT, schedule, 1, 3, false, false);
    schedule := StoreNext(INSERT, schedule, 2, 3, false, false);
    assert Done(INSERT, schedule);
    RacesAgreeExactlyWhen(s, c, INSERT, schedule);
  }
}
