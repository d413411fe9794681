/** Listing the accessible objects under a window: a walk with an explicit stack and two caps, and the
    decoding of the state bit set. */
module AccessibilityWalk {
  import opened Wrappers
  import opened Division
  import Text

  const MAX_NODES := 400
  const MAX_RESULTS := 60
  const EXTENT_SANITY := 20000
  const ACTIONABLE_ROLES: set<int> := {7, 8, 11, 33, 35, 37, 40, 43, 44, 45, 51, 52, 62, 79, 88}
  const VALUE_BEARING_ROLES: set<int> := {7, 8, 44, 45, 62, 61, 79, 51, 52}

  const STATE_ENABLED := 8
  const STATE_SENSITIVE := 24
  const STATE_SHOWING := 25
  const STATE_VISIBLE := 30

  datatype Extent = Extent(x: int, y: int, w: int, h: int)

  /** One accessible object as the bus answers for it; `extent` is None when that call fails. */
  datatype Node = Node(path: string, name: string, role: int, extent: Option<Extent>, states: seq<nat>,
      children: seq<Node>)

  datatype Item = Item(path: string, name: string, role: int, extent: Extent, clickable: bool)

  // -- state bits -------------------------------------------------------------

  function Pow2(n: nat): (p: nat)
    ensures p > 0
  {
    if n == 0 then 1 else 2 * Pow2(n - 1)
  }

  predicate Bit(word: nat, bit: nat) { word / Pow2(bit) % 2 == 1 }

  predicate HasState(words: seq<nat>, state: nat) {
    state / 32 < |words| && Bit(words[state / 32], state % 32)
  }

  /** The words become the set of the numbers of their set bits. */
  method GetState(words: seq<nat>) returns (states: set<nat>)
    ensures forall n: nat :: n in states <==> HasState(words, n)
  {
    states := {};
    for wi := 0 to |words|
      invariant forall n: nat :: n in states <==> n / 32 < wi && HasState(words, n)
    {
      ghost var before := states;
      for bit := 0 to 32
        invariant forall n: nat ::
            (n in states <==> n in before || (n / 32 == wi && n % 32 < bit && Bit(words[wi], n % 32)))
      {
        if words[wi] / Pow2(bit) % 2 == 1 { states := states + {wi * 32 + bit}; }
      }
    }
  }

  lemma {:induction false} LowBitsAgree(a: nat, b: nat, k: nat)
    requires forall bit: nat | bit < k :: Bit(a, bit) <==> Bit(b, bit)
    ensures a % Pow2(k) == b % Pow2(k)
  {
    if k > 0 {
      LowBitsAgree(a, b, k - 1);
      SplitAtBit(a, k - 1);
      SplitAtBit(b, k - 1);
    }
  }

  lemma SplitAtBit(a: nat, k: nat)
    ensures a % Pow2(k + 1) == a % Pow2(k) + (if Bit(a, k) then Pow2(k) else 0)
  {
    var p := Pow2(k);
    DivDiv(a, p, 2);
    Divides(a % (p * 2), p);
    assert Pow2(k + 1) == p * 2;
    assert p * 1 == p && p * 0 == 0;
  }

  lemma WordIsItsBits(a: nat, b: nat)
    requires a < Pow2(32) && b < Pow2(32)
    requires forall bit: nat | bit < 32 :: Bit(a, bit) <==> Bit(b, bit)
    ensures a == b
  {
    LowBitsAgree(a, b, 32);
    SmallerThan(a, Pow2(32));
    SmallerThan(b, Pow2(32));
  }

  /** No state is lost or invented: equally many words with the same states are the same words. */
  lemma StatesDetermineTheWords(a: seq<nat>, b: seq<nat>)
    requires |a| == |b| && forall i | 0 <= i < |a| :: a[i] < Pow2(32) && b[i] < Pow2(32)
    requires forall n: nat :: HasState(a, n) <==> HasState(b, n)
    ensures a == b
  {
    forall i | 0 <= i < |a| ensures a[i] == b[i] {
      forall bit: nat | bit < 32 ensures Bit(a[i], bit) <==> Bit(b[i], bit) {
        var n := 32 * i + bit;
        assert n / 32 == i && n % 32 == bit;
        assert HasState(a, n) <==> HasState(b, n);
      }
      WordIsItsBits(a[i], b[i]);
    }
  }

  // -- which nodes are listed ---------------------------------------------------------

  predicate ClickableNow(words: seq<nat>) {
    && HasState(words, STATE_SHOWING) && HasState(words, STATE_VISIBLE)
    && (HasState(words, STATE_SENSITIVE) || HasState(words, STATE_ENABLED))
  }

  predicate Sane(e: Extent) {
    e.w > 0 && e.h > 0 && -EXTENT_SANITY <= e.x <= EXTENT_SANITY && -EXTENT_SANITY <= e.y <= EXTENT_SANITY
  }

  predicate Listed(n: Node, needle: string, actionable: bool) {
    && (needle == "" || Text.Contains(Text.Lower(n.name), needle))
    && (actionable ==> n.role in ACTIONABLE_ROLES)
    && (n.name != "" || needle != "" || n.role in VALUE_BEARING_ROLES)
    && n.extent.Some? && Sane(n.extent.value)
  }

  function ItemOf(n: Node): Item
    requires n.extent.Some?
  {
    Item(n.path, n.name, n.role, n.extent.value, ClickableNow(n.states))
  }

  /** The listed nodes of a sequence, in order. */
  function Items(ns: seq<Node>, needle: string, actionable: bool): seq<Item> {
    if ns == [] then [] else
      var n := ns[|ns| - 1];
      Items(ns[..|ns| - 1], needle, actionable) + if Listed(n, needle, actionable) then [ItemOf(n)] else []
  }

  lemma {:induction false} ItemsJoin(a: seq<Node>, b: seq<Node>, needle: string, actionable: bool)
    ensures Items(a + b, needle, actionable) == Items(a, needle, actionable) + Items(b, needle, actionable)
  {
    if b == [] {
      assert a + b == a;
    } else {
      ItemsJoin(a, b[..|b| - 1], needle, actionable);
      assert (a + b)[..|a + b| - 1] == a + b[..|b| - 1];
    }
  }

  /** Whether a node is listed, and as what: its name has the text looked for, its role can be acted on if that is asked
      for, it has a name or a role that needs none unless a text is looked for, and its extent is known and sane; it
      can be clicked when it shows, is visible, and is sensitive or enabled. */
  lemma ItemInPlainTerms(n: Node, needle: string, actionable: bool)
    ensures Items([n], needle, actionable) ==
      if (needle != "" ==> Text.Contains(Text.Lower(n.name), needle))
         && (actionable ==> n.role in ACTIONABLE_ROLES)
         && (needle == "" && n.name == "" ==> n.role in VALUE_BEARING_ROLES)
         && n.extent.Some? && 0 < n.extent.value.w && 0 < n.extent.value.h
         && -20000 <= n.extent.value.x <= 20000 && -20000 <= n.extent.value.y <= 20000
      then [Item(n.path, n.name, n.role, n.extent.value,
                 HasState(n.states, 25) && HasState(n.states, 30) && (HasState(n.states, 24) || HasState(n.states, 8)))]
      else []
  {
    assert [n][..0] == [] && Items([n][..0], needle, actionable) == [];
  }

  // -- the order of the walk ----------------------------------------------------------

  /** A node, then everything under its first child, and so on. */
  function PreOrder(n: Node): (r: seq<Node>)
    ensures r != [] && r[0] == n
    decreases n, |n.children| + 1
  {
    [n] + Under(n, 0)
  }

  /** Everything under the children from the i-th on. */
  function Under(n: Node, i: nat): seq<Node>
    requires i <= |n.children|
    decreases n, |n.children| - i
  {
    if i == |n.children| then [] else PreOrder(n.children[i]) + Under(n, i + 1)
  }

  /** Everything still to come when this is the stack, its top last. */
  function Pending(stack: seq<Node>): seq<Node> {
    if stack == [] then [] else PreOrder(stack[|stack| - 1]) + Pending(stack[..|stack| - 1])
  }

  /** How many nodes a tree has, and how many are under the first `i` children of a node. */
  function TreeSize(n: Node): nat
    decreases n, |n.children| + 1
  {
    1 + SizeOfFirst(n, |n.children|)
  }

  function SizeOfFirst(n: Node, i: nat): nat
    requires i <= |n.children|
    decreases n, i
  {
    if i == 0 then 0 else SizeOfFirst(n, i - 1) + TreeSize(n.children[i - 1])
  }

  ghost predicate ChildrenSized(n: Node) {
    forall k | 0 <= k < |n.children| :: |PreOrder(n.children[k])| == TreeSize(n.children[k])
  }

  lemma {:induction false} UnderGoesOn(n: Node, i: nat, j: nat)
    requires i <= j <= |n.children|
    requires ChildrenSized(n)
    ensures SizeOfFirst(n, i) <= SizeOfFirst(n, j)
    ensures var skipped := SizeOfFirst(n, j) - SizeOfFirst(n, i);
      skipped <= |Under(n, i)| && Under(n, i)[skipped..] == Under(n, j)
    decreases j - i
  {
    if i < j {
      UnderGoesOn(n, i + 1, j);
      var first := PreOrder(n.children[i]);
      assert Under(n, i) == first + Under(n, i + 1);
      var rest := SizeOfFirst(n, j) - SizeOfFirst(n, i + 1);
      assert Under(n, i)[|first| + rest..] == Under(n, i + 1)[rest..];
    }
  }

  lemma {:induction false} PreOrderHasEveryNode(n: Node)
    ensures |PreOrder(n)| == TreeSize(n)
  {
    forall k | 0 <= k < |n.children| ensures |PreOrder(n.children[k])| == TreeSize(n.children[k]) {
      PreOrderHasEveryNode(n.children[k]);
    }
    UnderGoesOn(n, 0, |n.children|);
  }

  /** From `start` on the order holds this part. */
  predicate HoldsAt(order: seq<Node>, start: nat, part: seq<Node>) {
    start + |part| <= |order| && order[start..start + |part|] == part
  }

  /** The order of the walk: a node comes first, and the walk of its i-th child starts where the trees of the earlier
      children have ended. */
  lemma ChildrenFollowInOrder(n: Node, i: nat)
    requires i < |n.children|
    ensures HoldsAt(PreOrder(n), 0, [n])
    ensures HoldsAt(PreOrder(n), 1 + SizeOfFirst(n, i), PreOrder(n.children[i]))
  {
    ChildStarts(n, i);
    PartHolds([n], Under(n, 0), SizeOfFirst(n, i), PreOrder(n.children[i]), Under(n, i + 1));
  }

  lemma PartHolds(head: seq<Node>, under: seq<Node>, start: nat, part: seq<Node>, after: seq<Node>)
    requires start <= |under| && under[start..] == part + after
    ensures HoldsAt(head + under, 0, head) && HoldsAt(head + under, |head| + start, part)
  {
    assert under[start..][..|part|] == part;
    assert (head + under)[|head| + start..|head| + start + |part|] == under[start..start + |part|];
  }

  lemma ChildStarts(n: Node, i: nat)
    requires i < |n.children|
    ensures var start := SizeOfFirst(n, i);
      start <= |Under(n, 0)| && Under(n, 0)[start..] == PreOrder(n.children[i]) + Under(n, i + 1)
  {
    forall k | 0 <= k < |n.children| ensures |PreOrder(n.children[k])| == TreeSize(n.children[k]) {
      PreOrderHasEveryNode(n.children[k]);
    }
    UnderGoesOn(n, 0, i);
  }

  lemma PendingPushed(stack: seq<Node>, n: Node)
    ensures Pending(stack + [n]) == PreOrder(n) + Pending(stack)
  {
    assert (stack + [n])[..|stack|] == stack;
  }

  method PushChildren(n: Node, stack: seq<Node>) returns (after: seq<Node>)
    ensures Pending(after) == Under(n, 0) + Pending(stack)
  {
    after := stack;
    var i: nat := |n.children|;
    assert [] + Pending(stack) == Pending(stack);
    while i > 0
      invariant i <= |n.children| && Pending(after) == Under(n, i) + Pending(stack)
    {
      i := i - 1;
      PendingPushed(after, n.children[i]);
      JoinIsAssociative(PreOrder(n.children[i]), Under(n, i + 1), Pending(stack));
      after := after + [n.children[i]];
    }
  }

  lemma JoinIsAssociative<T>(a: seq<T>, b: seq<T>, c: seq<T>)
    ensures a + b + c == a + (b + c)
  {
  }

  lemma OneMoreVisited(order: seq<Node>, visited: nat, n: Node, rest: seq<Node>, needle: string, actionable: bool)
    requires visited <= |order| && order[visited..] == [n] + rest
    ensures visited < |order| && order[visited + 1..] == rest
    ensures Items(order[..visited + 1], needle, actionable)
      == Items(order[..visited], needle, actionable) + if Listed(n, needle, actionable) then [ItemOf(n)] else []
  {
    assert order[visited] == order[visited..][0] == n;
    assert order[visited + 1..] == order[visited..][1..];
    assert order[..visited + 1][..visited] == order[..visited];
  }

  /** Visits a beginning of the pre-order, lists exactly the matching nodes of it in order, honours both caps
      and stops early only at one of them, and reports truncation exactly when some node was not visited. */
  method FindElements(root: Node, nameFilter: string, actionable: bool)
      returns (results: seq<Item>, truncated: bool, ghost seen: nat)
    ensures seen <= |PreOrder(root)| && results == Items(PreOrder(root)[..seen], Text.Lower(nameFilter), actionable)
    ensures seen <= MAX_NODES && |results| <= MAX_RESULTS
    ensures truncated <==> seen < |PreOrder(root)|
    ensures truncated ==> seen == MAX_NODES || |results| == MAX_RESULTS
  {
    var needle := Text.Lower(nameFilter);
    var stack, visited := [root], 0;
    ghost var order := PreOrder(root);
    results, truncated := [], false;
    while stack != []
      invariant !truncated && 0 <= visited <= MAX_NODES && |results| <= MAX_RESULTS
      invariant visited <= |order| && order[visited..] == Pending(stack)
      invariant results == Items(order[..visited], needle, actionable)
      decreases |order| - visited
    {
      var n := stack[|stack| - 1];
      stack := stack[..|stack| - 1];
      if visited >= MAX_NODES || |results| >= MAX_RESULTS { truncated := true; break; }
      JoinIsAssociative([n], Under(n, 0), Pending(stack));
      stack := PushChildren(n, stack);
      OneMoreVisited(order, visited, n, Pending(stack), needle, actionable);
      visited := visited + 1;
      if needle != "" && !Text.Contains(Text.Lower(n.name), needle) { continue; }
      if actionable && n.role !in ACTIONABLE_ROLES { continue; }
      if n.name == "" && needle == "" && n.role !in VALUE_BEARING_ROLES { continue; }
      if n.extent == None || !Sane(n.extent.value) { continue; }
      results := results + [ItemOf(n)];
    }
    if visited >= MAX_NODES && stack != [] && |results| < MAX_RESULTS { truncated := true; }
    seen := visited;
    assert !truncated ==> order[visited..] == [];
  }
}
