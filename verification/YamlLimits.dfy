/** The two size guards on parsed YAML (flow_loader.py and flow_modifier_loader.py).

    Parsed data is a graph of objects: YAML aliases make sharing possible, and even cycles. */
module YamlLimits {

  type Ref = nat

  /** A dict (its values, in order), a list, or anything else. */
  datatype Cell = Scalar | Mapping(values: seq<Ref>) | Sequence(items: seq<Ref>)

  type Heap = map<Ref, Cell>

  ghost predicate ClosedHeap(h: Heap) {
    forall r, i :: r in h && 0 <= i < |Children(h[r])| ==> Children(h[r])[i] in h
  }

  function Children(c: Cell): seq<Ref> {
    match c
    case Scalar => []
    case Mapping(vs) => vs
    case Sequence(vs) => vs
  }

  /** Dict keys count as nodes for the first guard. */
  function Keys(c: Cell): nat { if c.Mapping? then |c.values| else 0 }

  // ------------------------------------------------------- finite data as trees

  datatype Tree = Leaf | Dict(kids: Forest) | List(kids: Forest)
  datatype Forest = Nil | Cons(head: Tree, tail: Forest)

  function Length(f: Forest): nat { if f.Nil? then 0 else 1 + Length(f.tail) }

  function Nodes(t: Tree): nat {
    match t
    case Leaf => 1
    case Dict(f) => 1 + NodesIn(f)
    case List(f) => 1 + NodesIn(f)
  }

  function NodesIn(f: Forest): nat { if f.Nil? then 0 else Nodes(f.head) + NodesIn(f.tail) }

  function DictKeys(t: Tree): nat {
    match t
    case Leaf => 0
    case Dict(f) => Length(f) + DictKeysIn(f)
    case List(f) => DictKeysIn(f)
  }

  function DictKeysIn(f: Forest): nat { if f.Nil? then 0 else DictKeys(f.head) + DictKeysIn(f.tail) }

  /** Number of levels; the root alone is one level, so the deepest node is at depth Height - 1. */
  function Height(t: Tree): nat {
    match t
    case Leaf => 1
    case Dict(f) => 1 + HeightIn(f)
    case List(f) => 1 + HeightIn(f)
  }

  function HeightIn(f: Forest): nat {
    if f.Nil? then 0 else if Height(f.head) > HeightIn(f.tail) then Height(f.head) else HeightIn(f.tail)
  }

  /** The object at r, followed through all references, is the finite tree t. */
  ghost predicate Unfolds(h: Heap, r: Ref, t: Tree)
    decreases t
  {
    r in h &&
    match t
    case Leaf => h[r].Scalar?
    case Dict(f) => h[r].Mapping? && UnfoldsAll(h, h[r].values, f)
    case List(f) => h[r].Sequence? && UnfoldsAll(h, h[r].items, f)
  }

  ghost predicate UnfoldsAll(h: Heap, rs: seq<Ref>, f: Forest)
    decreases f
  {
    match f
    case Nil => rs == []
    case Cons(t, rest) => rs != [] && Unfolds(h, rs[0], t) && UnfoldsAll(h, rs[1..], rest)
  }

  // ---------------------------------------- unfolding down to a number of levels

  /** Nodes (plus dict keys, if counted) of r unfolded for k levels; what would be level k + 1 counts once and is not
      opened. */
  ghost function Weight(h: Heap, r: Ref, k: nat, keys: bool): nat
    requires ClosedHeap(h) && r in h
    decreases k, 0, 0
  {
    if k == 0 then 1 else 1 + (if keys then Keys(h[r]) else 0) + WeightAll(h, Children(h[r]), k - 1, keys)
  }

  ghost function WeightAll(h: Heap, rs: seq<Ref>, k: nat, keys: bool): nat
    requires ClosedHeap(h) && forall i :: 0 <= i < |rs| ==> rs[i] in h
    decreases k, 1, |rs|
  {
    if rs == [] then 0 else WeightAll(h, rs[..|rs| - 1], k, keys) + Weight(h, rs[|rs| - 1], k, keys)
  }

  /** Some path from r has more than k levels. */
  ghost predicate TooDeep(h: Heap, r: Ref, k: nat)
    requires ClosedHeap(h) && r in h
    decreases k
  {
    k == 0 || exists i :: 0 <= i < |Children(h[r])| && TooDeep(h, Children(h[r])[i], k - 1)
  }

  // ------------------------------------------------------------- the stack walk

  datatype Entry = Entry(node: Ref, depth: nat)

  ghost predicate OnHeap(h: Heap, stack: seq<Entry>, maxDepth: nat) {
    forall i :: 0 <= i < |stack| ==> stack[i].node in h && stack[i].depth <= maxDepth + 1
  }

  ghost function StackWeight(h: Heap, stack: seq<Entry>, maxDepth: nat): nat
    requires ClosedHeap(h) && OnHeap(h, stack, maxDepth)
  {
    if stack == [] then 0
    else var e := stack[|stack| - 1];
      assert OnHeap(h, stack[..|stack| - 1], maxDepth);
      StackWeight(h, stack[..|stack| - 1], maxDepth) + Weight(h, e.node, maxDepth + 1 - e.depth, true)
  }

  ghost predicate StackTooDeep(h: Heap, stack: seq<Entry>, maxDepth: nat)
    requires ClosedHeap(h) && OnHeap(h, stack, maxDepth)
  {
    exists i :: 0 <= i < |stack| && TooDeep(h, stack[i].node, maxDepth + 1 - stack[i].depth)
  }

  lemma StackPush(h: Heap, stack: seq<Entry>, maxDepth: nat, e: Entry)
    requires ClosedHeap(h) && OnHeap(h, stack, maxDepth) && e.node in h && e.depth <= maxDepth + 1
    ensures OnHeap(h, stack + [e], maxDepth)
    ensures StackWeight(h, stack + [e], maxDepth)
            == StackWeight(h, stack, maxDepth) + Weight(h, e.node, maxDepth + 1 - e.depth, true)
    ensures StackTooDeep(h, stack + [e], maxDepth) <==>
            StackTooDeep(h, stack, maxDepth) || TooDeep(h, e.node, maxDepth + 1 - e.depth)
  {
    var s := stack + [e];
    assert s[..|s| - 1] == stack;
    assert forall i :: 0 <= i < |stack| ==> s[i] == stack[i];
    assert s[|stack|] == e;
  }

  ghost predicate AnyTooDeep(h: Heap, rs: seq<Ref>, k: nat)
    requires ClosedHeap(h) && forall i :: 0 <= i < |rs| ==> rs[i] in h
  {
    exists i :: 0 <= i < |rs| && TooDeep(h, rs[i], k)
  }

  lemma NextChild(h: Heap, rs: seq<Ref>, i: nat, k: nat, keys: bool)
    requires ClosedHeap(h) && (forall j :: 0 <= j < |rs| ==> rs[j] in h) && i < |rs|
    ensures WeightAll(h, rs[..i + 1], k, keys) == WeightAll(h, rs[..i], k, keys) + Weight(h, rs[i], k, keys)
    ensures AnyTooDeep(h, rs[..i + 1], k) <==> AnyTooDeep(h, rs[..i], k) || TooDeep(h, rs[i], k)
  {
    var q := rs[..i + 1];
    assert q[..i] == rs[..i];
    if AnyTooDeep(h, q, k) {
      var j :| 0 <= j < |q| && TooDeep(h, q[j], k);
      if j < i { assert rs[..i][j] == q[j]; }
    }
    if AnyTooDeep(h, rs[..i], k) {
      var j :| 0 <= j < i && TooDeep(h, rs[..i][j], k);
      assert q[j] == rs[..i][j];
    }
    assert q[i] == rs[i];
  }

  lemma ChildTooDeep(h: Heap, rs: seq<Ref>, i: nat, k: nat)
    requires ClosedHeap(h) && (forall j :: 0 <= j < |rs| ==> rs[j] in h) && i < |rs|
    ensures TooDeep(h, rs[i], k) ==> AnyTooDeep(h, rs, k)
  {
  }

  /** What has been pushed on top of `before` when the first i children are on the stack. */
  ghost predicate Pushed(h: Heap, rs: seq<Ref>, i: nat, before: seq<Entry>, stack: seq<Entry>, depth: nat,
                         maxDepth: nat)
    requires ClosedHeap(h) && (forall j :: 0 <= j < |rs| ==> rs[j] in h) && i <= |rs|
    requires OnHeap(h, before, maxDepth) && depth <= maxDepth
  {
    && OnHeap(h, stack, maxDepth)
    && StackWeight(h, stack, maxDepth)
        == StackWeight(h, before, maxDepth) + WeightAll(h, rs[..i], maxDepth - depth, true)
    && (StackTooDeep(h, stack, maxDepth) <==>
        StackTooDeep(h, before, maxDepth) || AnyTooDeep(h, rs[..i], maxDepth - depth))
  }

  lemma PushNext(h: Heap, rs: seq<Ref>, i: nat, before: seq<Entry>, stack: seq<Entry>, depth: nat, maxDepth: nat)
    requires ClosedHeap(h) && (forall j :: 0 <= j < |rs| ==> rs[j] in h) && i < |rs|
    requires OnHeap(h, before, maxDepth) && depth <= maxDepth && Pushed(h, rs, i, before, stack, depth, maxDepth)
    ensures Pushed(h, rs, i + 1, before, stack + [Entry(rs[i], depth + 1)], depth, maxDepth)
  {
    var k, e := maxDepth - depth, Entry(rs[i], depth + 1);
    StackPush(h, stack, maxDepth, e);
    NextChild(h, rs, i, k, true);
    PushedWeight(StackWeight(h, before, maxDepth), WeightAll(h, rs[..i], k, true), Weight(h, rs[i], k, true),
                 StackWeight(h, stack, maxDepth), WeightAll(h, rs[..i + 1], k, true),
                     StackWeight(h, stack + [e], maxDepth));
    PushedTooDeep(StackTooDeep(h, before, maxDepth), AnyTooDeep(h, rs[..i], k), TooDeep(h, rs[i], k),
                  StackTooDeep(h, stack, maxDepth), AnyTooDeep(h, rs[..i + 1], k),
                      StackTooDeep(h, stack + [e], maxDepth));
  }

  lemma PushedWeight(before: nat, some: nat, child: nat, now: nat, more: nat, next: nat)
    requires now == before + some && more == some + child && next == now + child
    ensures next == before + more
  {
  }

  lemma PushedTooDeep(before: bool, some: bool, child: bool, now: bool, more: bool, next: bool)
    requires (now <==> before || some) && (more <==> some || child) && (next <==> now || child)
    ensures next <==> before || more
  {
  }

  /** Pushes the children one by one, counting a key before each if the node is a dict. */
  method PushChildren(h: Heap, rs: seq<Ref>, depth: nat, stack: seq<Entry>, count: nat, keys: bool, maxDepth: nat,
                      maxNodes: nat)
    returns (ok: bool, stack': seq<Entry>, count': nat)
    requires ClosedHeap(h) && (forall i :: 0 <= i < |rs| ==> rs[i] in h)
    requires OnHeap(h, stack, maxDepth) && depth <= maxDepth && count <= maxNodes
    ensures ok <==> count + (if keys then |rs| else 0) <= maxNodes
    ensures ok ==> count' == count + (if keys then |rs| else 0)
    ensures ok ==> Pushed(h, rs, |rs|, stack, stack', depth, maxDepth)
  {
    stack', count' := stack, count;
    for i := 0 to |rs|
      invariant count' == count + (if keys then i else 0) <= maxNodes
      invariant Pushed(h, rs, i, stack, stack', depth, maxDepth)
    {
      if keys {
        count' := count' + 1;
        if count' > maxNodes { return false, stack', count'; }
      }
      PushNext(h, rs, i, stack, stack', depth, maxDepth);
      stack' := stack' + [Entry(rs[i], depth + 1)];
    }
    ok := true;
  }

  /** One turn of the loop. */
  method PopAndPush(h: Heap, stack: seq<Entry>, count: nat, maxDepth: nat, maxNodes: nat)
    returns (ok: bool, stack': seq<Entry>, count': nat)
    requires ClosedHeap(h) && OnHeap(h, stack, maxDepth) && stack != [] && count <= maxNodes
    ensures ok ==> OnHeap(h, stack', maxDepth) && count < count' <= maxNodes
    ensures ok ==> count' + StackWeight(h, stack', maxDepth) == count + StackWeight(h, stack, maxDepth)
    ensures ok ==> (StackTooDeep(h, stack', maxDepth) <==> StackTooDeep(h, stack, maxDepth))
    ensures !ok ==> StackTooDeep(h, stack, maxDepth) || count + StackWeight(h, stack, maxDepth) > maxNodes
  {
    var e := stack[|stack| - 1];
    ghost var below := stack[..|stack| - 1];
    stack' := stack[..|stack| - 1];
    count' := count + 1;
    Popped(h, stack, maxDepth);
    StackPush(h, below, maxDepth, e);
    if count' > maxNodes { return false, stack', count'; }
    if e.depth > maxDepth { return false, stack', count'; }
    Opened(h, e.node, maxDepth - e.depth, true);
    ok, stack', count' := PushChildren(h, Children(h[e.node]), e.depth, stack', count', h[e.node].Mapping?, maxDepth,
                                       maxNodes);
  }

  lemma Popped(h: Heap, stack: seq<Entry>, maxDepth: nat)
    requires OnHeap(h, stack, maxDepth) && stack != []
    ensures var n := |stack| - 1; OnHeap(h, stack[..n], maxDepth) && stack == stack[..n] + [stack[n]]
  {
    var below := stack[..|stack| - 1];
    forall i | 0 <= i < |below|
      ensures below[i].node in h && below[i].depth <= maxDepth + 1 { assert below[i] == stack[i]; }
  }

  lemma Opened(h: Heap, r: Ref, k: nat, keys: bool)
    requires ClosedHeap(h) && r in h
    ensures var rs := Children(h[r]);
            && rs[..|rs|] == rs
            && Weight(h, r, k + 1, keys) == 1 + (if keys && h[r].Mapping? then |rs| else 0) + WeightAll(h, rs, k, keys)
            && (TooDeep(h, r, k + 1) <==> AnyTooDeep(h, rs, k))
  {
    var rs := Children(h[r]);
    assert rs[..|rs|] == rs;
  }

  /** The iterative guard: it terminates on every heap, cyclic or not, because every pop is counted. */
  method StackWalk(h: Heap, data: Ref, maxDepth: nat, maxNodes: nat) returns (ok: bool)
    requires ClosedHeap(h) && data in h
    ensures ok <==> !TooDeep(h, data, maxDepth + 1) && Weight(h, data, maxDepth + 1, true) <= maxNodes
  {
    var count := 0;
    StackPush(h, [], maxDepth, Entry(data, 0));
    var stack := [Entry(data, 0)];
    assert [] + stack == stack;
    while stack != []
      invariant OnHeap(h, stack, maxDepth) && count <= maxNodes
      invariant count + StackWeight(h, stack, maxDepth) == Weight(h, data, maxDepth + 1, true)
      invariant StackTooDeep(h, stack, maxDepth) <==> TooDeep(h, data, maxDepth + 1)
      decreases maxNodes - count
    {
      ok, stack, count := PopAndPush(h, stack, count, maxDepth, maxNodes);
      if !ok { return false; }
    }
    ok := true;
  }

  // --------------------------------------------------------- the recursive twin

  /** `_walk` with its shared counter passed in and out. */
  method RecursiveWalk(h: Heap, r: Ref, depth: nat, maxDepth: nat, maxNodes: nat, count: nat)
      returns (ok: bool, count': nat)
    requires ClosedHeap(h) && r in h && depth <= maxDepth + 1 && count <= maxNodes
    ensures ok <==>
            !TooDeep(h, r, maxDepth + 1 - depth) && count + Weight(h, r, maxDepth + 1 - depth, false) <= maxNodes
    ensures ok ==> count' == count + Weight(h, r, maxDepth + 1 - depth, false)
    decreases maxDepth + 1 - depth, 1, 0
  {
    count' := count + 1;
    if count' > maxNodes { return false, count'; }
    if depth > maxDepth { return false, count'; }
    Opened(h, r, maxDepth - depth, false);
    ok, count' := WalkChildren(h, Children(h[r]), depth, maxDepth, maxNodes, count');
  }

  /** The loops over the values of a dict and the items of a list. */
  method WalkChildren(h: Heap, rs: seq<Ref>, depth: nat, maxDepth: nat, maxNodes: nat, count: nat)
      returns (ok: bool, count': nat)
    requires ClosedHeap(h) && (forall i :: 0 <= i < |rs| ==> rs[i] in h) && depth <= maxDepth && count <= maxNodes
    ensures ok <==>
            !AnyTooDeep(h, rs, maxDepth - depth) && count + WeightAll(h, rs, maxDepth - depth, false) <= maxNodes
    ensures ok ==> count' == count + WeightAll(h, rs, maxDepth - depth, false)
    decreases maxDepth + 1 - depth, 0, 0
  {
    var k := maxDepth - depth;
    count' := count;
    for i := 0 to |rs|
      invariant count' == count + WeightAll(h, rs[..i], k, false) <= maxNodes
      invariant !AnyTooDeep(h, rs[..i], k)
    {
      NextChild(h, rs, i, k, false);
      ok, count' := RecursiveWalk(h, rs[i], depth + 1, maxDepth, maxNodes, count');
      if !ok {
        WeightAllGrows(h, rs, k, i + 1);
        ChildTooDeep(h, rs, i, k);
        return false, count';
      }
    }
    assert rs[..|rs|] == rs;
    ok := true;
  }

  lemma {:induction false} WeightAllGrows(h: Heap, rs: seq<Ref>, k: nat, i: nat)
    requires ClosedHeap(h) && (forall j :: 0 <= j < |rs| ==> rs[j] in h) && i <= |rs|
    ensures WeightAll(h, rs[..i], k, false) <= WeightAll(h, rs, k, false)
    decreases |rs| - i
  {
    if i == |rs| {
      assert rs[..i] == rs;
    } else {
      WeightAllGrows(h, rs, k, i + 1);
      assert rs[..i + 1][..i] == rs[..i];
    }
  }

  method CheckRecursively(h: Heap, data: Ref, maxDepth: nat, maxNodes: nat) returns (ok: bool)
    requires ClosedHeap(h) && data in h
    ensures ok <==> !TooDeep(h, data, maxDepth + 1) && Weight(h, data, maxDepth + 1, false) <= maxNodes
  {
    var count;
    ok, count := RecursiveWalk(h, data, 0, maxDepth, maxNodes, 0);
  }

  // -------------------------------------------------- what the limits say of data

  /** Unfolding stops within k levels exactly when r unfolds to a tree of at most k levels. */
  lemma {:induction false} TreeWithin(h: Heap, r: Ref, k: nat) returns (t: Tree)
    requires ClosedHeap(h) && r in h && !TooDeep(h, r, k)
    ensures Unfolds(h, r, t) && Height(t) <= k
    decreases k, 0, 0
  {
    match h[r] {
      case Scalar => t := Leaf;
      case Mapping(vs) => var f := ForestWithin(h, Children(h[r]), k - 1); t := Dict(f);
      case Sequence(vs) => var f := ForestWithin(h, Children(h[r]), k - 1); t := List(f);
    }
  }

  lemma {:induction false} ForestWithin(h: Heap, rs: seq<Ref>, k: nat) returns (f: Forest)
    requires ClosedHeap(h) && (forall i :: 0 <= i < |rs| ==> rs[i] in h && !TooDeep(h, rs[i], k))
    ensures UnfoldsAll(h, rs, f) && HeightIn(f) <= k
    decreases k, 1, |rs|
  {
    if rs == [] {
      f := Nil;
    } else {
      var t := TreeWithin(h, rs[0], k);
      var rest := ForestWithin(h, rs[1..], k);
      f := Cons(t, rest);
    }
  }

  /** A tree that r unfolds to tells depth and weight. */
  lemma {:induction false} TreeTells(h: Heap, r: Ref, t: Tree, k: nat)
    requires ClosedHeap(h) && Unfolds(h, r, t)
    ensures TooDeep(h, r, k) <==> Height(t) > k
    ensures Height(t) <= k ==> Weight(h, r, k, true) == Nodes(t) + DictKeys(t) && Weight(h, r, k, false) == Nodes(t)
    decreases t
  {
    if k > 0 {
      match t {
        case Leaf =>
        case Dict(f) => ForestTells(h, Children(h[r]), f, k - 1);
        case List(f) => ForestTells(h, Children(h[r]), f, k - 1);
      }
    }
  }

  lemma {:induction false} ForestTells(h: Heap, rs: seq<Ref>, f: Forest, k: nat)
    requires ClosedHeap(h) && (forall i :: 0 <= i < |rs| ==> rs[i] in h) && UnfoldsAll(h, rs, f)
    ensures (exists i :: 0 <= i < |rs| && TooDeep(h, rs[i], k)) <==> HeightIn(f) > k
    ensures HeightIn(f) <= k ==>
            WeightAll(h, rs, k, true) == NodesIn(f) + DictKeysIn(f) && WeightAll(h, rs, k, false) == NodesIn(f)
    ensures |rs| == Length(f)
    decreases f
  {
    if f.Cons? {
      TreeTells(h, rs[0], f.head, k);
      ForestTells(h, rs[1..], f.tail, k);
      SplitFirst(h, rs, k, true);
      SplitFirst(h, rs, k, false);
      if i :| 0 <= i < |rs| && TooDeep(h, rs[i], k) { assert i == 0 || rs[1..][i - 1] == rs[i]; }
      if i :| 0 <= i < |rs[1..]| && TooDeep(h, rs[1..][i], k) { assert rs[i + 1] == rs[1..][i]; }
    }
  }

  lemma {:induction false} SplitFirst(h: Heap, rs: seq<Ref>, k: nat, keys: bool)
    requires ClosedHeap(h) && (forall i :: 0 <= i < |rs| ==> rs[i] in h) && rs != []
    ensures WeightAll(h, rs, k, keys) == Weight(h, rs[0], k, keys) + WeightAll(h, rs[1..], k, keys)
    decreases |rs|
  {
    var n := |rs| - 1;
    if n == 0 {
      assert rs[..0] == [] && rs[1..] == [];
    } else {
      SplitFirst(h, rs[..n], k, keys);
      assert rs[..n][1..] == rs[1..][..n - 1] && rs[1..][n - 1] == rs[n];
    }
  }

  /** The verdicts of the two guards. */
  ghost predicate StackAccepts(h: Heap, r: Ref, maxDepth: nat, maxNodes: nat)
    requires ClosedHeap(h) && r in h
  {
    !TooDeep(h, r, maxDepth + 1) && Weight(h, r, maxDepth + 1, true) <= maxNodes
  }

  ghost predicate RecursionAccepts(h: Heap, r: Ref, maxDepth: nat, maxNodes: nat)
    requires ClosedHeap(h) && r in h
  {
    !TooDeep(h, r, maxDepth + 1) && Weight(h, r, maxDepth + 1, false) <= maxNodes
  }

  /** The stack walk accepts exactly the data that is a finite tree whose nodes plus dict keys, and whose depth, are
      within the limits. */
  lemma StackAcceptsExactly(h: Heap, r: Ref, maxDepth: nat, maxNodes: nat)
    requires ClosedHeap(h) && r in h
    ensures StackAccepts(h, r, maxDepth, maxNodes) <==>
            exists t :: Unfolds(h, r, t) && Height(t) <= maxDepth + 1 && Nodes(t) + DictKeys(t) <= maxNodes
  {
    if !TooDeep(h, r, maxDepth + 1) {
      var t := TreeWithin(h, r, maxDepth + 1);
      TreeTells(h, r, t, maxDepth + 1);
    }
    if t :| Unfolds(h, r, t) && Height(t) <= maxDepth + 1 && Nodes(t) + DictKeys(t) <= maxNodes {
      TreeTells(h, r, t, maxDepth + 1);
    }
  }

  /** The recursive walk does not count keys. */
  lemma RecursionAcceptsExactly(h: Heap, r: Ref, maxDepth: nat, maxNodes: nat)
    requires ClosedHeap(h) && r in h
    ensures RecursionAccepts(h, r, maxDepth, maxNodes) <==>
            exists t :: Unfolds(h, r, t) && Height(t) <= maxDepth + 1 && Nodes(t) <= maxNodes
  {
    if !TooDeep(h, r, maxDepth + 1) {
      var t := TreeWithin(h, r, maxDepth + 1);
      TreeTells(h, r, t, maxDepth + 1);
    }
    if t :| Unfolds(h, r, t) && Height(t) <= maxDepth + 1 && Nodes(t) <= maxNodes {
      TreeTells(h, r, t, maxDepth + 1);
    }
  }

  /** Whatever the stack walk lets through, so does the recursive walk. */
  lemma StackIsStricter(h: Heap, r: Ref, maxDepth: nat, maxNodes: nat)
    requires ClosedHeap(h) && r in h && StackAccepts(h, r, maxDepth, maxNodes)
    ensures RecursionAccepts(h, r, maxDepth, maxNodes)
  {
    StackAcceptsExactly(h, r, maxDepth, maxNodes);
    RecursionAcceptsExactly(h, r, maxDepth, maxNodes);
  }

  /** The converse fails: a dict with one entry is two nodes to one guard and three to the other. */
  lemma StackIsStrictlyStricter()
    ensures var h: Heap := map[0 := Mapping([1]), 1 := Scalar];
            ClosedHeap(h) && RecursionAccepts(h, 0, 1, 2) && !StackAccepts(h, 0, 1, 2)
  {
    var h: Heap := map[0 := Mapping([1]), 1 := Scalar];
    var t := Dict(Cons(Leaf, Nil));
    assert Unfolds(h, 1, Leaf);
    assert UnfoldsAll(h, [1], Cons(Leaf, Nil));
    TreeTells(h, 0, t, 2);
  }

  ghost predicate LeadsBack(h: Heap, knot: set<Ref>, x: Ref) {
    x in h && exists i :: 0 <= i < |Children(h[x])| && Children(h[x])[i] in knot
  }

  /** Data that refers back to itself is refused by both guards, whatever the limits. */
  lemma {:induction false} CyclicIsTooDeep(h: Heap, knot: set<Ref>, r: Ref, k: nat)
    requires ClosedHeap(h) && r in knot && r in h
    requires forall x :: x in knot ==> LeadsBack(h, knot, x)
    ensures TooDeep(h, r, k)
    decreases k
  {
    if k > 0 {
      assert LeadsBack(h, knot, r);
      var i :| 0 <= i < |Children(h[r])| && Children(h[r])[i] in knot;
      CyclicIsTooDeep(h, knot, Children(h[r])[i], k - 1);
    }
  }
}
