/** Precedence graphs: emission orders, cycles, and what topological sorting leaves behind. Shared by the pack load
    order and by the ordering of flow steps. */
module Precedence {
  import opened Orders

  /** Each node maps to the nodes that must come before it. */
  type Graph = map<string, set<string>>

  ghost predicate ClosedGraph(g: Graph) {
    forall p :: p in g ==> g[p] <= g.Keys
  }

  /** Nodes not yet emitted whose prerequisites all are. */
  function Ready(g: Graph, done: set<string>): set<string> {
    set p | p in g && p !in done && g[p] <= done
  }

  /** Every emitted node comes after all its prerequisites. */
  ghost predicate Grounded(g: Graph, order: seq<string>) {
    && Distinct(order)
    && (forall i :: 0 <= i < |order| ==> order[i] in g)
    && (forall i, d :: 0 <= i < |order| && d in g[order[i]] ==> d in order[..i])
  }

  /** A grounded order that nothing can extend. */
  ghost predicate Maximal(g: Graph, order: seq<string>) {
    Grounded(g, order) && Ready(g, Elems(order)) == {}
  }

  ghost predicate Topological(g: Graph, order: seq<string>) {
    Grounded(g, order) && Elems(order) == g.Keys
  }

  // ------------------------------------------------------------------- cycles

  /** A walk from a node to one of its prerequisites, to one of theirs, and so on. */
  ghost predicate Walk(g: Graph, w: seq<string>) {
    && w != []
    && (forall i :: 0 <= i < |w| ==> w[i] in g)
    && (forall i :: 0 <= i < |w| - 1 ==> w[i + 1] in g[w[i]])
  }

  ghost predicate WalkBetween(g: Graph, w: seq<string>, x: string, y: string) {
    Walk(g, w) && w[0] == x && w[|w| - 1] == y
  }

  ghost predicate OnCycle(g: Graph, x: string) {
    exists w :: WalkBetween(g, w, x, x) && |w| >= 2
  }

  /** x is on a cycle or depends, directly or not, on a node that is. */
  ghost predicate BehindCycle(g: Graph, x: string) {
    exists w, y :: WalkBetween(g, w, x, y) && OnCycle(g, y)
  }

  ghost predicate Acyclic(g: Graph) {
    forall x :: x in g ==> !OnCycle(g, x)
  }

  /** Walking from an emitted node goes strictly backwards through a grounded order. */
  lemma {:induction false} WalkDescends(g: Graph, order: seq<string>, w: seq<string>, i: nat) returns (j: nat)
    requires Grounded(g, order) && Walk(g, w)
    requires i < |order| && w[0] == order[i]
    ensures j < |order| && w[|w| - 1] == order[j] && j <= i - (|w| - 1)
    decreases |w|
  {
    if |w| == 1 {
      j := i;
    } else {
      assert w[1] in g[order[i]];
      var k :| 0 <= k < i && order[k] == w[1];
      assert Walk(g, w[1..]);
      j := WalkDescends(g, order, w[1..], k);
    }
  }

  lemma EmittedNotBehindCycle(g: Graph, order: seq<string>, x: string)
    requires Grounded(g, order) && x in order
    ensures !BehindCycle(g, x)
  {
    if BehindCycle(g, x) {
      var w, y :| WalkBetween(g, w, x, y) && OnCycle(g, y);
      var c :| WalkBetween(g, c, y, y) && |c| >= 2;
      var i :| 0 <= i < |order| && order[i] == x;
      var j := WalkDescends(g, order, w, i);
      var k := WalkDescends(g, order, c, j);
    }
  }

  /** From a node that a maximal order left out, one can walk among left-out nodes forever. */
  lemma {:induction false} LongWalk(g: Graph, order: seq<string>, x: string, n: nat) returns (w: seq<string>)
    requires ClosedGraph(g) && Maximal(g, order)
    requires x in g && x !in order
    ensures Walk(g, w) && |w| == n + 1 && w[0] == x
    ensures Elems(w) <= g.Keys
    decreases n
  {
    if n == 0 {
      w := [x];
    } else {
      assert x !in Ready(g, Elems(order));
      assert exists d :: d in g[x] && d !in Elems(order);
      var d :| d in g[x] && d !in Elems(order);
      var v := LongWalk(g, order, d, n - 1);
      w := [x] + v;
    }
  }

  lemma LeftoverBehindCycle(g: Graph, order: seq<string>, x: string)
    requires ClosedGraph(g) && Maximal(g, order)
    requires x in g && x !in order
    ensures BehindCycle(g, x)
  {
    var w := LongWalk(g, order, x, |g.Keys|);
    var i, j := Pigeonhole(w, g.Keys);
    var c := w[i..j + 1];
    assert WalkBetween(g, c, w[i], w[i]);
    assert WalkBetween(g, w[..i + 1], x, w[i]);
  }

  /** What a maximal order leaves out is exactly what lies on or downstream of a cycle. */
  lemma LeftoverExactly(g: Graph, order: seq<string>)
    requires ClosedGraph(g) && Maximal(g, order)
    ensures forall x :: x in g ==> (x !in order <==> BehindCycle(g, x))
  {
    forall x | x in g ensures x !in order <==> BehindCycle(g, x) {
      if x in order {
        EmittedNotBehindCycle(g, order, x);
      } else {
        LeftoverBehindCycle(g, order, x);
      }
    }
  }

  /** A maximal order is complete exactly when the graph has no cycle. */
  lemma CompleteIffAcyclic(g: Graph, order: seq<string>)
    requires ClosedGraph(g) && Maximal(g, order)
    ensures Topological(g, order) <==> Acyclic(g)
  {
    LeftoverExactly(g, order);
    if Acyclic(g) {
      assert Elems(order) == g.Keys;
    } else {
      var x :| x in g && OnCycle(g, x);
      assert WalkBetween(g, [x], x, x);
    }
  }

  /** Counting emitted nodes is enough to detect completeness. */
  lemma CompleteByCount(g: Graph, order: seq<string>)
    requires Grounded(g, order)
    ensures |order| == |g.Keys| <==> Elems(order) == g.Keys
  {
    DistinctCard(order);
    assert Elems(order) <= g.Keys;
    if Elems(order) != g.Keys {
      var x :| x in g.Keys && x !in Elems(order);
      SubsetCard(Elems(order), g.Keys - {x});
    }
  }

  /** Maximal orders of one graph all emit the same nodes. */
  lemma MaximalAgree(g: Graph, a: seq<string>, b: seq<string>)
    requires ClosedGraph(g) && Maximal(g, a) && Maximal(g, b)
    ensures Elems(a) == Elems(b)
  {
    LeftoverExactly(g, a);
    LeftoverExactly(g, b);
  }

  // ------------------------------------------- least-first emission (a heap)

  /** Repeatedly emit the least ready node. */
  ghost function LeastFirst(g: Graph, done: set<string>): seq<string>
    decreases g.Keys - done
  {
    if Ready(g, done) == {} then []
    else
      var m := Least(Ready(g, done));
      assert m in g.Keys - done;
      [m] + LeastFirst(g, done + {m})
  }

  /** q emits nodes outside done, each after its prerequisites, until nothing is ready. */
  ghost predicate Continues(g: Graph, done: set<string>, q: seq<string>)
    decreases |q|
  {
    if q == [] then Ready(g, done) == {}
    else q[0] in Ready(g, done) && Continues(g, done + {q[0]}, q[1..])
  }

  lemma {:induction false} LeastFirstContinues(g: Graph, done: set<string>)
    ensures Continues(g, done, LeastFirst(g, done))
    decreases g.Keys - done
  {
    if Ready(g, done) != {} {
      var m := Least(Ready(g, done));
      assert m in g.Keys - done;
      LeastFirstContinues(g, done + {m});
    }
  }

  /** No other continuation comes before it lexicographically. */
  lemma {:induction false} LeastFirstIsLeast(g: Graph, done: set<string>, q: seq<string>)
    requires Continues(g, done, q)
    ensures LexLe(LeastFirst(g, done), q)
    decreases |q|
  {
    if Ready(g, done) != {} {
      var m := Least(Ready(g, done));
      if q[0] == m {
        LeastFirstIsLeast(g, done + {m}, q[1..]);
      }
    }
  }

  lemma NextIsReady(g: Graph, pre: seq<string>, q: seq<string>)
    requires q != [] && Grounded(g, pre + q)
    ensures q[0] in Ready(g, Elems(pre))
  {
    var r := pre + q;
    assert r[|pre|] == q[0] && r[..|pre|] == pre;
    assert forall k :: 0 <= k < |pre| ==> r[k] == pre[k];
  }

  /** Continuing from nothing is the same as being a maximal grounded order. */
  lemma {:induction false} ContinuesIffMaximal(g: Graph, pre: seq<string>, q: seq<string>)
    requires Grounded(g, pre)
    ensures Continues(g, Elems(pre), q) <==> Maximal(g, pre + q)
    decreases |q|
  {
    if q == [] {
      assert pre + q == pre;
    } else {
      if Grounded(g, pre + q) { NextIsReady(g, pre, q); }
      var pre' := pre + [q[0]];
      assert pre' + q[1..] == pre + q;
      assert Elems(pre') == Elems(pre) + {q[0]};
      if q[0] in Ready(g, Elems(pre)) {
        assert Grounded(g, pre') by {
          forall i, d | 0 <= i < |pre'| && d in g[pre'[i]] ensures d in pre'[..i] {
            if i < |pre| { assert pre'[..i] == pre[..i]; } else { assert pre'[..i] == pre; }
          }
        }
        ContinuesIffMaximal(g, pre', q[1..]);
      }
    }
  }

  lemma MaximalFromNothing(g: Graph, q: seq<string>)
    ensures Maximal(g, q) <==> Continues(g, {}, q)
  {
    ContinuesIffMaximal(g, [], q);
    assert [] + q == q;
    assert Elems<string>([]) == {};
  }

  /** Least-first emission is the lexicographically least maximal order. */
  lemma LeastFirstCorrect(g: Graph)
    ensures Maximal(g, LeastFirst(g, {}))
    ensures forall q :: Maximal(g, q) ==> LexLe(LeastFirst(g, {}), q)
  {
    LeastFirstContinues(g, {});
    MaximalFromNothing(g, LeastFirst(g, {}));
    forall q | Maximal(g, q) ensures LexLe(LeastFirst(g, {}), q) {
      MaximalFromNothing(g, q);
      LeastFirstIsLeast(g, {}, q);
    }
  }
}
