/** What injections and appends amount to without reference to the order in which they are listed (flow_modifier.py). */
module ModifierOrder {
  import opened Orders
  import opened Flows
  import opened FlowModifier
  import opened ModifierLaws

  // --------------------------------------------------------------- closed form

  /** The steps injected on account of a target. */
  function Block(ms: seq<Modifier>, key: string): seq<Step> { StepsFrom(Group(ms, key)) }

  /** Read s once; around the first step with a key of kb the before-block, with a key of ka the after-block. */
  function Expand(s: seq<Step>, b: seq<Modifier>, kb: set<string>, a: seq<Modifier>, ka: set<string>): seq<Step> {
    if s == [] then []
    else
      var id := s[0].id;
      (if id in kb then Block(b, id) else []) + [s[0]] + (if id in ka then Block(a, id) else [])
      + Expand(s[1..], b, kb - {id}, a, ka - {id})
  }

  /** No injected step carries a targeted id, and no target is positional. */
  ghost predicate Independent(b: seq<Modifier>, a: seq<Modifier>, keys: set<string>) {
    && FIRST !in keys && LAST !in keys
    && (forall k, s :: s in Block(b, k) || s in Block(a, k) ==> s.id !in keys)
  }

  lemma {:induction false} ExpandNothing(s: seq<Step>, b: seq<Modifier>, a: seq<Modifier>)
    ensures Expand(s, b, {}, a, {}) == s
  {
    if s != [] {
      ExpandNothing(s[1..], b, a);
      assert {} - {s[0].id} == {};
    }
  }

  lemma ExpandPlain(x: Step, s: seq<Step>, b: seq<Modifier>, kb: set<string>, a: seq<Modifier>, ka: set<string>)
    requires x.id !in kb && x.id !in ka
    ensures Expand([x] + s, b, kb, a, ka) == [x] + Expand(s, b, kb, a, ka)
  {
    assert ([x] + s)[1..] == s && kb - {x.id} == kb && ka - {x.id} == ka;
    assert [] + [x] + [] == [x];
  }

  /** Steps that nobody targets are copied. */
  lemma {:induction false} ExpandCopies(c: seq<Step>, s: seq<Step>, b: seq<Modifier>, kb: set<string>,
                                        a: seq<Modifier>, ka: set<string>)
    requires forall x :: x in c ==> x.id !in kb && x.id !in ka
    ensures Expand(c + s, b, kb, a, ka) == c + Expand(s, b, kb, a, ka)
    decreases |c|
  {
    if c == [] {
      assert c + s == s;
    } else {
      assert c[0] in c && c == [c[0]] + c[1..];
      ExpandCopies(c[1..], s, b, kb, a, ka);
      Reassociate([c[0]], c[1..], s);
      ExpandPlain(c[0], c[1..] + s, b, kb, a, ka);
      Reassociate([c[0]], c[1..], Expand(s, b, kb, a, ka));
    }
  }

  /** Inserting a block before the first step with id k. */
  function PutBefore(s: seq<Step>, k: string, block: seq<Step>): seq<Step> {
    if s == [] then [] else if s[0].id == k then block + s else [s[0]] + PutBefore(s[1..], k, block)
  }

  function PutAfter(s: seq<Step>, k: string, block: seq<Step>): seq<Step> {
    if s == [] then [] else if s[0].id == k then [s[0]] + block + s[1..] else [s[0]] + PutAfter(s[1..], k, block)
  }

  lemma Shift(h: Step, t: seq<Step>, i: nat, block: seq<Step>)
    requires i <= |t|
    ensures [h] + (t[..i] + block + t[i..]) == ([h] + t)[..i + 1] + block + ([h] + t)[i + 1..]
  {
  }

  lemma {:induction false} PutBeforeIsInsert(s: seq<Step>, k: string, block: seq<Step>)
    ensures var i := Find(s, k); PutBefore(s, k, block) == if i < 0 then s else s[..i] + block + s[i..]
  {
    if s != [] && s[0].id != k {
      PutBeforeIsInsert(s[1..], k, block);
      assert s == [s[0]] + s[1..];
      var j := Find(s[1..], k);
      if j >= 0 { Shift(s[0], s[1..], j, block); }
    }
  }

  lemma {:induction false} PutAfterIsInsert(s: seq<Step>, k: string, block: seq<Step>)
    ensures var i := Find(s, k); PutAfter(s, k, block) == if i < 0 then s else s[..i + 1] + block + s[i + 1..]
  {
    if s != [] && s[0].id != k {
      PutAfterIsInsert(s[1..], k, block);
      assert s == [s[0]] + s[1..];
      var j := Find(s[1..], k);
      if j >= 0 { Shift(s[0], s[1..], j + 1, block); }
    }
  }

  lemma PlusMinus(ks: set<string>, k: string, id: string)
    ensures id == k && k !in ks ==> ks + {k} - {id} == ks == ks - {id}
    ensures id != k ==> ks + {k} - {id} == ks - {id} + {k}
  {
  }

  lemma BeforeHead(s: seq<Step>, k: string, b: seq<Modifier>, kb: set<string>, a: seq<Modifier>, ka: set<string>)
    requires s != [] && s[0].id == k && k !in kb && forall x :: x in Block(b, k) ==> x.id !in kb && x.id !in ka
    ensures Expand(Block(b, k) + s, b, kb, a, ka) == Expand(s, b, kb + {k}, a, ka)
  {
    ExpandCopies(Block(b, k), s, b, kb, a, ka);
    PlusMinus(kb, k, k);
    LeadingBlock(Block(b, k), [s[0]], if k in ka then Block(a, k) else [], Expand(s[1..], b, kb, a, ka - {k}));
  }

  lemma LeadingBlock(p: seq<Step>, x: seq<Step>, q: seq<Step>, r: seq<Step>)
    ensures p + ([] + x + q + r) == p + x + q + r
  {
  }

  /** Pulling one before-key out of the expansion. */
  lemma {:induction false} ExpandBefore(s: seq<Step>, k: string, b: seq<Modifier>, kb: set<string>, a: seq<Modifier>,
                                        ka: set<string>)
    requires k !in kb && forall x :: x in Block(b, k) ==> x.id !in kb && x.id !in ka
    ensures Expand(PutBefore(s, k, Block(b, k)), b, kb, a, ka) == Expand(s, b, kb + {k}, a, ka)
  {
    if s != [] {
      var id := s[0].id;
      if id == k {
        BeforeHead(s, k, b, kb, a, ka);
      } else {
        ExpandBefore(s[1..], k, b, kb - {id}, a, ka - {id});
        PlusMinus(kb, k, id);
      }
    }
  }

  lemma {:induction false} ExpandAfter(s: seq<Step>, k: string, b: seq<Modifier>, kb: set<string>, a: seq<Modifier>,
                                       ka: set<string>)
    requires k !in ka && forall x :: x in Block(a, k) ==> x.id !in kb && x.id !in ka
    ensures Expand(PutAfter(s, k, Block(a, k)), b, kb, a, ka) == Expand(s, b, kb, a, ka + {k})
  {
    if s != [] {
      var id := s[0].id;
      if id == k {
        ExpandCopies(Block(a, k), s[1..], b, kb - {k}, a, ka);
        AfterHead(s, k, b, kb, a, ka);
        Reassociate([s[0]], Block(a, k), s[1..]);
      } else {
        ExpandAfter(s[1..], k, b, kb - {id}, a, ka - {id});
        PlusMinus(ka, k, id);
      }
    }
  }

  /** What the first step of a list expands to, apart from its after-block. */
  function Head(x: Step, b: seq<Modifier>, kb: set<string>): seq<Step> {
    (if x.id in kb then Block(b, x.id) else []) + [x]
  }

  lemma ExpandUntargeted(x: Step, s: seq<Step>, b: seq<Modifier>, kb: set<string>, a: seq<Modifier>, ka: set<string>)
    requires x.id !in ka
    ensures Expand([x] + s, b, kb, a, ka) == Head(x, b, kb) + Expand(s, b, kb - {x.id}, a, ka)
  {
    assert ([x] + s)[1..] == s && ka - {x.id} == ka;
    assert Head(x, b, kb) + [] == Head(x, b, kb);
  }

  lemma ExpandTargeted(x: Step, s: seq<Step>, b: seq<Modifier>, kb: set<string>, a: seq<Modifier>, ka: set<string>)
    requires x.id !in ka
    ensures Expand([x] + s, b, kb, a, ka + {x.id}) == Head(x, b, kb) + Block(a, x.id) + Expand(s, b, kb - {x.id}, a, ka)
  {
    PlusMinus(ka, x.id, x.id);
    assert ([x] + s)[1..] == s && x.id in ka + {x.id};
  }

  lemma AfterHead(s: seq<Step>, k: string, b: seq<Modifier>, kb: set<string>, a: seq<Modifier>, ka: set<string>)
    requires s != [] && s[0].id == k && k !in ka
    requires Expand(Block(a, k) + s[1..], b, kb - {k}, a, ka) == Block(a, k) + Expand(s[1..], b, kb - {k}, a, ka)
    ensures Expand([s[0]] + (Block(a, k) + s[1..]), b, kb, a, ka) == Expand(s, b, kb, a, ka + {k})
  {
    var tail := Expand(s[1..], b, kb - {k}, a, ka);
    ExpandUntargeted(s[0], Block(a, k) + s[1..], b, kb, a, ka);
    ExpandTargeted(s[0], s[1..], b, kb, a, ka);
    assert s == [s[0]] + s[1..];
    Reassociate(Head(s[0], b, kb), Block(a, k), tail);
  }

  lemma {:induction false} AllBefore(p: Progress, b: seq<Modifier>, keys: seq<string>, a: seq<Modifier>,
                                     ka: set<string>, all: set<string>)
    requires Distinct(keys) && Independent(b, a, all) && Elems(keys) <= all && ka <= all
    ensures Expand(InjectAll(p, Before, keys, b).steps, b, {}, a, ka) == Expand(p.steps, b, Elems(keys), a, ka)
    decreases |keys|
  {
    ghost var none: set<string> := {};
    BeforeUpTo(p, b, keys, a, ka, all, none);
    assert none + Elems(keys) == Elems(keys);
  }

  lemma LastKey(keys: seq<string>, kb: set<string>)
    requires keys != [] && Distinct(keys)
    ensures var n := |keys| - 1;
            && Distinct(keys[..n]) && keys[n] !in keys[..n]
            && Elems(keys) == Elems(keys[..n]) + {keys[n]}
            && kb + Elems(keys) == (kb + {keys[n]}) + Elems(keys[..n])
  {
    var n := |keys| - 1;
    assert keys == keys[..n] + [keys[n]];
  }

  lemma LastBefore(p: Progress, b: seq<Modifier>, keys: seq<string>)
    requires keys != [] && keys[|keys| - 1] != FIRST && keys[|keys| - 1] != LAST
    ensures var n := |keys| - 1;
            InjectAll(p, Before, keys, b).steps
            == PutBefore(InjectAll(p, Before, keys[..n], b).steps, keys[n], Block(b, keys[n]))
  {
    var n := |keys| - 1;
    PutBeforeIsInsert(InjectAll(p, Before, keys[..n], b).steps, keys[n], Block(b, keys[n]));
  }

  lemma LastAfter(p: Progress, a: seq<Modifier>, keys: seq<string>)
    requires keys != [] && keys[|keys| - 1] != FIRST && keys[|keys| - 1] != LAST
    ensures var n := |keys| - 1;
            InjectAll(p, After, keys, a).steps
            == PutAfter(InjectAll(p, After, keys[..n], a).steps, keys[n], Block(a, keys[n]))
  {
    var n := |keys| - 1;
    PutAfterIsInsert(InjectAll(p, After, keys[..n], a).steps, keys[n], Block(a, keys[n]));
  }

  lemma {:induction false} BeforeUpTo(p: Progress, b: seq<Modifier>, keys: seq<string>, a: seq<Modifier>,
                                      ka: set<string>, all: set<string>, kb: set<string>)
    requires Distinct(keys) && Independent(b, a, all) && Elems(keys) <= all && ka <= all && kb <= all
    requires Elems(keys) !! kb
    ensures Expand(InjectAll(p, Before, keys, b).steps, b, kb, a, ka) == Expand(p.steps, b, kb + Elems(keys), a, ka)
    decreases |keys|
  {
    if keys == [] {
      assert kb + Elems(keys) == kb;
    } else {
      var n := |keys| - 1;
      LastKey(keys, kb);
      LastBefore(p, b, keys);
      ExpandBefore(InjectAll(p, Before, keys[..n], b).steps, keys[n], b, kb, a, ka);
      BeforeUpTo(p, b, keys[..n], a, ka, all, kb + {keys[n]});
    }
  }

  lemma {:induction false} AfterUpTo(p: Progress, b: seq<Modifier>, a: seq<Modifier>, keys: seq<string>,
                                     all: set<string>, ka: set<string>)
    requires Distinct(keys) && Independent(b, a, all) && Elems(keys) <= all && ka <= all && Elems(keys) !! ka
    ensures Expand(InjectAll(p, After, keys, a).steps, b, {}, a, ka) == Expand(p.steps, b, {}, a, ka + Elems(keys))
    decreases |keys|
  {
    if keys == [] {
      assert ka + Elems(keys) == ka;
    } else {
      var n := |keys| - 1;
      LastKey(keys, ka);
      LastAfter(p, a, keys);
      ExpandAfter(InjectAll(p, After, keys[..n], a).steps, keys[n], b, {}, a, ka);
      AfterUpTo(p, b, a, keys[..n], all, ka + {keys[n]});
    }
  }

  /** All injections together expand each targeted step once, on both sides, whatever the group order. */
  lemma InjectionsExpand(p: Progress, b: seq<Modifier>, a: seq<Modifier>)
    requires Independent(b, a, Elems(KeysOf(b)) + Elems(KeysOf(a)))
    ensures InjectAll(InjectAll(p, Before, KeysOf(b), b), After, KeysOf(a), a).steps ==
            Expand(p.steps, b, Elems(KeysOf(b)), a, Elems(KeysOf(a)))
  {
    var all := Elems(KeysOf(b)) + Elems(KeysOf(a));
    var q := InjectAll(p, Before, KeysOf(b), b);
    var r := InjectAll(q, After, KeysOf(a), a);
    KeysDistinct(b);
    KeysDistinct(a);
    ExpandNothing(r.steps, b, a);
    AfterUpTo(q, b, a, KeysOf(a), all, {});
    assert {} + Elems(KeysOf(a)) == Elems(KeysOf(a));
    AllBefore(p, b, KeysOf(b), a, Elems(KeysOf(a)), all);
  }

  // ------------------------------------------------------------------- appends

  /** A block put at the end of the phases up to rank. */
  function PutAtEnd(s: seq<Step>, phases: seq<string>, rank: int, block: seq<Step>): seq<Step> {
    if s == [] || PhaseIndex(phases, s[0].phase) > rank then block + s
    else [s[0]] + PutAtEnd(s[1..], phases, rank, block)
  }

  ghost predicate OfRank(phases: seq<string>, rank: int, block: seq<Step>) {
    forall x :: x in block ==> PhaseIndex(phases, x.phase) == rank
  }

  lemma {:induction false} EndAfterBlock(c: seq<Step>, s: seq<Step>, phases: seq<string>, rank: int, block: seq<Step>)
    requires forall x :: x in c ==> PhaseIndex(phases, x.phase) <= rank
    ensures PutAtEnd(c + s, phases, rank, block) == c + PutAtEnd(s, phases, rank, block)
  {
    if c == [] {
      assert c + s == s;
    } else {
      assert c[0] in c && forall x :: x in c[1..] ==> x in c;
      assert (c + s)[1..] == c[1..] + s;
      EndAfterBlock(c[1..], s, phases, rank, block);
    }
  }

  lemma {:induction false} AppendStepIsPut(s: seq<Step>, phases: seq<string>, x: Step)
    ensures AppendStep(s, phases, x) == PutAtEnd(s, phases, PhaseIndex(phases, x.phase), [x])
  {
    var rank := PhaseIndex(phases, x.phase);
    if s != [] && PhaseIndex(phases, s[0].phase) <= rank {
      AppendStepIsPut(s[1..], phases, x);
      Shift(s[0], s[1..], EndOfPhase(s[1..], phases, rank), [x]);
      assert s == [s[0]] + s[1..];
    }
  }

  lemma {:induction false} PutOneMore(s: seq<Step>, phases: seq<string>, rank: int, block: seq<Step>, x: Step)
    requires OfRank(phases, rank, block)
    ensures PutAtEnd(PutAtEnd(s, phases, rank, block), phases, rank, [x]) == PutAtEnd(s, phases, rank, block + [x])
  {
    if s == [] || PhaseIndex(phases, s[0].phase) > rank {
      EndAfterBlock(block, s, phases, rank, [x]);
      assert block + ([x] + s) == block + [x] + s;
    } else {
      PutOneMore(s[1..], phases, rank, block, x);
    }
  }

  lemma AppendStepsNext(s: seq<Step>, phases: seq<string>, block: seq<Step>, x: Step)
    ensures AppendSteps(s, phases, block + [x]) == AppendStep(AppendSteps(s, phases, block), phases, x)
  {
    assert (block + [x])[..|block|] == block;
  }

  lemma {:induction false} AppendStepsIsPut(s: seq<Step>, phases: seq<string>, rank: int, block: seq<Step>)
    requires OfRank(phases, rank, block)
    ensures AppendSteps(s, phases, block) == PutAtEnd(s, phases, rank, block)
    decreases |block|
  {
    if block == [] {
      PutNothing(s, phases, rank);
    } else {
      var before, x := block[..|block| - 1], block[|block| - 1];
      assert block == before + [x] && x in block;
      AppendStepsIsPut(s, phases, rank, before);
      AppendStepsNext(s, phases, before, x);
      PutLast(s, phases, rank, before, x);
    }
  }

  lemma PutLast(s: seq<Step>, phases: seq<string>, rank: int, block: seq<Step>, x: Step)
    requires OfRank(phases, rank, block) && OfRank(phases, rank, [x])
    ensures AppendStep(PutAtEnd(s, phases, rank, block), phases, x) == PutAtEnd(s, phases, rank, block + [x])
  {
    assert x in [x];
    AppendStepIsPut(PutAtEnd(s, phases, rank, block), phases, x);
    PutOneMore(s, phases, rank, block, x);
  }

  lemma {:induction false} PutNothing(s: seq<Step>, phases: seq<string>, rank: int)
    ensures PutAtEnd(s, phases, rank, []) == s
  {
    if s != [] && PhaseIndex(phases, s[0].phase) <= rank { PutNothing(s[1..], phases, rank); }
  }

  /** Blocks of different phases can be appended in either order. */
  lemma {:induction false} PutsCommute(s: seq<Step>, phases: seq<string>, p: int, x: seq<Step>, q: int, y: seq<Step>)
    requires p < q && OfRank(phases, p, x) && OfRank(phases, q, y)
    ensures PutAtEnd(PutAtEnd(s, phases, p, x), phases, q, y) == PutAtEnd(PutAtEnd(s, phases, q, y), phases, p, x)
  {
    if s == [] || PhaseIndex(phases, s[0].phase) > q {
      EndAfterBlock(x, s, phases, q, y);
      if y != [] { assert y[0] in y; }
      assert x + (y + s) == x + y + s;
    } else if PhaseIndex(phases, s[0].phase) > p {
      EndAfterBlock(x, s, phases, q, y);
    } else {
      PutsCommute(s[1..], phases, p, x, q, y);
    }
  }

  /** The append phase, looking at the steps only. */
  function AppendBlocks(s: seq<Step>, phases: seq<string>, keys: seq<string>, e: seq<Modifier>): seq<Step> {
    if keys == [] then s
    else PutAtEnd(AppendBlocks(s, phases, keys[..|keys| - 1], e), phases, PhaseIndex(phases, keys[|keys| - 1]),
                  Block(e, keys[|keys| - 1]))
  }

  ghost predicate AllAppends(phases: seq<string>, e: seq<Modifier>) {
    forall m :: m in e ==> m.action.Append? && m.phase in phases
  }

  lemma BlockOfPhase(phases: seq<string>, e: seq<Modifier>, key: string)
    requires AllAppends(phases, e)
    ensures OfRank(phases, PhaseIndex(phases, key), Block(e, key))
  {
    GroupIn(e, key);
    var g := Group(e, key);
    forall x | x in Block(e, key) ensures x.phase == key {
      var i :| 0 <= i < |g| && StepsFrom(g)[i] == x;
      assert g[i] in g;
    }
  }

  lemma {:induction false} AppendAllIsBlocks(p: Progress, phases: seq<string>, keys: seq<string>, e: seq<Modifier>)
    requires AllAppends(phases, e)
    ensures AppendAll(p, phases, keys, e).steps == AppendBlocks(p.steps, phases, keys, e)
    decreases |keys|
  {
    if keys != [] {
      var n := |keys| - 1;
      AppendAllIsBlocks(p, phases, keys[..n], e);
      BlockOfPhase(phases, e, keys[n]);
      AppendStepsIsPut(AppendBlocks(p.steps, phases, keys[..n], e), phases, PhaseIndex(phases, keys[n]),
                       Block(e, keys[n]));
    }
  }

  lemma RanksDiffer(phases: seq<string>, j: string, k: string)
    requires j in phases && k in phases && j != k
    ensures PhaseIndex(phases, j) != PhaseIndex(phases, k)
  {
  }

  lemma SwapBlocks(s: seq<Step>, phases: seq<string>, e: seq<Modifier>, j: string, k: string)
    requires AllAppends(phases, e) && j in phases && k in phases && j != k
    ensures var rj, rk := PhaseIndex(phases, j), PhaseIndex(phases, k);
            PutAtEnd(PutAtEnd(s, phases, rj, Block(e, j)), phases, rk, Block(e, k)) ==
            PutAtEnd(PutAtEnd(s, phases, rk, Block(e, k)), phases, rj, Block(e, j))
  {
    BlockOfPhase(phases, e, j);
    BlockOfPhase(phases, e, k);
    RanksDiffer(phases, j, k);
    if PhaseIndex(phases, j) < PhaseIndex(phases, k) {
      PutsCommute(s, phases, PhaseIndex(phases, j), Block(e, j), PhaseIndex(phases, k), Block(e, k));
    } else {
      PutsCommute(s, phases, PhaseIndex(phases, k), Block(e, k), PhaseIndex(phases, j), Block(e, j));
    }
  }

  /** Any group may as well be appended last. */
  lemma {:induction false} MoveLast(s: seq<Step>, phases: seq<string>, e: seq<Modifier>, l1: seq<string>, k: string,
                                    l2: seq<string>)
    requires AllAppends(phases, e) && k in phases && k !in l2 && forall j :: j in l2 ==> j in phases
    ensures AppendBlocks(s, phases, l1 + [k] + l2, e) ==
            PutAtEnd(AppendBlocks(s, phases, l1 + l2, e), phases, PhaseIndex(phases, k), Block(e, k))
    decreases |l2|
  {
    if l2 == [] {
      assert l1 + [k] + l2 == l1 + [k] && (l1 + [k])[..|l1|] == l1 && l1 + l2 == l1;
    } else {
      var n := |l2| - 1;
      assert l2[n] in l2;
      MoveLast(s, phases, e, l1, k, l2[..n]);
      SwapBlocks(AppendBlocks(s, phases, l1 + l2[..n], e), phases, e, l2[n], k);
      BlocksUnfold(s, phases, e, l1 + [k], l2);
      BlocksUnfold(s, phases, e, l1, l2);
    }
  }

  lemma BlocksUnfold(s: seq<Step>, phases: seq<string>, e: seq<Modifier>, a: seq<string>, b: seq<string>)
    requires b != []
    ensures AppendBlocks(s, phases, a + b, e) ==
            PutAtEnd(AppendBlocks(s, phases, a + b[..|b| - 1], e), phases, PhaseIndex(phases, b[|b| - 1]),
                     Block(e, b[|b| - 1]))
  {
    LastOf(a, b);
  }

  lemma LastOf(a: seq<string>, b: seq<string>)
    requires b != []
    ensures a + b != [] && (a + b)[|a + b| - 1] == b[|b| - 1] && (a + b)[..|a + b| - 1] == a + b[..|b| - 1]
  {
  }

  lemma SplitAt(keys: seq<string>, k: string) returns (l1: seq<string>, l2: seq<string>)
    requires Distinct(keys) && k in keys
    ensures keys == l1 + [k] + l2 && Distinct(l1 + l2) && forall j :: j in l1 + l2 <==> j in keys && j != k
  {
    var i :| 0 <= i < |keys| && keys[i] == k;
    l1, l2 := keys[..i], keys[i + 1..];
    assert keys == l1 + [k] + l2;
  }

  /** The order in which the append groups were first seen has no influence. */
  lemma {:induction false} AppendOrderIrrelevant(s: seq<Step>, phases: seq<string>, e: seq<Modifier>,
                                                 keys: seq<string>, keys': seq<string>)
    requires AllAppends(phases, e) && Distinct(keys) && Distinct(keys') && forall j :: j in keys ==> j in phases
    requires forall j :: j in keys <==> j in keys'
    ensures AppendBlocks(s, phases, keys, e) == AppendBlocks(s, phases, keys', e)
    decreases |keys|
  {
    if keys == [] {
      assert Elems(keys') == {};
      EmptyElems(keys');
    } else {
      var n := |keys| - 1;
      var k := keys[n];
      LastKey(keys, {});
      assert forall j :: j in keys <==> j in keys[..n] || j == k by { assert keys == keys[..n] + [k]; }
      var l1, l2 := SplitAt(keys', k);
      assert forall j :: j in l2 ==> j in l1 + l2;
      MoveLast(s, phases, e, l1, k, l2);
      AppendOrderIrrelevant(s, phases, e, keys[..n], l1 + l2);
    }
  }
}
