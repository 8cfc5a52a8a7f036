/** When two modifiers can be listed either way round (flow_modifier.py): exact conditions on the modifiers alone, for
    every flow they may be applied to. */
module ModifierSwaps {
  import opened Orders
  import opened Flows
  import opened FlowModifier
  import opened ModifierOrder

  predicate Ordinary(key: string) { key != FIRST && key != LAST }

  /** No step carries the id. */
  predicate Avoids(key: string, steps: seq<Step>) { forall i :: 0 <= i < |steps| ==> steps[i].id != key }

  /** A bare step with that id. */
  function Plain(id: string): Step { Step(id, "", 0, "", None, "") }

  /** A step with that id which is not x. */
  function Unlike(id: string, x: Step): (s: Step)
    ensures s.id == id && s != x
  {
    if x == Plain(id) then Plain(id).(rest := "other") else Plain(id)
  }

  lemma FindIs(s: seq<Step>, id: string, i: int)
    requires -1 <= i < |s| && (i >= 0 ==> s[i].id == id)
    requires forall k :: 0 <= k < |s| && (i < 0 || k < i) ==> s[k].id != id
    ensures Find(s, id) == i
  {
  }

  // ------------------------------------------------------------ two inject groups

  /** The steps after one inject group. */
  function PutGroup(s: seq<Step>, side: Kind, key: string, block: seq<Step>): seq<Step> {
    var i := Locate(s, key);
    if i < 0 then s else PutAt(s, Place(side, i), block)
  }

  function PutAt(s: seq<Step>, at: nat, block: seq<Step>): (r: seq<Step>)
    requires at <= |s|
    ensures |r| == |s| + |block|
  {
    s[..at] + block + s[at..]
  }

  /** Two ordinary targets: neither group injects the other's target. A positional target and an ordinary one: the
      positional group does not inject the ordinary target, and where both groups can end up on the same side of one
      step, they look the same in both orders. Two positional targets never meet. */
  predicate GroupsFit(side: Kind, j: string, a: seq<Step>, k: string, b: seq<Step>) {
    if Ordinary(k) then FitsOrdinary(side, j, a, k, b)
    else if Ordinary(j) then FitsOrdinary(side, k, b, j, a)
    else true
  }

  predicate FitsOrdinary(side: Kind, j: string, a: seq<Step>, k: string, b: seq<Step>) {
    && Avoids(k, a)
    && (Ordinary(j) ==> Avoids(j, b))
    && (j == (if side == Before then LAST else FIRST) ==> a + b == b + a)
  }

  lemma PutElement(s: seq<Step>, at: nat, block: seq<Step>, k: nat)
    requires at <= |s| && k < |s| + |block|
    ensures PutAt(s, at, block)[k] ==
            if k < at then s[k] else if k < at + |block| then block[k - at] else s[k - |block|]
  {
  }

  lemma FindAfterPut(s: seq<Step>, at: nat, block: seq<Step>, key: string)
    requires at <= |s| && Avoids(key, block)
    ensures Find(PutAt(s, at, block), key) == var l := Find(s, key); if l < at then l else l + |block|
  {
    var l, r := Find(s, key), PutAt(s, at, block);
    var l' := if l < at then l else l + |block|;
    forall k | 0 <= k < |r| && (l' < 0 || k < l') ensures r[k].id != key { PutElement(s, at, block, k); }
    if l' >= 0 { PutElement(s, at, block, l'); }
    FindIs(r, key, l');
  }

  /** Insertions at two places do not disturb each other; at the same place the second goes in front. */
  lemma PutTwice(s: seq<Step>, x: nat, a: seq<Step>, y: nat, b: seq<Step>)
    requires x <= y <= |s|
    ensures PutAt(PutAt(s, x, a), y + |a|, b) == PutAt(PutAt(s, y, b), x, a)
  {
    var p, q := PutAt(PutAt(s, x, a), y + |a|, b), PutAt(PutAt(s, y, b), x, a);
    assert p == s[..x] + a + s[x..y] + b + s[y..];
    assert q == s[..x] + a + s[x..y] + b + s[y..];
  }

  lemma PutSamePlace(s: seq<Step>, x: nat, a: seq<Step>, b: seq<Step>)
    requires x <= |s|
    ensures PutAt(PutAt(s, x, a), x, b) == PutAt(s, x, b + a) && PutAt(PutAt(s, x, a), x + |a|, b) == PutAt(s, x, a + b)
  {
    assert PutAt(PutAt(s, x, a), x, b) == s[..x] + b + a + s[x..];
    assert s[..x] + b + a + s[x..] == s[..x] + (b + a) + s[x..];
    assert PutAt(PutAt(s, x, a), x + |a|, b) == s[..x] + a + b + s[x..];
    assert s[..x] + a + b + s[x..] == s[..x] + (a + b) + s[x..];
  }

  /** The result of two groups in one order. */
  function Both(s: seq<Step>, side: Kind, j: string, a: seq<Step>, k: string, b: seq<Step>): seq<Step> {
    PutGroup(PutGroup(s, side, j, a), side, k, b)
  }

  function Place(side: Kind, i: nat): nat { if side == Before then i else i + 1 }

  /** Insertion on a side of position i. */
  function PutBeside(s: seq<Step>, side: Kind, i: nat, block: seq<Step>): seq<Step>
    requires i < |s|
  {
    PutAt(s, Place(side, i), block)
  }

  lemma PutBesideTwice(s: seq<Step>, side: Kind, i: nat, a: seq<Step>, l: nat, b: seq<Step>)
    requires i <= l < |s|
    ensures PutBeside(PutBeside(s, side, i, a), side, l + |a|, b) == PutBeside(PutBeside(s, side, l, b), side, i, a)
  {
    PutTwice(s, Place(side, i), a, Place(side, l), b);
  }

  lemma GroupBeside(s: seq<Step>, side: Kind, key: string, block: seq<Step>, i: nat)
    requires Locate(s, key) == i
    ensures PutGroup(s, side, key, block) == PutBeside(s, side, i, block)
  {
  }

  /** Both targets are there and each is still found at its step after the other group: the groups swap. */
  lemma PlacesSwap(s: seq<Step>, side: Kind, j: string, a: seq<Step>, k: string, b: seq<Step>, i: nat, l: nat)
    requires Locate(s, j) == i <= Locate(s, k) == l
    requires Locate(PutBeside(s, side, i, a), k) == l + |a|
    requires Locate(PutBeside(s, side, l, b), j) == i
    ensures PutGroup(PutGroup(s, side, j, a), side, k, b) == PutGroup(PutGroup(s, side, k, b), side, j, a)
  {
    GroupBeside(s, side, j, a, i);
    GroupBeside(s, side, k, b, l);
    GroupBeside(PutBeside(s, side, i, a), side, k, b, l + |a|);
    GroupBeside(PutBeside(s, side, l, b), side, j, a, i);
    PutBesideTwice(s, side, i, a, l, b);
  }

  /** One target is missing and the other group does not bring it in. */
  lemma MissingSwap(s: seq<Step>, side: Kind, j: string, a: seq<Step>, k: string, b: seq<Step>)
    requires Locate(s, k) < 0 && Locate(PutGroup(s, side, j, a), k) < 0
    ensures Both(s, side, j, a, k, b) == Both(s, side, k, b, j, a)
  {
  }

  /** Both groups go next to the same step, on the same side, in either order. */
  lemma MeetingSwap(s: seq<Step>, side: Kind, j: string, a: seq<Step>, k: string, b: seq<Step>)
    requires 0 <= Locate(s, j) == Locate(s, k) && a + b == b + a
    requires var i := Locate(s, j);
             var at := Place(side, i);
             && Locate(PutAt(s, at, a), k) == (if side == Before then i + |a| else i)
             && Locate(PutAt(s, at, b), j) == (if side == Before then i + |b| else i)
    ensures Both(s, side, j, a, k, b) == Both(s, side, k, b, j, a)
  {
    PutSamePlace(s, Place(side, Locate(s, j)), a, b);
    PutSamePlace(s, Place(side, Locate(s, j)), b, a);
  }

  lemma OrdinarySwap(s: seq<Step>, side: Kind, j: string, a: seq<Step>, k: string, b: seq<Step>)
    requires Ordinary(j) && Ordinary(k) && j != k && Avoids(k, a) && Avoids(j, b)
    requires Find(s, j) < Find(s, k)
    ensures Both(s, side, j, a, k, b) == Both(s, side, k, b, j, a)
  {
    FindAfterPut(s, Place(side, Find(s, k)), b, j);
    if Find(s, j) >= 0 {
      FindAfterPut(s, Place(side, Find(s, j)), a, k);
      PlacesSwap(s, side, j, a, k, b, Find(s, j), Find(s, k));
    } else {
      MissingSwap(s, side, k, b, j, a);
    }
  }

  lemma FirstSwap(s: seq<Step>, side: Kind, a: seq<Step>, k: string, b: seq<Step>)
    requires Ordinary(k) && Avoids(k, a) && (side == Before || a + b == b + a)
    ensures Both(s, side, FIRST, a, k, b) == Both(s, side, k, b, FIRST, a)
  {
    if s != [] {
      FindAfterPut(s, Place(side, 0), a, k);
      if Find(s, k) < 0 {
        MissingSwap(s, side, FIRST, a, k, b);
      } else if Find(s, k) == 0 && side != Before {
        MeetingSwap(s, side, FIRST, a, k, b);
      } else {
        PlacesSwap(s, side, FIRST, a, k, b, 0, Find(s, k));
      }
    }
  }

  lemma LastSwap(s: seq<Step>, side: Kind, a: seq<Step>, k: string, b: seq<Step>)
    requires Ordinary(k) && Avoids(k, a) && (side == Before ==> a + b == b + a)
    ensures Both(s, side, LAST, a, k, b) == Both(s, side, k, b, LAST, a)
  {
    if s != [] {
      FindAfterPut(s, Place(side, |s| - 1), a, k);
      if Find(s, k) < 0 {
        MissingSwap(s, side, LAST, a, k, b);
      } else if Find(s, k) == |s| - 1 && side == Before {
        MeetingSwap(s, side, LAST, a, k, b);
      } else {
        PlacesSwap(s, side, k, b, LAST, a, Find(s, k), |s| - 1);
      }
    }
  }

  lemma PositionsSwap(s: seq<Step>, side: Kind, a: seq<Step>, b: seq<Step>)
    ensures Both(s, side, FIRST, a, LAST, b) == Both(s, side, LAST, b, FIRST, a)
  {
    if s != [] { PlacesSwap(s, side, FIRST, a, LAST, b, 0, |s| - 1); }
  }

  lemma FittingGroupsSwap(s: seq<Step>, side: Kind, j: string, a: seq<Step>, k: string, b: seq<Step>)
    requires j != k && GroupsFit(side, j, a, k, b)
    ensures Both(s, side, j, a, k, b) == Both(s, side, k, b, j, a)
  {
    if Ordinary(j) && Ordinary(k) {
      if Find(s, j) < Find(s, k) {
        OrdinarySwap(s, side, j, a, k, b);
      } else if Find(s, k) < Find(s, j) {
        OrdinarySwap(s, side, k, b, j, a);
      }
    } else if Ordinary(k) {
      if j == FIRST { FirstSwap(s, side, a, k, b); } else { LastSwap(s, side, a, k, b); }
    } else if Ordinary(j) {
      if k == FIRST { FirstSwap(s, side, b, j, a); } else { LastSwap(s, side, b, j, a); }
    } else if j == FIRST {
      PositionsSwap(s, side, a, b);
    } else {
      PositionsSwap(s, side, b, a);
    }
  }

  /** A flow on which a group that injects the other's target makes a difference: the target is found in one order
      only. */
  lemma CaptureShows(side: Kind, j: string, a: seq<Step>, k: string, b: seq<Step>) returns (s: seq<Step>)
    requires j != k && Ordinary(k) && !Avoids(k, a) && b != []
    ensures Both(s, side, j, a, k, b) != Both(s, side, k, b, j, a)
  {
    var x := if Ordinary(j) then Plain(j) else Plain(k + "x");
    assert |k + "x"| != |k|;
    s := [x];
    FindIs(s, j, if x.id == j then 0 else -1);
    FindIs(s, k, -1);
    var r := PutGroup(s, side, j, a);
    var i :| 0 <= i < |a| && a[i].id == k;
    assert r == (if side == Before then a + [x] else [x] + a);
    assert r[if side == Before then i else i + 1].id == k;
    assert Find(r, k) >= 0;
  }

  /** And one on which a positional and an ordinary group meet at the same step. */
  lemma MeetingShows(side: Kind, j: string, a: seq<Step>, k: string, b: seq<Step>) returns (s: seq<Step>)
    requires Ordinary(k) && j == (if side == Before then LAST else FIRST) && Avoids(k, a) && a + b != b + a
    ensures Both(s, side, j, a, k, b) != Both(s, side, k, b, j, a)
  {
    s := [Plain(k)];
    FindIs(s, k, 0);
    var x := if side == Before then 0 else 1;
    FindAfterPut(s, x, a, k);
    PutSamePlace(s, x, a, b);
    PutSamePlace(s, x, b, a);
    assert PutAt(s, x, a + b)[x..x + |a + b|] == a + b && PutAt(s, x, b + a)[x..x + |a + b|] == b + a;
  }

  lemma MisfitShows(side: Kind, j: string, a: seq<Step>, k: string, b: seq<Step>) returns (s: seq<Step>)
    requires j != k && a != [] && b != [] && Ordinary(k) && !FitsOrdinary(side, j, a, k, b)
    ensures Both(s, side, j, a, k, b) != Both(s, side, k, b, j, a)
  {
    if !Avoids(k, a) {
      s := CaptureShows(side, j, a, k, b);
    } else if Ordinary(j) && !Avoids(j, b) {
      s := CaptureShows(side, k, b, j, a);
    } else {
      s := MeetingShows(side, j, a, k, b);
    }
  }

  /** Two groups of one side with different targets can be taken in either order, whatever the steps, if and only if
      they fit. */
  lemma GroupsSwapExactly(side: Kind, j: string, a: seq<Step>, k: string, b: seq<Step>)
    requires j != k && a != [] && b != []
    ensures (forall s :: Both(s, side, j, a, k, b) == Both(s, side, k, b, j, a)) <==> GroupsFit(side, j, a, k, b)
  {
    if GroupsFit(side, j, a, k, b) {
      forall s ensures Both(s, side, j, a, k, b)
          == Both(s, side, k, b, j, a) { FittingGroupsSwap(s, side, j, a, k, b); }
    } else if Ordinary(k) {
      var s := MisfitShows(side, j, a, k, b);
    } else {
      var s := MisfitShows(side, k, b, j, a);
    }
  }

  // -------------------------------------------------- two replacements or removals

  function Without(s: seq<Step>, i: nat): seq<Step>
    requires i < |s|
  {
    s[..i] + s[i + 1..]
  }

  /** The steps after one replacement or removal. */
  function One(s: seq<Step>, m: Modifier): seq<Step> {
    var i := Locate(s, Target(m));
    if i < 0 then s
    else if m.action.Replace? then s[i := StepFrom(m)]
    else if m.action.Remove? then Without(s, i)
    else s
  }

  /** Two replacements of different ordinary steps: neither puts the other's target. At the same place they put the
      same step; a replacement of the first step fits no ordinary one, a replacement of the last fits unless it puts
      the other's target. */
  predicate ReplacementsFit(t: string, r: Step, u: string, q: Step) {
    if r == q && (t == u || (!Ordinary(t) && !Ordinary(u))) then true
    else if t == u then false
    else if Ordinary(t) && Ordinary(u) then r.id != u && q.id != t
    else if t == LAST && Ordinary(u) then r.id != u || r == q
    else if u == LAST && Ordinary(t) then q.id != t || r == q
    else false
  }

  /** A replacement at t and a removal at u. */
  predicate ReplaceAndRemoveFit(t: string, r: Step, u: string) {
    t != u && if Ordinary(t) && Ordinary(u) then r.id != u else if Ordinary(u) then false else u == LAST || t == LAST
  }

  predicate SinglesFit(m: Modifier, n: Modifier) {
    if m.action.Replace? && n.action.Replace? then ReplacementsFit(Target(m), StepFrom(m), Target(n), StepFrom(n))
    else if m.action.Replace? && n.action.Remove? then ReplaceAndRemoveFit(Target(m), StepFrom(m), Target(n))
    else if m.action.Remove? && n.action.Replace? then ReplaceAndRemoveFit(Target(n), StepFrom(n), Target(m))
    else if m.action.Remove? && n.action.Remove? then Ordinary(Target(m)) == Ordinary(Target(n))
    else true
  }

  lemma FindAfterReplace(s: seq<Step>, i: nat, x: Step, key: string)
    requires i < |s| && s[i].id != key && x.id != key
    ensures Find(s[i := x], key) == Find(s, key)
  {
    FindIs(s[i := x], key, Find(s, key));
  }

  lemma FindAfterRemove(s: seq<Step>, i: nat, key: string)
    requires i < |s| && s[i].id != key
    ensures Find(Without(s, i), key) == var l := Find(s, key); if l < i then l else l - 1
  {
    var r, l := Without(s, i), Find(s, key);
    FindIs(r, key, if l < i then l else l - 1);
  }

  lemma FindWithoutLast(s: seq<Step>, key: string)
    requires s != []
    ensures var n := |s| - 1; Find(s[..n], key) == if Find(s, key) < n then Find(s, key) else -1
  {
    var n := |s| - 1;
    FindIs(s[..n], key, if Find(s, key) < n then Find(s, key) else -1);
  }

  lemma FindWithOtherLast(s: seq<Step>, x: Step, key: string)
    requires s != [] && x.id != key
    ensures var n := |s| - 1; Find(s[n := x], key) == if Find(s, key) < n then Find(s, key) else -1
  {
    var n := |s| - 1;
    FindIs(s[n := x], key, if Find(s, key) < n then Find(s, key) else -1);
  }

  lemma ReplaceThenRemove(s: seq<Step>, i: nat, x: Step, l: nat)
    requires i < |s| && l < |s| && i != l
    ensures Without(s[i := x], l) == Without(s, l)[if i < l then i else i - 1 := x]
  {
  }

  lemma RemoveTwice(s: seq<Step>, i: nat, l: nat)
    requires i < l < |s|
    ensures Without(Without(s, i), l - 1) == Without(Without(s, l), i)
  {
  }

  lemma ReplacePair(s: seq<Step>, m: Modifier, n: Modifier)
    requires Ordinary(Target(m)) && Ordinary(Target(n)) && Target(m) != Target(n) && m.action.Replace?
    requires n.action.Replace?
    requires StepFrom(m).id != Target(n) && StepFrom(n).id != Target(m)
    ensures One(One(s, m), n) == One(One(s, n), m)
  {
    var i, l := Find(s, Target(m)), Find(s, Target(n));
    if i >= 0 { FindAfterReplace(s, i, StepFrom(m), Target(n)); }
    if l >= 0 { FindAfterReplace(s, l, StepFrom(n), Target(m)); }
  }

  lemma ReplaceRemovePair(s: seq<Step>, m: Modifier, n: Modifier)
    requires Ordinary(Target(m)) && Ordinary(Target(n)) && Target(m) != Target(n) && m.action.Replace?
    requires n.action.Remove?
    requires StepFrom(m).id != Target(n)
    ensures One(One(s, m), n) == One(One(s, n), m)
  {
    var i, l := Find(s, Target(m)), Find(s, Target(n));
    if i >= 0 { FindAfterReplace(s, i, StepFrom(m), Target(n)); }
    if l >= 0 { FindAfterRemove(s, l, Target(m)); }
    if i >= 0 && l >= 0 { ReplaceThenRemove(s, i, StepFrom(m), l); }
  }

  lemma RemovePair(s: seq<Step>, m: Modifier, n: Modifier)
    requires Ordinary(Target(m)) && Ordinary(Target(n)) && Target(m) != Target(n) && m.action.Remove?
    requires n.action.Remove?
    ensures One(One(s, m), n) == One(One(s, n), m)
  {
    var i, l := Find(s, Target(m)), Find(s, Target(n));
    if i >= 0 { FindAfterRemove(s, i, Target(n)); }
    if l >= 0 { FindAfterRemove(s, l, Target(m)); }
    if i >= 0 && l >= 0 {
      if i < l { RemoveTwice(s, i, l); } else { RemoveTwice(s, l, i); }
    }
  }

  lemma SameReplacement(s: seq<Step>, m: Modifier, n: Modifier)
    requires m.action.Replace? && n.action.Replace? && StepFrom(m) == StepFrom(n)
    requires Target(m) == Target(n) || (!Ordinary(Target(m)) && !Ordinary(Target(n)))
    ensures One(One(s, m), n) == One(One(s, n), m)
  {
  }

  lemma LastReplaced(s: seq<Step>, m: Modifier, n: Modifier)
    requires m.action.Replace? && Target(m) == LAST && n.action.Replace? && Ordinary(Target(n))
    requires StepFrom(m).id != Target(n) || StepFrom(m) == StepFrom(n)
    ensures One(One(s, m), n) == One(One(s, n), m)
  {
    if s != [] {
      var x := StepFrom(m);
      if x.id != Target(n) {
        FindWithOtherLast(s, x, Target(n));
      } else {
        var l := Find(s, Target(n));
        FindIs(s[|s| - 1 := x], Target(n), if 0 <= l < |s| - 1 then l else |s| - 1);
      }
    }
  }

  lemma LastRemoved(s: seq<Step>, m: Modifier, n: Modifier)
    requires m.action.Replace? && Ordinary(Target(m)) && n.action.Remove? && Target(n) == LAST
    ensures One(One(s, m), n) == One(One(s, n), m)
  {
    if s != [] {
      FindWithoutLast(s, Target(m));
      assert One(s, n) == s[..|s| - 1];
    }
  }

  lemma PositionPair(s: seq<Step>, m: Modifier, n: Modifier)
    requires Target(m) == FIRST && Target(n) == LAST && (m.action.Remove? || n.action.Remove?)
    ensures One(One(s, m), n) == One(One(s, n), m)
  {
    if |s| > 1 {
      RemoveTwice(s, 0, |s| - 1);
      ReplaceThenRemove(s, 0, StepFrom(m), |s| - 1);
      ReplaceThenRemove(s, |s| - 1, StepFrom(n), 0);
    }
  }

  lemma FittingSinglesSwap(s: seq<Step>, m: Modifier, n: Modifier)
    requires SinglesFit(m, n)
    ensures One(One(s, m), n) == One(One(s, n), m)
  {
    var t, u := Target(m), Target(n);
    var rm, rn := m.action.Replace?, n.action.Replace?;
    if (!rm && !m.action.Remove?) || (!rn && !n.action.Remove?) {
    } else if m.action.Remove? && n.action.Remove? && t == u {
    } else if Ordinary(t) && Ordinary(u) && t != u {
      if rm && rn {
        ReplacePair(s, m, n);
      } else if rm {
        ReplaceRemovePair(s, m, n);
      } else if rn {
        ReplaceRemovePair(s, n, m);
      } else {
        RemovePair(s, m, n);
      }
    } else if rm && rn {
      if StepFrom(m) == StepFrom(n) && (t == u || (!Ordinary(t) && !Ordinary(u))) {
        SameReplacement(s, m, n);
      } else if t == LAST {
        LastReplaced(s, m, n);
      } else {
        LastReplaced(s, n, m);
      }
    } else if Ordinary(t) {
      LastRemoved(s, m, n);
    } else if Ordinary(u) {
      LastRemoved(s, n, m);
    } else if t == FIRST {
      PositionPair(s, m, n);
    } else {
      PositionPair(s, n, m);
    }
  }

  // ------------------------------------------- flows on which the order shows

  /** Whether the order of m and n shows on s. */
  predicate Shows(s: seq<Step>, m: Modifier, n: Modifier) { One(One(s, m), n) != One(One(s, n), m) }

  /** How lists of at most two steps are searched and changed. */
  lemma Small(x: Step, y: Step)
    ensures forall k :: Find([x, y], k) == if x.id == k then 0 else if y.id == k then 1 else -1
    ensures forall k :: Find([x], k) == if x.id == k then 0 else -1
    ensures Without([x, y], 0) == [y] && Without([x, y], 1) == [x] && Without([x], 0) == []
  {
    forall k ensures Find([x, y], k) == if x.id == k then 0 else if y.id == k then 1 else -1 {
      FindIs([x, y], k, if x.id == k then 0 else if y.id == k then 1 else -1);
    }
    forall k ensures Find([x], k) == if x.id == k then 0 else -1 { FindIs([x], k, if x.id == k then 0 else -1); }
  }

  /** One modifier on a list of one or two steps. */
  lemma OneOnSmall(x: Step, y: Step, m: Modifier)
    requires m.action.Replace? || m.action.Remove?
    ensures var t, r := Target(m), StepFrom(m);
            && One([x], m) == (if Ordinary(t) && x.id != t then [x] else if m.action.Replace? then [r] else [])
            && One([x, y], m)
                == (if t == FIRST || (Ordinary(t) && x.id == t) then (if m.action.Replace? then [r, y] else [y])
                                  else if t == LAST || y.id == t then (if m.action.Replace? then [x, r] else [x])
                                  else [x, y])
            && One([], m) == []
  {
    Small(x, y);
    assert [x][0 := StepFrom(m)] == [StepFrom(m)] && [x, y][0 := StepFrom(m)] == [StepFrom(m), y]
        && [x, y][1 := StepFrom(m)] == [x, StepFrom(m)];
  }

  lemma SameTargetShows(m: Modifier, n: Modifier) returns (s: seq<Step>)
    requires m.action.Replace? && n.action.Replace? && Target(m) == Target(n) && StepFrom(m) != StepFrom(n)
    ensures Shows(s, m, n)
  {
    var t, r, q := Target(m), StepFrom(m), StepFrom(n);
    var x := Plain(t);
    if !Ordinary(t) || (r.id == t <==> q.id == t) {
      s := [x];
      OneOnSmall(x, x, m);
      OneOnSmall(x, x, n);
      OneOnSmall(r, r, n);
      OneOnSmall(q, q, m);
    } else {
      var y := Unlike(t, if r.id == t then r else q);
      s := [x, y];
      OneOnSmall(x, y, m);
      OneOnSmall(x, y, n);
      OneOnSmall(r, y, n);
      OneOnSmall(q, y, m);
    }
  }

  lemma CapturedReplacementShows(m: Modifier, n: Modifier) returns (s: seq<Step>)
    requires m.action.Replace? && n.action.Replace? && Ordinary(Target(m)) && Ordinary(Target(n))
    requires Target(m) != Target(n)
    requires StepFrom(m).id == Target(n)
    ensures Shows(s, m, n)
  {
    var x, y := Plain(Target(m)), Unlike(Target(n), StepFrom(n));
    s := [x, y];
    OneOnSmall(x, y, m);
    OneOnSmall(StepFrom(m), y, n);
    OneOnSmall(x, y, n);
    OneOnSmall(x, StepFrom(n), m);
  }

  lemma PositionsShow(m: Modifier, n: Modifier) returns (s: seq<Step>)
    requires m.action.Replace? && n.action.Replace? && !Ordinary(Target(m)) && !Ordinary(Target(n))
    requires StepFrom(m) != StepFrom(n)
    ensures Shows(s, m, n)
  {
    var x := Plain("");
    s := [x];
    OneOnSmall(x, x, m);
    OneOnSmall(x, x, n);
    OneOnSmall(StepFrom(m), x, n);
    OneOnSmall(StepFrom(n), x, m);
  }

  lemma PositionedReplacementShows(m: Modifier, n: Modifier) returns (s: seq<Step>)
    requires m.action.Replace? && n.action.Replace? && !Ordinary(Target(m)) && Ordinary(Target(n))
    requires Target(m) == LAST ==> StepFrom(m).id == Target(n) && StepFrom(m) != StepFrom(n)
    ensures Shows(s, m, n)
  {
    var u, r, q := Target(n), StepFrom(m), StepFrom(n);
    var other := Plain(u + "x");
    assert |u + "x"| != |u|;
    if Target(m) == LAST {
      s := [other];
      OneOnSmall(other, other, m);
      OneOnSmall(r, r, n);
      OneOnSmall(other, other, n);
    } else {
      var x, y := if r.id == u then other else Plain(u), Unlike(u, q);
      s := [x, y];
      OneOnSmall(x, y, m);
      OneOnSmall(r, y, n);
      OneOnSmall(x, y, n);
      OneOnSmall(q, y, m);
      OneOnSmall(x, q, m);
    }
  }

  lemma ReplacementsMisfitShow(m: Modifier, n: Modifier) returns (s: seq<Step>)
    requires m.action.Replace? && n.action.Replace? && !SinglesFit(m, n)
    ensures Shows(s, m, n)
  {
    var t, u := Target(m), Target(n);
    if t == u {
      s := SameTargetShows(m, n);
    } else if Ordinary(t) && Ordinary(u) {
      if StepFrom(m).id == u { s := CapturedReplacementShows(m, n); } else { s := CapturedReplacementShows(n, m); }
    } else if Ordinary(u) {
      s := PositionedReplacementShows(m, n);
    } else if Ordinary(t) {
      s := PositionedReplacementShows(n, m);
    } else {
      s := PositionsShow(m, n);
    }
  }

  /** A replacement at an ordinary step. */
  lemma ReplaceRemoveShow(m: Modifier, n: Modifier) returns (s: seq<Step>)
    requires m.action.Replace? && n.action.Remove? && Ordinary(Target(m)) && !SinglesFit(m, n)
    ensures Shows(s, m, n)
  {
    var t, u, r := Target(m), Target(n), StepFrom(m);
    var x, y := Plain(t), Unlike(t, r);
    if Ordinary(u) && (t != u || r.id != t) {
      s := [x];
      OneOnSmall(x, x, m);
      OneOnSmall(r, r, n);
      OneOnSmall(x, x, n);
      OneOnSmall(x, x, m);
    } else {
      s := [x, y];
      OneOnSmall(x, y, m);
      OneOnSmall(r, y, n);
      OneOnSmall(x, y, n);
      OneOnSmall(y, y, m);
    }
  }

  /** A replacement at the first or last step. */
  lemma PositionedRemoveShow(m: Modifier, n: Modifier) returns (s: seq<Step>)
    requires m.action.Replace? && n.action.Remove? && !Ordinary(Target(m)) && !SinglesFit(m, n)
    ensures Shows(s, m, n)
  {
    var t, u, r := Target(m), Target(n), StepFrom(m);
    var other := Plain(u + "x");
    assert |u + "x"| != |u|;
    if t == u {
      var x := Unlike("", r);
      s := [x, x];
      OneOnSmall(x, x, m);
      OneOnSmall(r, x, n);
      OneOnSmall(x, r, n);
      OneOnSmall(x, x, n);
    } else if t == FIRST {
      var x := Plain(u);
      s := [x, other];
      OneOnSmall(x, other, m);
      OneOnSmall(r, other, n);
      OneOnSmall(x, other, n);
      OneOnSmall(other, other, m);
    } else {
      var x := if r.id == u then other else Plain(u);
      s := [x];
      OneOnSmall(x, x, m);
      OneOnSmall(r, r, n);
      OneOnSmall(x, x, n);
    }
  }

  lemma RemovalsShow(m: Modifier, n: Modifier) returns (s: seq<Step>)
    requires m.action.Remove? && n.action.Remove? && !Ordinary(Target(m)) && Ordinary(Target(n))
    ensures Shows(s, m, n)
  {
    var x, other := Plain(Target(n)), Plain(Target(n) + "x");
    assert |Target(n) + "x"| != |Target(n)|;
    s := if Target(m) == FIRST then [x, other] else [other, x];
    OneOnSmall(x, other, m);
    OneOnSmall(other, x, m);
    OneOnSmall(x, other, n);
    OneOnSmall(other, x, n);
    OneOnSmall(other, other, m);
  }

  lemma SinglesMisfitShow(m: Modifier, n: Modifier) returns (s: seq<Step>)
    requires !SinglesFit(m, n)
    ensures Shows(s, m, n)
  {
    if m.action.Replace? && n.action.Replace? {
      s := ReplacementsMisfitShow(m, n);
    } else if m.action.Replace? {
      if Ordinary(Target(m)) { s := ReplaceRemoveShow(m, n); } else { s := PositionedRemoveShow(m, n); }
    } else if n.action.Replace? {
      if Ordinary(Target(n)) { s := ReplaceRemoveShow(n, m); } else { s := PositionedRemoveShow(n, m); }
    } else if Ordinary(Target(n)) {
      s := RemovalsShow(m, n);
    } else {
      s := RemovalsShow(n, m);
    }
  }

  /** Two replacements or removals can be taken in either order, whatever the steps, if and only if they fit. */
  lemma SinglesSwapExactly(m: Modifier, n: Modifier)
    ensures (forall s :: One(One(s, m), n) == One(One(s, n), m)) <==> SinglesFit(m, n)
  {
    if SinglesFit(m, n) {
      forall s ensures One(One(s, m), n) == One(One(s, n), m) { FittingSinglesSwap(s, m, n); }
    } else {
      var s := SinglesMisfitShow(m, n);
    }
  }
}
