/** Intersecting grant configurations (hierarchical_grant.py): a recursive meet and the order it bounds. */
module HierarchicalGrant {
  import opened Orders
  import opened Flows

  /** A parsed JSON value; numbers are exact. */
  datatype Value = Null | Bool(b: bool) | Num(n: real) | Str(s: string) | List(items: seq<Value>)
                 | Dict(entries: map<string, Value>)

  // --------------------------------------------------------------- the operation

  /** `isinstance(v, (int, float))`, which holds of booleans too. */
  predicate IsNumber(v: Value) { v.Bool? || v.Num? }

  function NumberOf(v: Value): real
    requires IsNumber(v)
  {
    if v.Bool? then (if v.b then 1.0 else 0.0) else v.n
  }

  predicate IsScalar(v: Value) { IsNumber(v) || v.Str? }

  /** Python's `==` on scalars, by which `True`, `1` and `1.0` are one set element. */
  predicate SameScalar(a: Value, b: Value) {
    (IsNumber(a) && IsNumber(b) && NumberOf(a) == NumberOf(b)) || (a.Str? && a == b)
  }

  predicate Listed(v: Value, items: seq<Value>) {
    IsScalar(v) && exists i :: 0 <= i < |items| && IsScalar(items[i]) && SameScalar(v, items[i])
  }

  function KeepListed(items: seq<Value>, allowed: seq<Value>): seq<Value> {
    if items == [] then []
    else KeepListed(items[..|items| - 1], allowed) + if Listed(items[|items| - 1], allowed) then [items[|items| - 1]]
        else []
  }

  /** What `_intersect_two` stores for a common key; `None` when it stores nothing. */
  function Meet(a: Value, b: Value): Option<Value>
    decreases a
  {
    if a.List? && b.List? then Some(List(KeepListed(a.items, b.items)))
    else if a.Bool? && b.Bool? then Some(Bool(a.b && b.b))
    else if IsNumber(a) && IsNumber(b) then Some(if NumberOf(b) < NumberOf(a) then b else a)
    else if a.Str? && b.Str? then Some(a)
    else if a.Dict? && b.Dict? then
      Some(Dict(map k | k in a.entries && k in b.entries && Meet(a.entries[k], b.entries[k]).Some? ::
                  Meet(a.entries[k], b.entries[k]).value))
    else None
  }

  /** `_intersect_two` on whole configurations. */
  function MeetConfigs(a: map<string, Value>, b: map<string, Value>): map<string, Value> {
    Meet(Dict(a), Dict(b)).value.entries
  }

  /** `intersect_config`, configurations listed from the root down. */
  function MeetAll(configs: seq<map<string, Value>>): map<string, Value> {
    if configs == [] then map[]
    else if |configs| == 1 then configs[0]
    else MeetConfigs(MeetAll(configs[..|configs| - 1]), configs[|configs| - 1])
  }

  method FilterItems(items: seq<Value>, allowed: seq<Value>) returns (kept: seq<Value>)
    ensures kept == KeepListed(items, allowed)
  {
    kept := [];
    for i := 0 to |items|
      invariant kept == KeepListed(items[..i], allowed)
    {
      assert items[..i + 1][..i] == items[..i];
      if Listed(items[i], allowed) { kept := kept + [items[i]]; }
    }
    TakeAll(items);
  }

  /** The loop over the common keys, in no particular order. */
  method IntersectTwo(a: map<string, Value>, b: map<string, Value>) returns (result: map<string, Value>)
    ensures result == MeetConfigs(a, b)
    decreases Dict(a), 0
  {
    result := map[];
    var todo := a.Keys * b.Keys;
    while todo != {}
      invariant todo <= a.Keys * b.Keys
      invariant forall k :: k in result <==> k in a && k in b && k !in todo && Meet(a[k], b[k]).Some?
      invariant forall k :: k in result ==> Some(result[k]) == Meet(a[k], b[k])
      decreases todo
    {
      var key :| key in todo;
      todo := todo - {key};
      assert Dict(a).entries == a;
      var met := IntersectValues(a[key], b[key]);
      if met.Some? { result := result[key := met.value]; }
    }
  }

  method IntersectValues(a: Value, b: Value) returns (met: Option<Value>)
    ensures met == Meet(a, b)
    decreases a, 1
  {
    if a.List? && b.List? {
      var kept := FilterItems(a.items, b.items);
      met := Some(List(kept));
    } else if a.Bool? && b.Bool? {
      met := Some(Bool(a.b && b.b));
    } else if IsNumber(a) && IsNumber(b) {
      met := Some(if NumberOf(b) < NumberOf(a) then b else a);
    } else if a.Str? && b.Str? {
      met := Some(a);
    } else if a.Dict? && b.Dict? {
      var entries := IntersectTwo(a.entries, b.entries);
      met := Some(Dict(entries));
    } else {
      met := None;
    }
  }

  method IntersectConfig(configs: seq<map<string, Value>>) returns (result: map<string, Value>)
    ensures result == MeetAll(configs)
  {
    if configs == [] { return map[]; }
    result := configs[0];
    for i := 1 to |configs|
      invariant result == MeetAll(configs[..i])
    {
      assert configs[..i + 1][..i] == configs[..i];
      result := IntersectTwo(result, configs[i]);
    }
    TakeAll(configs);
  }

  // ------------------------------------------------------------------- the order

  /** x allows no more than y: keys a subset, numbers at most, booleans implied, lists subsequences, strings equal,
      dicts recursively. */
  ghost predicate Below(x: Value, y: Value)
    decreases x
  {
    || x == y
    || (IsNumber(x) && IsNumber(y) && NumberOf(x) <= NumberOf(y))
    || (x.List? && y.List? && Subsequence(x.items, y.items))
    || (x.Dict? && y.Dict? && forall k :: k in x.entries ==> k in y.entries && Below(x.entries[k], y.entries[k]))
  }

  /** x stays within the bounds that a later configuration sets: as `Below`, but a string is not compared and a list
      only has to consist of listed scalars. */
  ghost predicate Within(x: Value, y: Value)
    decreases x
  {
    || (IsNumber(x) && IsNumber(y) && NumberOf(x) <= NumberOf(y))
    || (x.Str? && y.Str?)
    || (x.List? && y.List? && forall i :: 0 <= i < |x.items| ==> Listed(x.items[i], y.items))
    || (x.Dict? && y.Dict? && forall k :: k in x.entries ==> k in y.entries && Within(x.entries[k], y.entries[k]))
  }

  lemma {:induction false} BelowReflexive(x: Value)
    ensures Below(x, x)
  {
  }

  lemma {:induction false} BelowTransitive(x: Value, y: Value, z: Value)
    requires Below(x, y) && Below(y, z)
    ensures Below(x, z)
    decreases x
  {
    if x.List? && y.List? && z.List? {
      SubsequenceSelf(x.items);
      SubsequenceSelf(z.items);
      SubsequenceTransitive(x.items, y.items, z.items);
    } else if x.Dict? && y.Dict? && z.Dict? && x != y && y != z {
      forall k | k in x.entries ensures k in z.entries && Below(x.entries[k], z.entries[k]) {
        BelowTransitive(x.entries[k], y.entries[k], z.entries[k]);
      }
    }
  }

  // ------------------------------------------ the meet is the greatest lower bound

  lemma {:induction false} SubsequenceSnoc<T>(a: seq<T>, b: seq<T>, x: T)
    ensures Subsequence(a, b) ==> Subsequence(a, b + [x]) && Subsequence(a + [x], b + [x])
    decreases |b|
  {
    if Subsequence(a, b) {
      if b == [] {
        assert a == [] && a + [x] == [x] && b + [x] == [x];
      } else {
        assert (b + [x])[1..] == b[1..] + [x];
        SubsequenceSnoc(a, b[1..], x);
        if a != [] {
          assert (a + [x])[1..] == a[1..] + [x];
          SubsequenceSnoc(a[1..], b[1..], x);
        }
      }
    }
  }

  lemma {:induction false} SubsequenceFromSnoc<T>(a: seq<T>, b: seq<T>, x: T)
    requires Subsequence(a, b + [x]) && a != []
    ensures Subsequence(a, b) || (a[|a| - 1] == x && Subsequence(a[..|a| - 1], b))
    decreases |b|
  {
    var c := b + [x];
    if b == [] {
      assert c[1..] == [];
    } else {
      assert c[1..] == b[1..] + [x];
      if a[0] == b[0] && Subsequence(a[1..], c[1..]) {
        if |a| > 1 {
          SubsequenceFromSnoc(a[1..], b[1..], x);
          assert a[1..][..|a| - 2] == a[..|a| - 1][1..];
        }
      } else {
        SubsequenceFromSnoc(a, b[1..], x);
        if |a| > 1 && Subsequence(a[..|a| - 1], b[1..]) { }
      }
    }
  }

  ghost predicate AllListed(z: seq<Value>, allowed: seq<Value>) { forall i :: 0 <= i < |z| ==> Listed(z[i], allowed) }

  lemma {:induction false} KeptIsListed(z: seq<Value>, items: seq<Value>, allowed: seq<Value>)
    requires Subsequence(z, KeepListed(items, allowed))
    ensures Subsequence(z, items) && AllListed(z, allowed)
    decreases |items|
  {
    if items != [] && z != [] {
      var n, y := |items| - 1, z[..|z| - 1];
      var x, rest := items[n], KeepListed(items[..n], allowed);
      assert items == items[..n] + [x] && z == y + [z[|z| - 1]] && rest + [] == rest;
      if Subsequence(z, rest) {
        KeptIsListed(z, items[..n], allowed);
        SubsequenceSnoc(z, items[..n], x);
      } else {
        SubsequenceFromSnoc(z, rest, x);
        KeptIsListed(y, items[..n], allowed);
        SubsequenceSnoc(y, items[..n], x);
      }
    }
  }

  lemma {:induction false} ListedIsKept(z: seq<Value>, items: seq<Value>, allowed: seq<Value>)
    requires Subsequence(z, items) && AllListed(z, allowed)
    ensures Subsequence(z, KeepListed(items, allowed))
    decreases |items|
  {
    if items != [] && z != [] {
      var n, y := |items| - 1, z[..|z| - 1];
      var x, rest := items[n], KeepListed(items[..n], allowed);
      assert items == items[..n] + [x] && z == y + [z[|z| - 1]] && rest + [] == rest;
      if Subsequence(z, items[..n]) {
        ListedIsKept(z, items[..n], allowed);
        SubsequenceSnoc(z, rest, x);
      } else {
        SubsequenceFromSnoc(z, items[..n], x);
        ListedIsKept(y, items[..n], allowed);
        SubsequenceSnoc(y, rest, x);
      }
    }
  }

  /** The meet of two values is the largest value that is below the first and within the second; there is none exactly
      when the key is dropped. */
  lemma {:induction false} MeetIsGreatest(z: Value, a: Value, b: Value)
    ensures Below(z, a) && Within(z, b) <==> Meet(a, b).Some? && Below(z, Meet(a, b).value)
    decreases z
  {
    if a.List? && b.List? {
      if z.List? {
        SubsequenceSelf(z.items);
        if Subsequence(z.items, KeepListed(a.items, b.items)) { KeptIsListed(z.items, a.items, b.items); }
        if Subsequence(z.items, a.items) && AllListed(z.items, b.items) { ListedIsKept(z.items, a.items, b.items); }
      }
    } else if a.Dict? && b.Dict? {
      if z.Dict? { DictMeetIsGreatest(z, a, b); }
    }
  }

  lemma {:induction false} DictMeetIsGreatest(z: Value, a: Value, b: Value)
    requires z.Dict? && a.Dict? && b.Dict?
    ensures Below(z, a) && Within(z, b) <==> Below(z, Meet(a, b).value)
    decreases z, 0
  {
    var c := Meet(a, b).value;
    forall k | k in z.entries
      ensures (k in a.entries && Below(z.entries[k], a.entries[k]) && k in b.entries
              && Within(z.entries[k], b.entries[k])) <==>
              (k in c.entries && Below(z.entries[k], c.entries[k]))
    {
      if k in a.entries && k in b.entries { MeetIsGreatest(z.entries[k], a.entries[k], b.entries[k]); }
    }
    DictBelow(z, a);
    DictBelow(z, c);
  }

  lemma DictBelow(x: Value, y: Value)
    requires x.Dict? && y.Dict?
    ensures Below(x, y) <==> forall k :: k in x.entries ==> k in y.entries && Below(x.entries[k], y.entries[k])
  {
  }

  /** The meet is itself below the first operand and within the second. */
  lemma MeetIsBound(a: map<string, Value>, b: map<string, Value>)
    ensures Below(Dict(MeetConfigs(a, b)), Dict(a)) && Within(Dict(MeetConfigs(a, b)), Dict(b))
  {
    MeetIsGreatest(Meet(Dict(a), Dict(b)).value, Dict(a), Dict(b));
  }

  /** Adding configurations at the end only narrows the result: it is below the intersection of every prefix. */
  lemma {:induction false} MeetAllNarrows(configs: seq<map<string, Value>>, n: nat)
    requires 0 < n <= |configs|
    ensures Below(Dict(MeetAll(configs)), Dict(MeetAll(configs[..n])))
    decreases |configs|
  {
    if n == |configs| {
      TakeAll(configs);
    } else {
      var m := |configs| - 1;
      assert configs[..m][..n] == configs[..n];
      MeetAllNarrows(configs[..m], n);
      MeetIsBound(MeetAll(configs[..m]), configs[m]);
      BelowTransitive(Dict(MeetAll(configs)), Dict(MeetAll(configs[..m])), Dict(MeetAll(configs[..n])));
    }
  }

  /** z is below the root's configuration and within each of the others. */
  ghost predicate AllowedByAll(z: Value, configs: seq<map<string, Value>>) {
    configs == [] || (Below(z, Dict(configs[0])) && forall i :: 1 <= i < |configs| ==> Within(z, Dict(configs[i])))
  }

  lemma AllowedByLast(z: Value, configs: seq<map<string, Value>>)
    requires |configs| > 1
    ensures AllowedByAll(z, configs) <==>
            AllowedByAll(z, configs[..|configs| - 1]) && Within(z, Dict(configs[|configs| - 1]))
  {
  }

  /** A configuration is below the whole intersection exactly when every level of the hierarchy allows it: the
      intersection loses nothing. */
  lemma {:induction false} MeetAllIsGreatest(z: Value, configs: seq<map<string, Value>>)
    requires configs != []
    ensures Below(z, Dict(MeetAll(configs))) <==> AllowedByAll(z, configs)
    decreases |configs|
  {
    var m := |configs| - 1;
    if m > 0 {
      MeetAllIsGreatest(z, configs[..m]);
      AllowedByLast(z, configs);
      MeetIsGreatest(z, Dict(MeetAll(configs[..m])), Dict(configs[m]));
      assert MeetAll(configs) == MeetConfigs(MeetAll(configs[..m]), configs[m]);
    }
  }

  // ------------------------------------------------------------- lists, element by element

  /** The number a value stands for, if it stands for one. */
  ghost predicate Numeric(x: Value, n: real) {
    x == Num(n) || (x == Bool(true) && n == 1.0) || (x == Bool(false) && n == 0.0)
  }

  ghost predicate EqualNumbers(x: Value, y: Value) { exists n :: Numeric(x, n) && Numeric(y, n) }

  /** A string that is literally in the list, or a number or truth value of which an equal one is. */
  ghost predicate Partner(x: Value, items: seq<Value>) {
    (x.Str? && x in items) || exists y :: y in items && EqualNumbers(x, y)
  }

  lemma NumericExactly(x: Value, n: real)
    ensures Numeric(x, n) <==> IsNumber(x) && NumberOf(x) == n
  {
  }

  lemma EqualNumbersExactly(x: Value, y: Value)
    ensures EqualNumbers(x, y) <==> IsNumber(x) && IsNumber(y) && NumberOf(x) == NumberOf(y)
  {
    if IsNumber(x) && IsNumber(y) && NumberOf(x) == NumberOf(y) {
      NumericExactly(x, NumberOf(x));
      NumericExactly(y, NumberOf(x));
    }
  }

  lemma ListedExactly(x: Value, items: seq<Value>)
    ensures Listed(x, items) <==> Partner(x, items)
  {
    if Listed(x, items) {
      var i :| 0 <= i < |items| && IsScalar(items[i]) && SameScalar(x, items[i]);
      EqualNumbersExactly(x, items[i]);
      assert items[i] in items;
    }
    if x.Str? && x in items {
      var i :| 0 <= i < |items| && items[i] == x;
      assert SameScalar(x, items[i]);
    }
    if y :| y in items && EqualNumbers(x, y) {
      EqualNumbersExactly(x, y);
      var i :| 0 <= i < |items| && items[i] == y;
      assert SameScalar(x, items[i]);
    }
  }

  /** Which positions of a list are kept, in order. */
  ghost predicate Picks(kept: seq<Value>, items: seq<Value>, allowed: seq<Value>, at: seq<nat>) {
    && |at| == |kept|
    && (forall i :: 0 <= i < |at| ==> at[i] < |items| && kept[i] == items[at[i]])
    && (forall i, j :: 0 <= i < j < |at| ==> at[i] < at[j])
    && (forall p: nat :: p < |items| ==> (p in at <==> Partner(items[p], allowed)))
  }

  lemma PickLast(kept: seq<Value>, items: seq<Value>, allowed: seq<Value>, at: seq<nat>, x: Value)
    requires Picks(kept, items, allowed, at)
    ensures Partner(x, allowed) ==> Picks(kept + [x], items + [x], allowed, at + [|items|])
    ensures !Partner(x, allowed) ==> Picks(kept, items + [x], allowed, at)
  {
    var more := items + [x];
    forall p: nat | p < |more| ensures p in at + [|items|] <==> p in at || p == |items| { }
    forall p: nat | p < |items| ensures more[p] == items[p] { }
    assert |items| !in at;
  }

  lemma {:induction false} KeptPicks(items: seq<Value>, allowed: seq<Value>) returns (at: seq<nat>)
    ensures Picks(KeepListed(items, allowed), items, allowed, at)
    decreases |items|
  {
    if items == [] {
      at := [];
    } else {
      var before, x := items[..|items| - 1], items[|items| - 1];
      at := KeptPicks(before, allowed);
      ListedExactly(x, allowed);
      PickLast(KeepListed(before, allowed), before, allowed, at, x);
      assert items == before + [x] && KeepListed(before, allowed) + [] == KeepListed(before, allowed);
      if Partner(x, allowed) { at := at + [|before|]; }
    }
  }

  /** The meet of two lists is the first one without the elements that have no partner in the second: strings
      are kept if they are literally there, numbers and truth values if an equal one is, repetitions included,
      and nothing else. */
  lemma ListMeetExactly(a: seq<Value>, b: seq<Value>) returns (at: seq<nat>)
    ensures Meet(List(a), List(b)).Some? && Meet(List(a), List(b)).value.List?
    ensures Picks(Meet(List(a), List(b)).value.items, a, b, at)
  {
    at := KeptPicks(a, b);
  }

  /** The meet of two numbers or truth values is the smaller one. */
  lemma NumberMeetExactly(a: Value, b: Value, m: real, n: real)
    requires Numeric(a, m) && Numeric(b, n)
    ensures Meet(a, b).Some? && Numeric(Meet(a, b).value, if n < m then n else m)
  {
    NumericExactly(a, m);
    NumericExactly(b, n);
  }

  /** Whatever lists x contains, at any depth: every string of them is literally in the corresponding list of y, every
      number has an equal one there. */
  ghost predicate ListsInside(x: Value, y: Value)
    decreases x
  {
    && (x.List? ==> y.List? && forall i :: 0 <= i < |x.items| ==>
          && (x.items[i].Str? ==> x.items[i] in y.items)
          && (forall n :: Numeric(x.items[i], n) ==> exists z :: z in y.items && Numeric(z, n)))
    && (x.Dict? ==> y.Dict? && forall k :: k in x.entries ==> k in y.entries && ListsInside(x.entries[k], y.entries[k]))
  }

  lemma PartnerInside(x: Value, items: seq<Value>)
    requires Partner(x, items) || x in items
    ensures (x.Str? ==> x in items) && forall n :: Numeric(x, n) ==> exists z :: z in items && Numeric(z, n)
  {
    forall n | Numeric(x, n) ensures exists z :: z in items && Numeric(z, n) {
      if x !in items {
        var y :| y in items && EqualNumbers(x, y);
        var m :| Numeric(x, m) && Numeric(y, m);
        assert m == n;
      }
    }
    forall y ensures !(x.Str? && EqualNumbers(x, y)) { EqualNumbersExactly(x, y); }
  }

  lemma {:induction false} WithinInside(x: Value, y: Value)
    requires Within(x, y)
    ensures ListsInside(x, y)
    decreases x
  {
    if x.List? {
      forall i | 0 <= i < |x.items|
        ensures (x.items[i].Str? ==> x.items[i] in y.items)
             && forall n :: Numeric(x.items[i], n) ==> exists z :: z in y.items && Numeric(z, n)
      {
        ListedExactly(x.items[i], y.items);
        PartnerInside(x.items[i], y.items);
      }
    } else if x.Dict? {
      forall k | k in x.entries ensures k in y.entries && ListsInside(x.entries[k], y.entries[k]) {
        WithinInside(x.entries[k], y.entries[k]);
      }
    }
  }

  lemma {:induction false} SubsequenceMembers<T>(a: seq<T>, b: seq<T>, i: nat)
    requires Subsequence(a, b) && i < |a|
    ensures a[i] in b
    decreases |b|
  {
    if a[0] == b[0] && Subsequence(a[1..], b[1..]) {
      if i > 0 { SubsequenceMembers(a[1..], b[1..], i - 1); }
    } else {
      SubsequenceMembers(a, b[1..], i);
    }
  }

  lemma {:induction false} BelowInside(x: Value, y: Value)
    requires Below(x, y)
    ensures ListsInside(x, y)
    decreases x
  {
    if x.List? {
      SubsequenceSelf(x.items);
      forall i | 0 <= i < |x.items|
        ensures (x.items[i].Str? ==> x.items[i] in y.items)
             && forall n :: Numeric(x.items[i], n) ==> exists z :: z in y.items && Numeric(z, n)
      {
        SubsequenceMembers(x.items, y.items, i);
        PartnerInside(x.items[i], y.items);
      }
    } else if x.Dict? {
      forall k | k in x.entries ensures k in y.entries && ListsInside(x.entries[k], y.entries[k]) {
        if x == y { BelowReflexive(x.entries[k]); }
        BelowInside(x.entries[k], y.entries[k]);
      }
    }
  }
}
