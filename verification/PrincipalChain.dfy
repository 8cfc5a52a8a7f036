/** Principal ids such as "company__team__member" and their chains (hierarchical_grant.py). */
module PrincipalChain {
  import opened Orders
  import opened Flows

  const SEP := "__"

  predicate SepAt(s: string, i: nat) { i + 1 < |s| && s[i] == '_' && s[i + 1] == '_' }

  /** Position of the first separator, or -1. */
  function FindSep(s: string): (i: int)
    ensures i == -1 || (0 <= i && SepAt(s, i))
    ensures forall k: nat :: (i < 0 || k < i) ==> !SepAt(s, k)
  {
    if s == [] then -1
    else if SepAt(s, 0) then 0
    else
      var i := FindSep(s[1..]);
      assert forall k: nat :: k > 0 ==> (SepAt(s, k) <==> SepAt(s[1..], k - 1));
      if i < 0 then -1 else i + 1
  }

  /** `s.split("__")` */
  function Split(s: string): (parts: seq<string>)
    ensures parts != []
    decreases |s|
  {
    var i := FindSep(s);
    if i < 0 then [s] else [s[..i]] + Split(s[i + 2..])
  }

  /** `"__".join(parts)` */
  function Join(parts: seq<string>): string {
    if parts == [] then "" else if |parts| == 1 then parts[0] else parts[0] + SEP + Join(parts[1..])
  }

  /** `parse_principal_chain`: the joins of all non-empty prefixes. */
  function Chain(id: string): seq<string> {
    var parts := Split(id);
    seq(|parts|, i requires 0 <= i < |parts| => Join(parts[..i + 1]))
  }

  predicate IsHierarchical(id: string) { FindSep(id) >= 0 }

  function GetParent(id: string): Option<string> {
    if !IsHierarchical(id) then None else var parts := Split(id); Some(Join(parts[..|parts| - 1]))
  }

  function GetRoot(id: string): string { Split(id)[0] }

  // ------------------------------------------------------------ split and join

  /** No part but the last runs into the separator that follows it; the last holds none. */
  ghost predicate WellSplit(parts: seq<string>) {
    && parts != []
    && (forall k :: 0 <= k < |parts| - 1 ==> FindSep(parts[k] + SEP) == |parts[k]|)
    && FindSep(parts[|parts| - 1]) == -1
  }

  /** The position of the first separator is decided by the text up to and including it. */
  lemma FirstSep(s: string, i: nat)
    requires SepAt(s, i) && forall k: nat :: k < i ==> !SepAt(s, k)
    ensures FindSep(s) == i
  {
  }

  lemma SepDecided(p: string, rest: string)
    ensures FindSep(p + SEP) == |p| ==> FindSep(p + SEP + rest) == |p|
    ensures FindSep(p + SEP) == |p| ==> FindSep(p) == -1
  {
    if FindSep(p + SEP) == |p| {
      forall k: nat | k < |p| ensures !SepAt(p + SEP + rest, k) && !SepAt(p, k) {
        assert !SepAt(p + SEP, k);
      }
      assert SepAt(p + SEP + rest, |p|);
      FirstSep(p + SEP + rest, |p|);
    }
  }

  lemma {:induction false} SplitIsWell(s: string)
    ensures WellSplit(Split(s))
    decreases |s|
  {
    var i := FindSep(s);
    if i >= 0 {
      SplitIsWell(s[i + 2..]);
      var t := s[..i] + SEP;
      assert t == s[..i + 2];
      assert SepAt(t, i) && forall k: nat :: k < i ==> (SepAt(t, k) <==> SepAt(s, k));
      FirstSep(t, i);
      var parts, tail := Split(s), Split(s[i + 2..]);
      assert parts == [s[..i]] + tail;
      assert forall k :: 0 < k < |parts| ==> parts[k] == tail[k - 1];
    }
  }

  lemma {:induction false} JoinOfSplit(s: string)
    ensures Join(Split(s)) == s
    decreases |s|
  {
    var i := FindSep(s);
    if i >= 0 {
      JoinOfSplit(s[i + 2..]);
      assert Split(s)[1..] == Split(s[i + 2..]);
      assert s == s[..i] + SEP + s[i + 2..];
    }
  }

  lemma WellSplitTail(parts: seq<string>)
    requires WellSplit(parts) && |parts| > 1
    ensures WellSplit(parts[1..])
  {
    assert forall k :: 0 <= k < |parts| - 1 ==> parts[1..][k] == parts[k + 1];
  }

  lemma SplitFirst(p: string, parts: seq<string>)
    requires WellSplit([p] + parts) && parts != []
    ensures Split(p + SEP + Join(parts)) == [p] + Split(Join(parts))
  {
    var s := p + SEP + Join(parts);
    assert ([p] + parts)[0] == p;
    SepDecided(p, Join(parts));
    assert s[..|p|] == p && s[|p| + 2..] == Join(parts);
  }

  lemma {:induction false} SplitOfJoin(parts: seq<string>)
    requires WellSplit(parts)
    ensures Split(Join(parts)) == parts
    decreases |parts|
  {
    if |parts| > 1 {
      WellSplitTail(parts);
      SplitOfJoin(parts[1..]);
      assert parts == [parts[0]] + parts[1..];
      SplitFirst(parts[0], parts[1..]);
    } else {
      assert parts == [parts[0]];
    }
  }

  /** A prefix of well-split parts is well split: even a run of underscores is cut at the same place. */
  lemma PrefixIsWell(parts: seq<string>, n: nat)
    requires WellSplit(parts) && 0 < n <= |parts|
    ensures WellSplit(parts[..n])
  {
    if n < |parts| { SepDecided(parts[n - 1], ""); }
  }

  lemma SplitOfMember(id: string, i: nat)
    requires i < |Chain(id)|
    ensures Split(Chain(id)[i]) == Split(id)[..i + 1]
  {
    SplitIsWell(id);
    PrefixIsWell(Split(id), i + 1);
    SplitOfJoin(Split(id)[..i + 1]);
  }

  /** The chain of a chain member is the part of the chain that ends there. */
  lemma ChainOfMember(id: string, i: nat)
    requires i < |Chain(id)|
    ensures Chain(Chain(id)[i]) == Chain(id)[..i + 1]
  {
    SplitOfMember(id, i);
    var parts, prefix := Split(id), Split(id)[..i + 1];
    var c, d := Chain(id), Chain(Chain(id)[i]);
    forall k | 0 <= k <= i ensures d[k] == c[k] { assert prefix[..k + 1] == parts[..k + 1]; }
  }

  /** The chain ends with the id itself, never repeats, starts at the root and goes through the parent. */
  lemma ChainShape(id: string)
    ensures var c := Chain(id);
            && c != [] && c[|c| - 1] == id && c[0] == GetRoot(id)
            && (IsHierarchical(id) <==> |c| > 1)
            && GetParent(id) == if |c| > 1 then Some(c[|c| - 2]) else None
  {
    var parts := Split(id);
    JoinOfSplit(id);
    TakeAll(parts);
    assert parts[..1] == [parts[0]] && Join([parts[0]]) == parts[0];
  }

  lemma {:induction false} JoinLonger(parts: seq<string>, i: nat)
    requires 0 < i < |parts|
    ensures |Join(parts[..i])| < |Join(parts[..i + 1])|
    decreases i
  {
    if i == 1 {
      assert parts[..1] == [parts[0]] && parts[..2][1..] == [parts[1]];
    } else {
      assert parts[..i][1..] == parts[1..][..i - 1] && parts[..i + 1][1..] == parts[1..][..i];
      JoinLonger(parts[1..], i - 1);
    }
  }

  /** Ancestors get strictly longer along the chain, so no two coincide. */
  lemma {:induction false} ChainStrict(id: string, i: nat, j: nat)
    requires i < j < |Chain(id)|
    ensures |Chain(id)[i]| < |Chain(id)[j]|
    decreases j
  {
    JoinLonger(Split(id), j);
    if i < j - 1 { ChainStrict(id, i, j - 1); }
  }

  /** A principal and its only ancestor, spelled out. */
  lemma ChainOfTwo(a: string, b: string)
    requires FindSep(a + "__") == |a| && FindSep(b) == -1
    ensures Chain(a + "__" + b) == [a, a + "__" + b]
  {
    var parts := [a, b];
    assert parts[1..] == [b] && parts[..1] == [a] && parts[..2] == parts;
    assert Join(parts) == a + "__" + b;
    SplitOfJoin(parts);
    var c := Chain(a + "__" + b);
    assert |c| == 2 && c[0] == Join(parts[..1]) && c[1] == Join(parts[..2]);
  }
}
