/** Resolution of `$flow.`, `$ctx.` and `$env.` references (kernel_variable_resolver.py).

    Python values are objects in a graph, so that contexts which contain themselves are covered. */
module VariableResolver {
  import opened Flows
  import Orders
  import opened Texts

  type Ref = nat

  datatype Node = Str(s: string) | Dict(entries: seq<(string, Ref)>) | List(items: seq<Ref>) | Scalar(n: int)

  /** `ctx` is the object references are looked up in, `show` is `str` on objects that are not strings. */
  datatype Context = Context(heap: Ref -> Node, ctx: Ref, env: map<string, string>, show: Ref -> string)

  /** A resolved value: an object handed through, a string, or a rebuilt dict or list. */
  datatype Value = Raw(ref: Ref) | Text(s: string) | Record(entries: seq<(string, Value)>) | Many(items: seq<Value>)

  // ------------------------------------------------------------------- the pattern

  predicate NameChar(c: char) { 'a' <= c <= 'z' || 'A' <= c <= 'Z' || '0' <= c <= '9' || c == '_' || c == '.' }

  function NameRun(s: string): (n: nat)
    ensures n <= |s| && (forall i :: 0 <= i < n ==> NameChar(s[i])) && (n < |s| ==> !NameChar(s[n]))
  {
    if s == "" || !NameChar(s[0]) then 0 else 1 + NameRun(s[1..])
  }

  function PrefixLength(s: string): nat {
    if "$flow." <= s then 6 else if "$ctx." <= s || "$env." <= s then 5 else 0
  }

  /** Length of the reference at the start of s, 0 if there is none. */
  function MatchAt(s: string): (n: nat)
    ensures n <= |s| && (n > 0 ==> s[0] == '$' && n > PrefixLength(s) > 0)
  {
    var p := PrefixLength(s);
    if p == 0 || NameRun(s[p..]) == 0 then 0 else p + NameRun(s[p..])
  }

  /** `fullmatch` */
  predicate IsRef(s: string) { s != "" && MatchAt(s) == |s| }

  /** The regular expression: one of three prefixes, then as many name characters as there are, at least one. */
  ghost predicate MatchesPattern(s: string, n: nat) {
    n <= |s| && exists p :: p in ["$flow.", "$ctx.", "$env."] && MatchesWith(s, n, p)
  }

  ghost predicate MatchesWith(s: string, n: nat, p: string) {
    && |p| < n <= |s| && p <= s
    && (forall i :: |p| <= i < n ==> 'a' <= s[i] <= 'z' || 'A' <= s[i] <= 'Z' || '0' <= s[i] <= '9' || s[i] in "_.")
    && (n < |s| ==> !('a' <= s[n] <= 'z' || 'A' <= s[n] <= 'Z' || '0' <= s[n] <= '9' || s[n] in "_."))
  }

  /** The match at the start of a text is the longest one. */
  lemma MatchExactly(s: string, n: nat)
    ensures MatchAt(s) == n && n > 0 <==> MatchesPattern(s, n)
  {
    if MatchAt(s) > 0 { MatchIsPattern(s); }
    if MatchesPattern(s, n) {
      var p :| p in ["$flow.", "$ctx.", "$env."] && MatchesWith(s, n, p);
      PatternIsMatch(s, n, p);
    }
  }

  lemma MatchIsPattern(s: string)
    requires MatchAt(s) > 0
    ensures MatchesPattern(s, MatchAt(s))
  {
    var n := MatchAt(s);
    var p := if "$flow." <= s then "$flow." else if "$ctx." <= s then "$ctx." else "$env.";
    assert p in ["$flow.", "$ctx.", "$env."] && |p| == PrefixLength(s) && p <= s;
    forall i | |p| <= i < n ensures NameChar(s[i]) { assert s[i] == s[|p|..][i - |p|]; }
    if n < |s| { assert s[n] == s[|p|..][n - |p|]; }
    assert MatchesWith(s, n, p);
  }

  lemma PatternIsMatch(s: string, n: nat, p: string)
    requires p in ["$flow.", "$ctx.", "$env."] && MatchesWith(s, n, p)
    ensures MatchAt(s) == n && n > 0
  {
    assert s[0] == '$' && s[1] == p[1];
    assert PrefixLength(s) == |p|;
    forall i | 0 <= i < n - |p| ensures NameChar(s[|p|..][i]) { assert s[|p|..][i] == s[|p| + i]; }
    if n < |s| { assert s[|p|..][n - |p|] == s[n]; }
    NameRunIs(s[|p|..], n - |p|);
  }

  // ------------------------------------------------------------------------ lookup

  function SplitDots(s: string): (parts: seq<string>)
    ensures parts != []
  {
    if s == "" then [""]
    else
      var rest := SplitDots(s[1..]);
      if s[0] == '.' then [""] + rest else [[s[0]] + rest[0]] + rest[1..]
  }

  function JoinDots(parts: seq<string>): string
    requires parts != []
  {
    if |parts| == 1 then parts[0] else parts[0] + "." + JoinDots(parts[1..])
  }

  lemma JoinCons(c: char, rest: seq<string>)
    requires rest != []
    ensures JoinDots([[c] + rest[0]] + rest[1..]) == [c] + JoinDots(rest)
  {
    var parts := [[c] + rest[0]] + rest[1..];
    if |rest| > 1 {
      assert parts[1..] == rest[1..];
      assert [c] + rest[0] + "." + JoinDots(rest[1..]) == [c] + (rest[0] + "." + JoinDots(rest[1..]));
    }
  }

  lemma JoinEmpty(rest: seq<string>)
    requires rest != []
    ensures JoinDots([""] + rest) == "." + JoinDots(rest)
  {
    assert ([""] + rest)[1..] == rest;
  }

  lemma {:induction false} JoinSplitDots(s: string)
    ensures JoinDots(SplitDots(s)) == s
  {
    if s != "" {
      JoinSplitDots(s[1..]);
      assert s == [s[0]] + s[1..];
      if s[0] == '.' { JoinEmpty(SplitDots(s[1..])); } else { JoinCons(s[0], SplitDots(s[1..])); }
    }
  }

  function Get(entries: seq<(string, Ref)>, key: string): Option<Ref> {
    if entries == [] then None else if entries[0].0 == key then Some(entries[0].1) else Get(entries[1..], key)
  }

  function Walk(heap: Ref -> Node, from: Ref, path: seq<string>): Option<Ref>
    decreases |path|
  {
    if path == [] then Some(from)
    else if !heap(from).Dict? then None
    else
      var next := Get(heap(from).entries, path[0]);
      if next.None? then None else Walk(heap, next.value, path[1..])
  }

  function Content(c: Context, r: Ref): Value { if c.heap(r).Str? then Text(c.heap(r).s) else Raw(r) }

  /** None is the source's answer `ref`: not found. */
  function Lookup(c: Context, ref: string): Option<Value>
    requires IsRef(ref)
  {
    var parts := SplitDots(ref[1..]);
    if |parts| < 2 then None
    else if parts[0] == "env" then
      var key := JoinDots(parts[1..]);
      if key in c.env then Some(Text(c.env[key])) else None
    else
      match Walk(c.heap, c.ctx, parts[1..])
      case Some(r) => Some(Content(c, r))
      case None => None
  }

  lemma {:induction false} SplitAtDot(word: string, rest: string)
    requires '.' !in word
    ensures SplitDots(word + "." + rest) == [word] + SplitDots(rest)
    decreases |word|
  {
    var s := word + "." + rest;
    if word == "" {
      assert s[1..] == rest;
    } else {
      assert s[1..] == word[1..] + "." + rest;
      SplitAtDot(word[1..], rest);
      assert [s[0]] + word[1..] == word;
    }
  }

  /** Everything after `$env.` is the name of the variable, dots included. */
  lemma EnvironmentKey(c: Context, key: string)
    requires IsRef("$env." + key)
    ensures Lookup(c, "$env." + key) == if key in c.env then Some(Text(c.env[key])) else None
  {
    assert ("$env." + key)[1..] == "env" + "." + key;
    SplitAtDot("env", key);
    JoinSplitDots(key);
  }

  // ------------------------------------------------------------- what a path leads to

  /** r is the value that the dict has for the key. */
  ghost predicate HasEntry(entries: seq<(string, Ref)>, key: string, r: Ref) {
    exists i :: 0 <= i < |entries| && entries[i] == (key, r) && forall k :: 0 <= k < i ==> entries[k].0 != key
  }

  /** The objects on the way along a path: every one but the last is a dict in which the next key is found. */
  ghost predicate Trail(heap: Ref -> Node, path: seq<string>, trail: seq<Ref>) {
    && |trail| == |path| + 1
    && forall i :: 0 <= i < |path| ==> heap(trail[i]).Dict? && HasEntry(heap(trail[i]).entries, path[i], trail[i + 1])
  }

  lemma {:induction false} GetExactly(entries: seq<(string, Ref)>, key: string, r: Ref)
    ensures Get(entries, key) == Some(r) <==> HasEntry(entries, key, r)
  {
    if entries != [] {
      var rest := entries[1..];
      GetExactly(rest, key, r);
      if HasEntry(rest, key, r) && entries[0].0 != key {
        var i :| 0 <= i < |rest| && rest[i] == (key, r) && forall k :: 0 <= k < i ==> rest[k].0 != key;
        assert entries[i + 1] == (key, r) && forall k :: 0 < k < i + 1 ==> entries[k] == rest[k - 1];
      }
      if HasEntry(entries, key, r) && entries[0].0 != key {
        var i :| 0 <= i < |entries| && entries[i] == (key, r) && forall k :: 0 <= k < i ==> entries[k].0 != key;
        assert rest[i - 1] == (key, r) && forall k :: 0 <= k < i - 1 ==> rest[k] == entries[k + 1];
      } else if HasEntry(entries, key, r) {
        var i :| 0 <= i < |entries| && entries[i] == (key, r) && forall k :: 0 <= k < i ==> entries[k].0 != key;
        assert i == 0;
      } else if entries[0].0 == key {
        assert entries[0].1 != r;
      }
    }
  }

  /** Where there is a way, the lookup finds its end. */
  lemma {:induction false} TrailIsWalked(heap: Ref -> Node, path: seq<string>, trail: seq<Ref>)
    requires Trail(heap, path, trail)
    ensures Walk(heap, trail[0], path) == Some(trail[|path|])
    decreases |path|
  {
    if path != [] {
      GetExactly(heap(trail[0]).entries, path[0], trail[1]);
      TrailIsWalked(heap, path[1..], trail[1..]);
    }
  }

  lemma {:induction false} WalkedTrail(heap: Ref -> Node, from: Ref, path: seq<string>) returns (trail: seq<Ref>)
    requires Walk(heap, from, path).Some?
    ensures Trail(heap, path, trail) && trail[0] == from
    decreases |path|
  {
    if path == [] {
      trail := [from];
    } else {
      var next := Get(heap(from).entries, path[0]).value;
      var rest := WalkedTrail(heap, next, path[1..]);
      GetExactly(heap(from).entries, path[0], next);
      trail := [from] + rest;
      TrailInFront(heap, path, rest, from);
    }
  }

  lemma TrailInFront(heap: Ref -> Node, path: seq<string>, rest: seq<Ref>, from: Ref)
    requires path != [] && Trail(heap, path[1..], rest) && heap(from).Dict?
    requires HasEntry(heap(from).entries, path[0], rest[0])
    ensures Trail(heap, path, [from] + rest)
  {
    var trail := [from] + rest;
    forall i | 0 <= i < |path|
      ensures heap(trail[i]).Dict? && HasEntry(heap(trail[i]).entries, path[i], trail[i + 1])
    {
      if i > 0 { assert trail[i] == rest[i - 1] && trail[i + 1] == rest[i] && path[i] == path[1..][i - 1]; }
    }
  }

  lemma {:induction false} SplitJoinDots(path: seq<string>)
    requires path != [] && forall i :: 0 <= i < |path| ==> '.' !in path[i]
    ensures SplitDots(JoinDots(path)) == path
    decreases |path|
  {
    if |path| == 1 {
      SplitNoDot(path[0]);
      assert path == [path[0]];
    } else {
      SplitJoinDots(path[1..]);
      SplitAtDot(path[0], JoinDots(path[1..]));
      assert path == [path[0]] + path[1..];
    }
  }

  lemma {:induction false} SplitNoDot(s: string)
    requires '.' !in s
    ensures SplitDots(s) == [s]
  {
    if s != "" {
      SplitNoDot(s[1..]);
      assert s == [s[0]] + s[1..] && [s[1..]][1..] == [];
    }
  }

  lemma WordAndPath(word: string, path: seq<string>)
    requires '.' !in word && path != [] && forall i :: 0 <= i < |path| ==> '.' !in path[i]
    ensures SplitDots(word + "." + JoinDots(path)) == [word] + path
  {
    SplitAtDot(word, JoinDots(path));
    SplitJoinDots(path);
  }

  lemma BehindDollar(body: string)
    ensures ("$" + body)[1..] == body
  {
  }

  lemma LookupPath(c: Context, ref: string, word: string, path: seq<string>)
    requires IsRef(ref) && SplitDots(ref[1..]) == [word] + path && word != "env" && path != []
    ensures var w := Walk(c.heap, c.ctx, path); Lookup(c, ref) == if w.Some? then Some(Held(c, w.value)) else None
  {
    assert ([word] + path)[1..] == path;
  }

  /** What `$flow.` and `$ctx.` references stand for: the object at the end of the way that the names describe, from
      the context object on, and nothing if there is no such way; strings stand for their text. */
  lemma PathReference(c: Context, word: string, path: seq<string>, ref: string)
    requires '.' !in word && word != "env" && path != [] && forall i :: 0 <= i < |path| ==> '.' !in path[i]
    requires ref == "$" + (word + "." + JoinDots(path)) && IsRef(ref)
    ensures forall trail :: Trail(c.heap, path, trail) && trail[0] == c.ctx ==>
              Lookup(c, ref) == Some(Held(c, trail[|path|]))
    ensures Lookup(c, ref).Some? ==> exists trail :: Trail(c.heap, path, trail) && trail[0] == c.ctx
  {
    WordAndPath(word, path);
    BehindDollar(word + "." + JoinDots(path));
    LookupPath(c, ref, word, path);
    WayExactly(c, path);
  }

  lemma WayExactly(c: Context, path: seq<string>)
    ensures forall trail :: Trail(c.heap, path, trail) && trail[0] == c.ctx ==>
              Walk(c.heap, c.ctx, path) == Some(trail[|path|])
    ensures Walk(c.heap, c.ctx, path).Some? ==> exists trail :: Trail(c.heap, path, trail) && trail[0] == c.ctx
  {
    forall trail | Trail(c.heap, path, trail) && trail[0] == c.ctx
      ensures Walk(c.heap, c.ctx, path) == Some(trail[|path|])
    {
      TrailIsWalked(c.heap, path, trail);
    }
    if Walk(c.heap, c.ctx, path).Some? { var trail := WalkedTrail(c.heap, c.ctx, path); }
  }

  /** An object as a value: a string is its text. */
  ghost function Held(c: Context, r: Ref): Value {
    match c.heap(r)
    case Str(s) => Text(s)
    case _ => Raw(r)
  }

  method LookupVariable(c: Context, ref: string) returns (r: Option<Value>)
    requires IsRef(ref)
    ensures r == Lookup(c, ref)
  {
    var parts := SplitDots(ref[1..]);
    if |parts| < 2 { return None; }
    var path := parts[1..];
    if parts[0] == "env" {
      var key := JoinDots(path);
      return if key in c.env then Some(Text(c.env[key])) else None;
    }
    var current := c.ctx;
    for i := 0 to |path|
      invariant Walk(c.heap, current, path[i..]) == Walk(c.heap, c.ctx, path)
    {
      assert path[i..][0] == path[i] && path[i..][1..] == path[i + 1..];
      if !c.heap(current).Dict? { return None; }
      var next := Get(c.heap(current).entries, path[i]);
      if next.None? { return None; }
      current := next.value;
    }
    return Some(Content(c, current));
  }

  // -------------------------------------------------------------------- resolution

  function Shown(c: Context, v: Value): string {
    match v
    case Text(s) => s
    case Raw(r) => c.show(r)
    case _ => ""
  }

  function Expand(c: Context, ref: string): string
    requires IsRef(ref)
  {
    match Lookup(c, ref)
    case Some(v) => Shown(c, v)
    case None => ref
  }

  lemma MatchIsRef(s: string)
    requires MatchAt(s) > 0
    ensures IsRef(s[..MatchAt(s)])
  {
    var n, p := MatchAt(s), PrefixLength(s);
    var m := s[..n];
    assert s[..p] == m[..p];
    assert forall i :: 0 <= i < n - p ==> m[p..][i] == s[p..][i];
  }

  /** `_VAR_REF_RE.sub` */
  function Substitute(c: Context, s: string): string
    decreases |s|
  {
    if s == "" then ""
    else
      var n := MatchAt(s);
      if n == 0 then [s[0]] + Substitute(c, s[1..])
      else
        MatchIsRef(s);
        Expand(c, s[..n]) + Substitute(c, s[n..])
  }

  /** What a string that consists of one reference, blanks around it aside, stands for. */
  function Target(c: Context, s: string): Option<Value> {
    var stripped := Strip(s);
    if IsRef(stripped) then Lookup(c, stripped) else None
  }

  function Targets(c: Context): string -> Option<Value> { (s: string) => Target(c, s) }

  function Templates(c: Context): string -> Value { (s: string) => Text(Substitute(c, s)) }

  /** The recursion over strings: `next` looks a whole reference up, `rest` is what becomes of other strings. */
  function Follow(next: string -> Option<Value>, rest: string -> Value, max: nat, s: string, depth: nat): Value
    requires depth <= max
    decreases max - depth
  {
    match next(s)
    case Some(Text(t)) => if depth < max then Follow(next, rest, max, t, depth + 1) else Text(t)
    case Some(v) => v
    case None => rest(s)
  }

  function ResolveString(c: Context, max: nat, s: string, depth: nat): Value
    requires depth <= max
  {
    Follow(Targets(c), Templates(c), max, s, depth)
  }

  function ResolveValue(c: Context, max: nat, r: Ref, depth: nat): Value
    requires depth <= max + 1
    decreases max + 1 - depth
  {
    if depth > max then Raw(r)
    else
      match c.heap(r)
      case Str(s) => ResolveString(c, max, s, depth)
      case Dict(es) =>
        Record(seq(|es|, i requires 0 <= i < |es| => (es[i].0, ResolveValue(c, max, es[i].1, depth + 1))))
      case List(xs) => Many(seq(|xs|, i requires 0 <= i < |xs| => ResolveValue(c, max, xs[i], depth + 1)))
      case Scalar(_) => Raw(r)
  }

  // ------------------------------------------------------------------ substitution

  /** Text in which the scan finds no reference. */
  ghost predicate RefFree(s: string) { forall i :: 0 <= i < |s| ==> MatchAt(s[i..]) == 0 }

  lemma {:induction false} SubstituteRefFree(c: Context, s: string)
    requires RefFree(s)
    ensures Substitute(c, s) == s
    decreases |s|
  {
    if s != "" {
      assert s[0..] == s;
      forall i | 0 <= i < |s[1..]| ensures MatchAt(s[1..][i..]) == 0 { assert s[1..][i..] == s[i + 1..]; }
      SubstituteRefFree(c, s[1..]);
    }
  }

  lemma SubstituteStep(c: Context, x: char, rest: string)
    requires x != '$'
    ensures Substitute(c, [x] + rest) == [x] + Substitute(c, rest)
  {
    var s := [x] + rest;
    assert s[0] == x && s[1..] == rest;
    assert MatchAt(s) == 0;
  }

  lemma {:induction false} SubstituteAfter(c: Context, plain: string, rest: string)
    requires '$' !in plain
    ensures Substitute(c, plain + rest) == plain + Substitute(c, rest)
    decreases |plain|
  {
    if plain == "" {
      assert plain + rest == rest;
    } else {
      var x, more := plain[0], plain[1..];
      Orders.Reassociate([x], more, rest);
      assert plain == [x] + more;
      SubstituteStep(c, x, more + rest);
      SubstituteAfter(c, more, rest);
      Orders.Reassociate([x], more, Substitute(c, rest));
    }
  }

  lemma NameRunIs(s: string, n: nat)
    requires n <= |s| && (forall i :: 0 <= i < n ==> NameChar(s[i])) && (n < |s| ==> !NameChar(s[n]))
    ensures NameRun(s) == n
  {
  }

  lemma MatchExtends(ref: string, rest: string)
    requires IsRef(ref) && (rest == "" || !NameChar(rest[0]))
    ensures MatchAt(ref + rest) == |ref|
  {
    var p, s := PrefixLength(ref), ref + rest;
    assert s[..p] == ref[..p];
    assert PrefixLength(s) == p;
    assert s[p..] == ref[p..] + rest;
    NameRunIs(s[p..], |ref| - p);
  }

  /** What replaces a reference inside text: the text found, `str` of the object found, or the reference itself. */
  ghost predicate Replaces(c: Context, ref: string, put: string)
    requires IsRef(ref)
  {
    && (Lookup(c, ref) == None ==> put == ref)
    && (forall t :: Lookup(c, ref) == Some(Text(t)) ==> put == t)
    && (forall r :: Lookup(c, ref) == Some(Raw(r)) ==> put == c.show(r))
  }

  lemma SubstituteCopies(c: Context, s: string)
    requires s != "" && MatchAt(s) == 0
    ensures Substitute(c, s) == [s[0]] + Substitute(c, s[1..])
  {
  }

  lemma SubstituteMatch(c: Context, s: string) returns (put: string)
    requires MatchAt(s) > 0
    ensures IsRef(s[..MatchAt(s)]) && Replaces(c, s[..MatchAt(s)], put)
    ensures Substitute(c, s) == put + Substitute(c, s[MatchAt(s)..])
  {
    MatchIsRef(s);
    put := Expand(c, s[..MatchAt(s)]);
  }

  lemma {:induction false} CopiedUpTo(f: string -> string, m: string -> nat, s: string, i: nat)
    requires forall u :: u != "" && m(u) == 0 ==> f(u) == [u[0]] + f(u[1..])
    requires i <= |s| && forall k :: 0 <= k < i ==> m(s[k..]) == 0
    ensures f(s) == s[..i] + f(s[i..])
  {
    if i == 0 {
      assert s[0..] == s && s[..0] + f(s) == f(s);
    } else {
      CopiedUpTo(f, m, s, i - 1);
      var u := s[i - 1..];
      assert m(u) == 0 && u[0] == s[i - 1] && u[1..] == s[i..];
      assert s[..i - 1] + ([s[i - 1]] + f(s[i..])) == s[..i] + f(s[i..]);
    }
  }

  /** Up to the first reference the text is copied. */
  lemma SubstituteCopiesUpTo(c: Context, s: string, i: nat)
    requires i <= |s| && forall k :: 0 <= k < i ==> MatchAt(s[k..]) == 0
    ensures Substitute(c, s) == s[..i] + Substitute(c, s[i..])
  {
    var f, m := (u: string) => Substitute(c, u), (u: string) => MatchAt(u);
    forall u: string | u != "" && m(u) == 0 ensures f(u) == [u[0]] + f(u[1..]) { SubstituteCopies(c, u); }
    CopiedUpTo(f, m, s, i);
  }

  /** The first reference inside a text is replaced by what it stands for, and scanning goes on behind it. Together
      with `SubstituteRefFree` this decides what becomes of every text. */
  lemma SubstituteFirst(c: Context, s: string, i: nat, n: nat) returns (put: string)
    requires i < |s| && n == MatchAt(s[i..]) > 0 && forall k :: 0 <= k < i ==> MatchAt(s[k..]) == 0
    ensures IsRef(s[i..][..n]) && Replaces(c, s[i..][..n], put)
    ensures Substitute(c, s) == s[..i] + (put + Substitute(c, s[i..][n..]))
  {
    SubstituteCopiesUpTo(c, s, i);
    put := SubstituteMatch(c, s[i..]);
  }

  lemma ReferenceAhead(c: Context, ref: string, rest: string)
    requires IsRef(ref) && (rest == "" || !NameChar(rest[0]))
    ensures Substitute(c, ref + rest) == Expand(c, ref) + Substitute(c, rest)
  {
    MatchExtends(ref, rest);
    assert (ref + rest)[..|ref|] == ref && (ref + rest)[|ref|..] == rest;
  }

  /** In particular behind text without a dollar sign. */
  lemma SubstituteReference(c: Context, plain: string, ref: string, rest: string) returns (put: string)
    requires '$' !in plain && IsRef(ref) && (rest == "" || !NameChar(rest[0]))
    ensures Replaces(c, ref, put) && Substitute(c, plain + ref + rest) == plain + put + Substitute(c, rest)
  {
    put := Expand(c, ref);
    Orders.Reassociate(plain, ref, rest);
    SubstituteAfter(c, plain, ref + rest);
    ReferenceAhead(c, ref, rest);
    Orders.Reassociate(plain, put, Substitute(c, rest));
  }

  lemma SpaceIsPlain(s: string)
    requires AllSpace(s)
    ensures '$' !in s && RefFree(s)
  {
    forall i | 0 <= i < |s| ensures MatchAt(s[i..]) == 0 { assert s[i..][0] == s[i] != '$'; }
  }

  /** A reference that leads nowhere leaves the string as it was, blanks around it included. */
  lemma UnresolvedUnchanged(c: Context, max: nat, s: string, depth: nat)
    requires depth <= max && IsRef(Strip(s)) && Lookup(c, Strip(s)) == None
    ensures ResolveString(c, max, s, depth) == Text(s)
  {
    var before, after := StripParts(s);
    SpaceIsPlain(before);
    SpaceIsPlain(after);
    var put := SubstituteReference(c, before, Strip(s), after);
    SubstituteRefFree(c, after);
  }

  // --------------------------------------------------------- reference-free values

  lemma WholeReferenceIsSeen(s: string)
    requires IsRef(Strip(s))
    ensures !RefFree(s)
  {
    var before, after := StripParts(s);
    SeenWithin(before, Strip(s), after);
  }

  lemma SeenWithin(before: string, ref: string, after: string)
    requires IsRef(ref) && AllSpace(after)
    ensures !RefFree(before + ref + after)
  {
    Orders.Reassociate(before, ref, after);
    MatchExtends(ref, after);
    SeenBehind(before, ref + after);
  }

  lemma SeenBehind(before: string, rest: string)
    requires MatchAt(rest) > 0
    ensures !RefFree(before + rest)
  {
    assert (before + rest)[|before|..] == rest;
  }

  lemma RefFreeString(c: Context, max: nat, s: string, depth: nat)
    requires depth <= max && RefFree(s)
    ensures ResolveString(c, max, s, depth) == Text(s)
  {
    if IsRef(Strip(s)) { WholeReferenceIsSeen(s); }
    SubstituteRefFree(c, s);
  }

  /** The value is an exact copy of the object, as deep as it was rebuilt. */
  ghost predicate Copies(heap: Ref -> Node, v: Value, r: Ref)
    decreases v
  {
    match v
    case Raw(q) => q == r
    case Text(s) => heap(r) == Str(s)
    case Record(es) =>
      && heap(r).Dict? && |heap(r).entries| == |es|
      && forall i :: 0 <= i < |es| ==> es[i].0 == heap(r).entries[i].0 && Copies(heap, es[i].1, heap(r).entries[i].1)
    case Many(xs) =>
      && heap(r).List? && |heap(r).items| == |xs|
      && forall i :: 0 <= i < |xs| ==> Copies(heap, xs[i], heap(r).items[i])
  }

  /** The objects inside r. */
  function Children(heap: Ref -> Node, r: Ref): seq<Ref> {
    match heap(r)
    case Dict(es) => seq(|es|, i requires 0 <= i < |es| => es[i].1)
    case List(xs) => xs
    case _ => []
  }

  /** A set of objects, possibly containing one another in cycles, none of which is a string with a reference. */
  ghost predicate Inert(heap: Ref -> Node, region: iset<Ref>) {
    && (forall r :: r in region && heap(r).Str? ==> RefFree(heap(r).s))
    && (forall r, i :: r in region && 0 <= i < |Children(heap, r)| ==> Children(heap, r)[i] in region)
  }

  lemma CopiesChildren(c: Context, max: nat, r: Ref, depth: nat)
    requires depth <= max && !c.heap(r).Str?
    requires forall i :: 0 <= i < |Children(c.heap, r)| ==>
      Copies(c.heap, ResolveValue(c, max, Children(c.heap, r)[i], depth + 1), Children(c.heap, r)[i])
    ensures Copies(c.heap, ResolveValue(c, max, r, depth), r)
  {
    match c.heap(r)
    case Dict(es) =>
      forall i | 0 <= i < |es| ensures Copies(c.heap, ResolveValue(c, max, es[i].1, depth + 1), es[i].1) {
        assert Children(c.heap, r)[i] == es[i].1;
      }
    case List(xs) =>
      forall i | 0 <= i < |xs| ensures Copies(c.heap, ResolveValue(c, max, xs[i], depth + 1), xs[i]) {
        assert Children(c.heap, r)[i] == xs[i];
      }
    case Scalar(_) =>
  }

  /** Values without references come back as they are, cycles or not, up to the depth at which they are rebuilt. */
  lemma {:induction false} RefFreeUnchanged(c: Context, max: nat, r: Ref, depth: nat, region: iset<Ref>)
    requires depth <= max + 1 && Inert(c.heap, region) && r in region
    ensures Copies(c.heap, ResolveValue(c, max, r, depth), r)
    decreases max + 1 - depth
  {
    if depth <= max {
      if c.heap(r).Str? {
        RefFreeString(c, max, c.heap(r).s, depth);
      } else {
        var xs := Children(c.heap, r);
        forall i | 0 <= i < |xs| ensures Copies(c.heap, ResolveValue(c, max, xs[i], depth + 1), xs[i]) {
          RefFreeUnchanged(c, max, xs[i], depth + 1, region);
        }
        CopiesChildren(c, max, r, depth);
      }
    }
  }

  // ------------------------------------------------------------- reference chains

  ghost predicate HopAt(next: string -> Option<Value>, chain: seq<string>, i: int)
    requires 0 <= i < |chain| - 1
  {
    next(chain[i]) == Some(Text(chain[i + 1]))
  }

  /** Every string but the last stands for the one after it. */
  ghost predicate Chain(next: string -> Option<Value>, chain: seq<string>) {
    chain != [] && forall i :: 0 <= i < |chain| - 1 ==> HopAt(next, chain, i)
  }

  lemma {:induction false} Followed(next: string -> Option<Value>, rest: string -> Value, max: nat, chain: seq<string>,
                                    depth: nat, i: nat)
    requires Chain(next, chain) && depth + i <= max && i < |chain|
    ensures Follow(next, rest, max, chain[0], depth) == Follow(next, rest, max, chain[i], depth + i)
  {
    if i > 0 {
      Followed(next, rest, max, chain, depth, i - 1);
      assert HopAt(next, chain, i - 1);
    }
  }

  /** A chain is followed hop by hop until it ends or `max + 1 - depth` hops are used up; the string reached then is
      returned as it stands. Cyclic chains are included. */
  lemma ChainFollowed(next: string -> Option<Value>, rest: string -> Value, max: nat, chain: seq<string>, depth: nat)
    requires Chain(next, chain) && depth <= max
    ensures var n, budget := |chain| - 1, max + 1 - depth;
            Follow(next, rest, max, chain[0], depth)
            == if n >= budget then Text(chain[budget]) else Follow(next, rest, max, chain[n], depth + n)
  {
    var n, budget := |chain| - 1, max + 1 - depth;
    if n >= budget {
      Followed(next, rest, max, chain, depth, budget - 1);
      assert HopAt(next, chain, budget - 1);
    } else {
      Followed(next, rest, max, chain, depth, n);
    }
  }

  /** What the last string of a chain stands for, when nothing limits the depth: itself if it leads nowhere and
      contains nothing to replace, or the object its reference leads to. */
  ghost predicate Settles(next: string -> Option<Value>, rest: string -> Value, s: string, v: Value) {
    (next(s) == None && rest(s) == v == Text(s)) || (v.Raw? && next(s) == Some(v))
  }

  /** A string without references does so. */
  lemma RefFreeSettles(c: Context, s: string)
    requires RefFree(s)
    ensures Settles(Targets(c), Templates(c), s, Text(s))
  {
    if IsRef(Strip(s)) { WholeReferenceIsSeen(s); }
    SubstituteRefFree(c, s);
  }

  /** The number of lookups that unbounded resolution of the chain makes. */
  function Hops(chain: seq<string>, v: Value): int { if v.Raw? then |chain| else |chain| - 1 }

  lemma FollowedExactly(next: string -> Option<Value>, rest: string -> Value, max: nat, chain: seq<string>, v: Value,
                        depth: nat)
    requires Chain(next, chain) && Settles(next, rest, chain[|chain| - 1], v) && depth <= max
    ensures Follow(next, rest, max, chain[0], depth) == v <==> Hops(chain, v) <= max + 1 - depth
  {
    var n, budget := |chain| - 1, max + 1 - depth;
    ChainFollowed(next, rest, max, chain, depth);
    if n > budget { assert HopAt(next, chain, budget); }
  }

  /** Bounded resolution of an object that holds the first string of a chain equals unbounded resolution exactly when
      at most `max + 1` lookups are needed, less the depth at which the object is met. */
  lemma ChainResolvedExactly(c: Context, max: nat, r: Ref, chain: seq<string>, v: Value, depth: nat)
    requires Chain(Targets(c), chain) && Settles(Targets(c), Templates(c), chain[|chain| - 1], v)
    requires c.heap(r) == Str(chain[0]) && depth <= max
    ensures ResolveValue(c, max, r, depth) == v <==> Hops(chain, v) <= max + 1 - depth
  {
    FollowedExactly(Targets(c), Templates(c), max, chain, v, depth);
  }

  // ------------------------------------------------------------ what resolution is

  /** The chain of a string, unrolled as far as it goes or the budget allows, and what its last string becomes: beyond
      the budget that string itself, otherwise the object that its reference leads to, or what is made of strings that
      are not references. */
  ghost predicate Unrolls(next: string -> Option<Value>, rest: string -> Value, chain: seq<string>, s: string,
                          budget: nat, v: Value)
  {
    && Chain(next, chain) && chain[0] == s && |chain| - 1 <= budget
    && var last := chain[|chain| - 1];
       if |chain| - 1 == budget then v == Text(last)
       else
         match next(last)
         case Some(found) => !found.Text? && v == found
         case None => v == rest(last)
  }

  /** A string resolves by unrolling references to strings; in one that is no reference the references are replaced. */
  ghost predicate StringResolved(c: Context, s: string, budget: nat, v: Value) {
    exists chain :: Unrolls(Targets(c), Templates(c), chain, s, budget, v)
  }

  /** What an object met at some depth resolves to, told by the object alone: beyond the limit itself; a dict becomes a
      dict with the same keys in the same order, a list a list of the same length, with everything inside resolved one
      level deeper; a string is followed as long as it is a reference to a string. */
  ghost predicate Resolved(c: Context, max: nat, v: Value, r: Ref, depth: nat)
    decreases v
  {
    if depth > max then v == Raw(r)
    else
      match c.heap(r)
      case Scalar(_) => v == Raw(r)
      case Str(s) => StringResolved(c, s, max + 1 - depth, v)
      case Dict(es) =>
        && v.Record? && |v.entries| == |es|
        && forall i :: 0 <= i < |es| ==>
            v.entries[i].0 == es[i].0 && Resolved(c, max, v.entries[i].1, es[i].1, depth + 1)
      case List(xs) =>
        v.Many? && |v.items| == |xs| && forall i :: 0 <= i < |xs| ==> Resolved(c, max, v.items[i], xs[i], depth + 1)
  }

  lemma {:induction false} FollowedChain(next: string -> Option<Value>, rest: string -> Value, max: nat, s: string,
                                         depth: nat)
      returns (chain: seq<string>)
    requires depth <= max
    ensures Unrolls(next, rest, chain, s, max + 1 - depth, Follow(next, rest, max, s, depth))
    decreases max - depth
  {
    var found := next(s);
    if found == None || !found.value.Text? {
      chain := [s];
    } else if depth < max {
      var more := FollowedChain(next, rest, max, found.value.s, depth + 1);
      chain := [s] + more;
      ChainInFront(next, s, more);
    } else {
      chain := [s, found.value.s];
      assert HopAt(next, chain, 0);
    }
  }

  lemma ChainInFront(next: string -> Option<Value>, s: string, more: seq<string>)
    requires Chain(next, more) && next(s) == Some(Text(more[0]))
    ensures Chain(next, [s] + more)
  {
    var chain := [s] + more;
    forall i | 0 <= i < |chain| - 1 ensures HopAt(next, chain, i) {
      if i > 0 { assert HopAt(next, more, i - 1); }
    }
  }

  /** There is one way to unroll a string. */
  lemma UnrolledIsFollowed(next: string -> Option<Value>, rest: string -> Value, max: nat, chain: seq<string>,
                           s: string, depth: nat, v: Value)
    requires depth <= max && Unrolls(next, rest, chain, s, max + 1 - depth, v)
    ensures v == Follow(next, rest, max, s, depth)
  {
    ChainFollowed(next, rest, max, chain, depth);
  }

  lemma StringResolvedExactly(c: Context, max: nat, s: string, depth: nat, v: Value)
    requires depth <= max
    ensures v == ResolveString(c, max, s, depth) <==> StringResolved(c, s, max + 1 - depth, v)
  {
    var next, rest := Targets(c), Templates(c);
    var chain := FollowedChain(next, rest, max, s, depth);
    if StringResolved(c, s, max + 1 - depth, v) {
      chain :| Unrolls(next, rest, chain, s, max + 1 - depth, v);
      UnrolledIsFollowed(next, rest, max, chain, s, depth, v);
    }
  }

  lemma DictResolvedExactly(c: Context, max: nat, es: seq<(string, Ref)>, depth: nat, v: Value)
    requires depth <= max && v.Record? && |v.entries| == |es|
    requires forall i :: 0 <= i < |es| ==>
      (v.entries[i].1 == ResolveValue(c, max, es[i].1, depth + 1) <==>
          Resolved(c, max, v.entries[i].1, es[i].1, depth + 1))
    ensures v == Record(seq(|es|, i requires 0 <= i < |es| => (es[i].0, ResolveValue(c, max, es[i].1, depth + 1)))) <==>
            forall i :: 0 <= i < |es| ==>
              v.entries[i].0 == es[i].0 && Resolved(c, max, v.entries[i].1, es[i].1, depth + 1)
  {
  }

  lemma ListResolvedExactly(c: Context, max: nat, xs: seq<Ref>, depth: nat, v: Value)
    requires depth <= max && v.Many? && |v.items| == |xs|
    requires forall i :: 0 <= i < |xs| ==>
      (v.items[i] == ResolveValue(c, max, xs[i], depth + 1) <==> Resolved(c, max, v.items[i], xs[i], depth + 1))
    ensures v == Many(seq(|xs|, i requires 0 <= i < |xs| => ResolveValue(c, max, xs[i], depth + 1))) <==>
            forall i :: 0 <= i < |xs| ==> Resolved(c, max, v.items[i], xs[i], depth + 1)
  {
  }

  lemma {:induction false} DictResolved(c: Context, max: nat, es: seq<(string, Ref)>, depth: nat, v: Value)
    requires depth <= max && v.Record? && |v.entries| == |es|
    ensures v == Record(seq(|es|, i requires 0 <= i < |es| => (es[i].0, ResolveValue(c, max, es[i].1, depth + 1)))) <==>
            forall i :: 0 <= i < |es| ==>
              v.entries[i].0 == es[i].0 && Resolved(c, max, v.entries[i].1, es[i].1, depth + 1)
    decreases max + 1 - depth, 0
  {
    forall i | 0 <= i < |es|
      ensures v.entries[i].1 == ResolveValue(c, max, es[i].1, depth + 1) <==>
              Resolved(c, max, v.entries[i].1, es[i].1, depth + 1)
    {
      ResolvedExactly(c, max, es[i].1, depth + 1, v.entries[i].1);
    }
    DictResolvedExactly(c, max, es, depth, v);
  }

  lemma {:induction false} ListResolved(c: Context, max: nat, xs: seq<Ref>, depth: nat, v: Value)
    requires depth <= max && v.Many? && |v.items| == |xs|
    ensures v == Many(seq(|xs|, i requires 0 <= i < |xs| => ResolveValue(c, max, xs[i], depth + 1))) <==>
            forall i :: 0 <= i < |xs| ==> Resolved(c, max, v.items[i], xs[i], depth + 1)
    decreases max + 1 - depth, 0
  {
    forall i | 0 <= i < |xs|
      ensures v.items[i] == ResolveValue(c, max, xs[i], depth + 1) <==> Resolved(c, max, v.items[i], xs[i], depth + 1)
    {
      ResolvedExactly(c, max, xs[i], depth + 1, v.items[i]);
    }
    ListResolvedExactly(c, max, xs, depth, v);
  }

  /** Resolution gives an object exactly that value, cyclic objects included. */
  lemma {:induction false} ResolvedExactly(c: Context, max: nat, r: Ref, depth: nat, v: Value)
    requires depth <= max + 1
    ensures v == ResolveValue(c, max, r, depth) <==> Resolved(c, max, v, r, depth)
    decreases max + 1 - depth, 1
  {
    if depth <= max {
      match c.heap(r)
      case Str(s) => StringResolvedExactly(c, max, s, depth, v);
      case Dict(es) => if v.Record? && |v.entries| == |es| { DictResolved(c, max, es, depth, v); }
      case List(xs) => if v.Many? && |v.items| == |xs| { ListResolved(c, max, xs, depth, v); }
      case Scalar(_) =>
    }
  }

  /** A string stored under its own name resolves to itself at any depth, so that it does not matter whether the
      identity test of the source recognises the stored object as the reference. */
  lemma {:induction false} SelfReference(c: Context, max: nat, s: string, depth: nat)
    requires depth <= max && Target(c, s) == Some(Text(s))
    ensures ResolveString(c, max, s, depth) == Text(s)
    decreases max - depth
  {
    if depth < max { SelfReference(c, max, s, depth + 1); }
  }
}
