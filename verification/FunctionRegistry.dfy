/** The function registry and its three secondary indexes (function_registry.py). */
module FunctionRegistry {
  import opened Orders
  import opened Flows

  /** A registered function; fields that no index looks at are in `info`. */
  datatype Entry = Entry(pack: string, name: string, tags: seq<string>, aliases: seq<string>,
                         permission: Option<string>, info: string)

  function QName(e: Entry): string { e.pack + ":" + e.name }

  const CORE_PREFIX := "core."

  /** Aliases in these name spaces are reserved for core packs. */
  predicate Protected(alias: string) {
    "system." <= alias || "kernel." <= alias || "core." <= alias
  }

  predicate MayUse(e: Entry, alias: string) { Protected(alias) ==> CORE_PREFIX <= e.pack }

  type Normalizer = string -> string

  ghost function Tags(norm: Normalizer, e: Entry): set<string> { set t | t in e.tags :: norm(t) }

  ghost function Aliases(e: Entry): set<string> { set a | a in e.aliases && MayUse(e, a) }

  /** The primary map and the three indexes. */
  datatype Index = Index(entries: map<string, Entry>, tags: map<string, set<string>>, aliases: map<string, string>,
                         perms: map<string, Entry>)

  const EMPTY := Index(map[], map[], map[], map[])

  ghost predicate Tagged(s: Index, t: string, q: string) { t in s.tags && q in s.tags[t] }

  /** Every index follows the primary map. */
  ghost predicate Consistent(norm: Normalizer, s: Index) {
    && (forall q :: q in s.entries ==> QName(s.entries[q]) == q)
    && (forall t, q :: Tagged(s, t, q) <==> q in s.entries && t in Tags(norm, s.entries[q]))
    && (forall t :: t in s.tags ==> s.tags[t] != {})
    && (forall a :: a in s.aliases ==> s.aliases[a] in s.entries && a in Aliases(s.entries[s.aliases[a]]))
    && (forall p :: p in s.perms ==>
        s.perms[p].permission == Some(p) && QName(s.perms[p]) in s.entries
            && s.entries[QName(s.perms[p])] == s.perms[p])
  }

  // ------------------------------------------------------------- registering

  ghost function TagsWith(norm: Normalizer, tags: map<string, set<string>>, e: Entry): map<string, set<string>> {
    BucketsWith(tags, Tags(norm, e), QName(e))
  }

  function Bucket(tags: map<string, set<string>>, t: string): set<string> { if t in tags then tags[t] else {} }

  /** q joins the buckets of ts. */
  function BucketsWith(tags: map<string, set<string>>, ts: set<string>, q: string): map<string, set<string>> {
    map t | t in tags.Keys + ts :: Bucket(tags, t) + (if t in ts then {q} else {})
  }

  lemma BucketsWithNothing(tags: map<string, set<string>>, q: string)
    ensures BucketsWith(tags, {}, q) == tags
  {
    forall t | t in tags ensures BucketsWith(tags, {}, q)[t] == tags[t] { assert tags[t] + {} == tags[t]; }
  }

  lemma BucketNext(tags: map<string, set<string>>, ts: set<string>, t: string, q: string)
    ensures var now := BucketsWith(tags, ts, q); BucketsWith(tags, ts + {t}, q) == now[t := Bucket(now, t) + {q}]
  {
    var now := BucketsWith(tags, ts, q);
    var next, want := BucketsWith(tags, ts + {t}, q), now[t := Bucket(now, t) + {q}];
    assert next.Keys == want.Keys;
    forall u | u in next ensures next[u] == want[u] { OneBucket(tags, ts, t, q, u); }
  }

  lemma OneBucket(tags: map<string, set<string>>, ts: set<string>, t: string, q: string, u: string)
    requires u in tags || u in ts || u == t
    ensures BucketsWith(tags, ts + {t}, q)[u] == Bucket(BucketsWith(tags, ts, q), u) + (if u == t then {q} else {})
  {
  }

  /** q leaves the buckets of ts, and the empty ones among these disappear. */
  function BucketsWithout(tags: map<string, set<string>>, ts: set<string>, q: string): map<string, set<string>> {
    map t | t in tags && (t in ts ==> tags[t] - {q} != {}) :: if t in ts then tags[t] - {q} else tags[t]
  }

  lemma NothingTaken(tags: map<string, set<string>>, q: string)
    ensures BucketsWithout(tags, {}, q) == tags
  {
  }

  lemma UntouchedBuckets(tags: map<string, set<string>>, t: string, q: string)
    ensures BucketsWithout(tags, {t}, q) ==
            if t !in tags then tags else if tags[t] - {q} == {} then tags - {t} else tags[t := tags[t] - {q}]
  {
  }

  lemma TakenNext(tags: map<string, set<string>>, ts: set<string>, t: string, q: string)
    ensures BucketsWithout(BucketsWithout(tags, ts, q), {t}, q) == BucketsWithout(tags, ts + {t}, q)
  {
    assert forall u :: u in tags ==> tags[u] - {q} - {q} == tags[u] - {q};
  }

  /** Where q is in no other bucket it leaves them all. */
  lemma TakenEverywhere(tags: map<string, set<string>>, ts: set<string>, q: string)
    requires forall t :: t in tags ==> tags[t] != {} && (q in tags[t] ==> t in ts)
    ensures BucketsWithout(tags, ts, q) == map t | t in tags && tags[t] - {q} != {} :: tags[t] - {q}
  {
    forall t | t in tags && t !in ts ensures tags[t] - {q} == tags[t] { }
  }

  /** A taken alias stays with its first owner. */
  ghost function AliasesWith(aliases: map<string, string>, e: Entry): map<string, string> {
    WithNames(aliases, Aliases(e), QName(e))
  }

  /** The first owner of a name keeps it. */
  function WithNames(aliases: map<string, string>, names: set<string>, q: string): map<string, string> {
    map a | a in aliases.Keys + names :: if a in aliases then aliases[a] else q
  }

  lemma NameNext(aliases: map<string, string>, names: set<string>, a: string, q: string)
    ensures var now := WithNames(aliases, names, q);
            WithNames(aliases, names + {a}, q) == if a in now && now[a] != q then now else now[a := q]
  {
  }

  function PermsWith(perms: map<string, Entry>, e: Entry): map<string, Entry> {
    if e.permission.Some? then perms[e.permission.value := e] else perms
  }

  ghost function With(norm: Normalizer, s: Index, e: Entry): Index {
    if QName(e) in s.entries then s
    else Index(s.entries[QName(e) := e], TagsWith(norm, s.tags, e), AliasesWith(s.aliases, e), PermsWith(s.perms, e))
  }

  lemma TagsWithConsistent(norm: Normalizer, s: Index, e: Entry)
    requires Consistent(norm, s) && QName(e) !in s.entries
    ensures var s' := With(norm, s, e);
            && (forall t, q :: Tagged(s', t, q) <==> q in s'.entries && t in Tags(norm, s'.entries[q]))
            && (forall t :: t in s'.tags ==> s'.tags[t] != {})
  {
    var s' := With(norm, s, e);
    forall t, q ensures Tagged(s', t, q) <==> q in s'.entries && t in Tags(norm, s'.entries[q]) {
      TaggedWith(norm, s.tags, e, t, q);
      assert Tagged(s, t, q) <==> q in s.entries && t in Tags(norm, s.entries[q]);
    }
    NoEmptyBucket(norm, s.tags, e);
  }

  lemma NoEmptyBucket(norm: Normalizer, tags: map<string, set<string>>, e: Entry)
    requires forall t :: t in tags ==> tags[t] != {}
    ensures forall t :: t in TagsWith(norm, tags, e) ==> TagsWith(norm, tags, e)[t] != {}
  {
  }

  lemma TaggedWith(norm: Normalizer, tags: map<string, set<string>>, e: Entry, t: string, q: string)
    ensures var tags' := TagsWith(norm, tags, e);
            (t in tags' && q in tags'[t]) <==> (t in tags && q in tags[t]) || (t in Tags(norm, e) && q == QName(e))
  {
  }

  lemma NamesWithConsistent(norm: Normalizer, s: Index, e: Entry)
    requires Consistent(norm, s) && QName(e) !in s.entries
    ensures var s' := With(norm, s, e);
            && (forall q :: q in s'.entries ==> QName(s'.entries[q]) == q)
            && (forall a :: a in s'.aliases ==> s'.aliases[a] in s'.entries && a in Aliases(s'.entries[s'.aliases[a]]))
  {
  }

  lemma PermsWithConsistent(norm: Normalizer, s: Index, e: Entry)
    requires Consistent(norm, s) && QName(e) !in s.entries
    ensures var s' := With(norm, s, e);
            forall p :: p in s'.perms ==>
                s'.perms[p].permission == Some(p) && QName(s'.perms[p]) in s'.entries
                    && s'.entries[QName(s'.perms[p])] == s'.perms[p]
  {
  }

  lemma WithConsistent(norm: Normalizer, s: Index, e: Entry)
    requires Consistent(norm, s)
    ensures Consistent(norm, With(norm, s, e))
  {
    if QName(e) !in s.entries {
      TagsWithConsistent(norm, s, e);
      NamesWithConsistent(norm, s, e);
      PermsWithConsistent(norm, s, e);
    }
  }

  // ------------------------------------------------------------- unregistering

  ghost function Members(s: Index, pack: string): set<string> {
    set q | q in s.entries && s.entries[q].pack == pack
  }

  /** What is left when the functions in `gone` go. */
  ghost function Without(s: Index, gone: set<string>): Index {
    Index(map q | q in s.entries && q !in gone :: s.entries[q],
          map t | t in s.tags && s.tags[t] - gone != {} :: s.tags[t] - gone,
          map a | a in s.aliases && s.aliases[a] !in gone :: s.aliases[a],
          map p | p in s.perms && QName(s.perms[p]) !in gone :: s.perms[p])
  }

  lemma WithoutConsistent(norm: Normalizer, s: Index, gone: set<string>)
    requires Consistent(norm, s)
    ensures Consistent(norm, Without(s, gone))
  {
    var s' := Without(s, gone);
    forall t, q ensures Tagged(s', t, q) <==> Tagged(s, t, q) && q !in gone {
      if Tagged(s, t, q) && q !in gone { assert q in s.tags[t] - gone; }
    }
  }

  lemma WithoutNothing(s: Index, norm: Normalizer)
    requires Consistent(norm, s)
    ensures Without(s, {}) == s
  {
    assert forall t :: t in s.tags ==> s.tags[t] - {} == s.tags[t];
  }

  lemma TagsWithoutMore(s: Index, gone: set<string>, q: string)
    ensures Without(Without(s, gone), {q}).tags == Without(s, gone + {q}).tags
  {
    var a, b := Without(Without(s, gone), {q}).tags, Without(s, gone + {q}).tags;
    forall t | t in s.tags ensures s.tags[t] - gone - {q} == s.tags[t] - (gone + {q}) { }
    forall t ensures t in a <==> t in b {
      if t in s.tags && s.tags[t] - (gone + {q}) != {} {
        var x :| x in s.tags[t] - (gone + {q});
        assert x in s.tags[t] - gone;
      }
    }
  }

  lemma WithoutMore(s: Index, gone: set<string>, q: string)
    ensures Without(Without(s, gone), {q}) == Without(s, gone + {q})
  {
    TagsWithoutMore(s, gone, q);
  }

  lemma BucketsOf(norm: Normalizer, s: Index, q: string)
    requires Consistent(norm, s) && q in s.entries
    ensures QName(s.entries[q]) == q
    ensures forall t :: t in s.tags ==> s.tags[t] != {} && (q in s.tags[t] ==> t in Tags(norm, s.entries[q]))
    ensures forall a :: a in s.aliases && s.aliases[a] == q ==> a in s.entries[q].aliases
  {
  }

  /** In a consistent registry at most one permission id belongs to q, its own. */
  lemma PermsWithoutOne(norm: Normalizer, s: Index, q: string)
    requires Consistent(norm, s) && q in s.entries
    ensures var e := s.entries[q];
            Without(s, {q}).perms ==
            if e.permission.Some? && e.permission.value in s.perms && s.perms[e.permission.value] == e
            then s.perms - {e.permission.value} else s.perms
  {
  }

  lemma TagsWithoutOne(s: Index, q: string)
    ensures Without(s, {q}).tags == map t | t in s.tags && s.tags[t] - {q} != {} :: s.tags[t] - {q}
    ensures Without(s, {q}).entries == s.entries - {q}
    ensures Without(s, {q}).aliases == map a | a in s.aliases && s.aliases[a] != q :: s.aliases[a]
  {
  }

  // ----------------------------------------------------------------- the class

  class FunctionRegistry {
    var entries: map<string, Entry>
    var tags: map<string, set<string>>
    var aliases: map<string, string>
    var perms: map<string, Entry>
    const norm: Normalizer

    ghost function Now(): Index
      reads this
    {
      Index(entries, tags, aliases, perms)
    }

    ghost predicate Valid()
      reads this
    {
      Consistent(norm, Now())
    }

    constructor (norm: Normalizer)
      ensures Valid() && Now() == EMPTY && this.norm == norm
    {
      entries, tags, aliases, perms, this.norm := map[], map[], map[], map[], norm;
    }

    method Tag(t: string, q: string)
      modifies this`tags
      ensures tags == old(tags)[t := Bucket(old(tags), t) + {q}]
    {
      if t !in tags { tags := tags[t := {}]; }
      tags := tags[t := tags[t] + {q}];
    }

    /** `_add_to_tag_index` */
    method AddToTagIndex(e: Entry)
      modifies this`tags
      ensures tags == TagsWith(norm, old(tags), e)
    {
      ghost var seen: set<string> := {};
      BucketsWithNothing(tags, QName(e));
      for i := 0 to |e.tags|
        invariant seen == set t | t in e.tags[..i] :: norm(t)
        invariant tags == BucketsWith(old(tags), seen, QName(e))
      {
        TakeNext(e.tags, i);
        var t := norm(e.tags[i]);
        BucketNext(old(tags), seen, t, QName(e));
        Tag(t, QName(e));
        seen := seen + {t};
      }
      TakeAll(e.tags);
      assert seen == Tags(norm, e);
    }

    /** `_register_vocab_aliases` */
    method RegisterAliases(e: Entry)
      modifies this`aliases
      ensures aliases == AliasesWith(old(aliases), e)
    {
      ghost var seen: set<string> := {};
      for i := 0 to |e.aliases|
        invariant seen == set a | a in e.aliases[..i] && MayUse(e, a)
        invariant aliases == WithNames(old(aliases), seen, QName(e))
      {
        TakeNext(e.aliases, i);
        var a := e.aliases[i];
        if Protected(a) && !(CORE_PREFIX <= e.pack) { continue; }
        NameNext(old(aliases), seen, a, QName(e));
        seen := seen + {a};
        if a in aliases && aliases[a] != QName(e) { continue; }
        aliases := aliases[a := QName(e)];
      }
      TakeAll(e.aliases);
    }

    method Register(e: Entry) returns (added: bool)
      requires Valid()
      modifies this
      ensures Valid() && Now() == With(norm, old(Now()), e)
      ensures added <==> QName(e) !in old(entries)
    {
      WithConsistent(norm, Now(), e);
      if QName(e) in entries { return false; }
      entries := entries[QName(e) := e];
      AddToTagIndex(e);
      RegisterAliases(e);
      if e.permission.Some? { perms := perms[e.permission.value := e]; }
      added := true;
    }

    method Untag(t: string, q: string)
      modifies this`tags
      ensures tags == BucketsWithout(old(tags), {t}, q)
    {
      UntouchedBuckets(tags, t, q);
      if t in tags {
        tags := tags[t := tags[t] - {q}];
        if tags[t] == {} { tags := tags - {t}; }
      }
    }

    /** `_remove_from_tag_index` */
    method RemoveFromTagIndex(e: Entry)
      modifies this`tags
      requires forall t :: t in tags ==> tags[t] != {} && (QName(e) in tags[t] ==> t in Tags(norm, e))
      ensures tags == map t | t in old(tags) && old(tags)[t] - {QName(e)} != {} :: old(tags)[t] - {QName(e)}
    {
      ghost var seen: set<string> := {};
      NothingTaken(tags, QName(e));
      for i := 0 to |e.tags|
        invariant seen == set t | t in e.tags[..i] :: norm(t)
        invariant tags == BucketsWithout(old(tags), seen, QName(e))
      {
        TakeNext(e.tags, i);
        var t := norm(e.tags[i]);
        TakenNext(old(tags), seen, t, QName(e));
        Untag(t, QName(e));
        seen := seen + {t};
      }
      TakeAll(e.tags);
      assert seen == Tags(norm, e);
      TakenEverywhere(old(tags), seen, QName(e));
    }

    /** `_unregister_vocab_aliases` */
    method UnregisterAliases(e: Entry)
      modifies this`aliases
      requires forall a :: a in aliases && aliases[a] == QName(e) ==> a in e.aliases
      ensures aliases == map a | a in old(aliases) && old(aliases)[a] != QName(e) :: old(aliases)[a]
    {
      for i := 0 to |e.aliases|
        invariant aliases == map a | a in old(aliases)
                  && !(a in e.aliases[..i] && old(aliases)[a] == QName(e)) :: old(aliases)[a]
      {
        TakeNext(e.aliases, i);
        var a := e.aliases[i];
        if a in aliases && aliases[a] == QName(e) { aliases := aliases - {a}; }
      }
      TakeAll(e.aliases);
    }

    method RemoveOne(q: string)
      requires Valid() && q in entries
      modifies this
      ensures Valid() && Now() == Without(old(Now()), {q})
    {
      WithoutConsistent(norm, Now(), {q});
      var e := entries[q];
      BucketsOf(norm, Now(), q);
      entries := entries - {q};
      RemoveFromTagIndex(e);
      UnregisterAliases(e);
      PermsWithoutOne(norm, old(Now()), q);
      if e.permission.Some? && e.permission.value in perms && perms[e.permission.value] == e {
        perms := perms - {e.permission.value};
      }
      TagsWithoutOne(old(Now()), q);
    }

    method UnregisterPack(pack: string) returns (count: nat)
      requires Valid()
      modifies this
      ensures Valid() && Now() == Without(old(Now()), Members(old(Now()), pack))
      ensures count == |Members(old(Now()), pack)|
    {
      var toRemove := set q | q in entries && entries[q].pack == pack;
      var todo := toRemove;
      WithoutNothing(Now(), norm);
      assert toRemove - todo == {};
      while todo != {}
        invariant todo <= toRemove && Valid() && Now() == Without(old(Now()), toRemove - todo)
        decreases todo
      {
        var q :| q in todo;
        assert q in entries;
        WithoutMore(old(Now()), toRemove - todo, q);
        assert toRemove - (todo - {q}) == toRemove - todo + {q};
        RemoveOne(q);
        todo := todo - {q};
      }
      assert toRemove - {} == toRemove;
      count := |toRemove|;
    }

    /** The functions that carry all the given tags; none for no tags. */
    method SearchByTag(query: seq<string>) returns (found: set<string>)
      requires Valid()
      ensures found == Scan(norm, Now(), query)
    {
      if query == [] { return {}; }
      found := if norm(query[0]) in tags then tags[norm(query[0])] else {};
      for i := 1 to |query|
        invariant forall q :: q in found <==> forall j :: 0 <= j < i ==> Tagged(Now(), norm(query[j]), q)
      {
        found := found * if norm(query[i]) in tags then tags[norm(query[i])] else {};
      }
      found := set q | q in found && q in entries;
      assert forall q :: q in found ==> Tagged(Now(), norm(query[0]), q);
    }

    method ResolveByAlias(alias: string) returns (e: Option<Entry>)
      requires Valid()
      ensures e == if alias in aliases then Some(entries[aliases[alias]]) else None
      ensures e.Some? ==> alias in e.value.aliases && QName(e.value) in entries && entries[QName(e.value)] == e.value
    {
      e := if alias in aliases && aliases[alias] in entries then Some(entries[aliases[alias]]) else None;
    }
  }

  /** A linear scan of the primary map. */
  ghost function Scan(norm: Normalizer, s: Index, query: seq<string>): set<string> {
    set q | q in s.entries && query != [] && forall i :: 0 <= i < |query| ==> norm(query[i]) in Tags(norm, s.entries[q])
  }

  // ---------------------------------------------------------------- whole runs

  datatype Op = Add(e: Entry) | RemovePack(pack: string) | Clear

  ghost function Step(norm: Normalizer, s: Index, op: Op): Index {
    match op
    case Add(e) => With(norm, s, e)
    case RemovePack(p) => Without(s, Members(s, p))
    case Clear => EMPTY
  }

  ghost function Run(norm: Normalizer, s: Index, ops: seq<Op>): Index {
    if ops == [] then s else Step(norm, Run(norm, s, ops[..|ops| - 1]), ops[|ops| - 1])
  }

  /** After any run from the empty registry the indexes follow the primary map. */
  lemma {:induction false} RunConsistent(norm: Normalizer, ops: seq<Op>)
    ensures Consistent(norm, Run(norm, EMPTY, ops))
    decreases |ops|
  {
    if ops != [] {
      var s := Run(norm, EMPTY, ops[..|ops| - 1]);
      RunConsistent(norm, ops[..|ops| - 1]);
      match ops[|ops| - 1] {
        case Add(e) => WithConsistent(norm, s, e);
        case RemovePack(p) => WithoutConsistent(norm, s, Members(s, p));
        case Clear =>
      }
    }
  }

  /** The tag index is determined by the primary map: no history shows in it. */
  lemma TagsDetermined(norm: Normalizer, s: Index, t: Index)
    requires Consistent(norm, s) && Consistent(norm, t) && s.entries == t.entries
    ensures s.tags == t.tags
  {
    forall x ensures x in s.tags <==> x in t.tags {
      if x in s.tags { var q :| q in s.tags[x]; assert Tagged(s, x, q) && Tagged(t, x, q); }
      if x in t.tags { var q :| q in t.tags[x]; assert Tagged(t, x, q) && Tagged(s, x, q); }
    }
    forall x | x in s.tags ensures s.tags[x] == t.tags[x] {
      forall q ensures q in s.tags[x] <==> q in t.tags[x] { assert Tagged(s, x, q) <==> Tagged(t, x, q); }
    }
  }

  /** An alias never changes hands while its owner stays registered. */
  lemma AliasKeepsOwner(norm: Normalizer, s: Index, op: Op, a: string)
    requires Consistent(norm, s) && a in s.aliases && s.aliases[a] in Step(norm, s, op).entries
    ensures a in Step(norm, s, op).aliases && Step(norm, s, op).aliases[a] == s.aliases[a]
  {
  }

  /** Removing a pack takes away exactly its functions, with their aliases and permission ids. */
  lemma PackRemovedExactly(norm: Normalizer, s: Index, pack: string)
    requires Consistent(norm, s)
    ensures var t := Step(norm, s, RemovePack(pack));
            && (forall q :: q in t.entries <==> q in s.entries && s.entries[q].pack != pack)
            && (forall q :: q in t.entries ==> t.entries[q] == s.entries[q])
            && (forall a :: a in t.aliases <==> a in s.aliases && s.entries[s.aliases[a]].pack != pack)
            && (forall a :: a in t.aliases ==> t.aliases[a] == s.aliases[a])
            && (forall p :: p in t.perms <==> p in s.perms && s.perms[p].pack != pack)
            && (forall p :: p in t.perms ==> t.perms[p] == s.perms[p])
  {
    forall p | p in s.perms ensures s.entries[QName(s.perms[p])] == s.perms[p] { }
  }

  // -------------------------------------------------- installing and removing

  ghost function Installed(norm: Normalizer, s: Index, es: seq<Entry>): Index {
    if es == [] then s else With(norm, Installed(norm, s, es[..|es| - 1]), es[|es| - 1])
  }

  /** The permission ids that the functions of a pack declare. */
  ghost predicate Declares(s: Index, pack: string, p: string) {
    exists q :: q in s.entries && s.entries[q].pack == pack && s.entries[q].permission == Some(p)
  }

  /** t holds the entries and aliases of s, and besides them only ones that belong to the pack. */
  ghost predicate ExtendsNames(s: Index, t: Index, pack: string) {
    && (forall q :: q in s.entries <==> q in t.entries && t.entries[q].pack != pack)
    && (forall q :: q in s.entries ==> t.entries[q] == s.entries[q])
    && (forall a :: a in s.aliases ==> a in t.aliases && t.aliases[a] == s.aliases[a])
    && (forall a :: a in t.aliases && a !in s.aliases ==>
        t.aliases[a] in t.entries && t.entries[t.aliases[a]].pack == pack)
  }

  /** The permission index of t is that of s, but for the ids that the pack declares: those lead to the pack. */
  ghost predicate ExtendsPerms(s: Index, t: Index, pack: string) {
    forall p ::
      && (Declares(t, pack, p) ==> p in t.perms && t.perms[p].pack == pack)
      && (!Declares(t, pack, p) ==> (p in t.perms <==> p in s.perms))
      && (!Declares(t, pack, p) && p in s.perms ==> t.perms[p] == s.perms[p] && s.perms[p].pack != pack)
  }

  lemma {:induction false} InstallExtends(norm: Normalizer, s: Index, es: seq<Entry>, pack: string)
    requires Consistent(norm, s) && Members(s, pack) == {} && forall e :: e in es ==> e.pack == pack
    ensures var t := Installed(norm, s, es); Consistent(norm, t) && ExtendsNames(s, t, pack) && ExtendsPerms(s, t, pack)
    decreases |es|
  {
    if es == [] {
      ExtendsItself(norm, s, pack);
    } else {
      var n := |es| - 1;
      var t := Installed(norm, s, es[..n]);
      assert es[n] in es;
      InstallExtends(norm, s, es[..n], pack);
      WithConsistent(norm, t, es[n]);
      NamesWithOne(norm, s, t, pack, es[n]);
      PermsWithOne(norm, s, t, pack, es[n]);
    }
  }

  lemma ExtendsItself(norm: Normalizer, s: Index, pack: string)
    requires Consistent(norm, s) && Members(s, pack) == {}
    ensures ExtendsNames(s, s, pack) && ExtendsPerms(s, s, pack)
  {
    forall q | q in s.entries ensures s.entries[q].pack != pack { assert q !in Members(s, pack); }
    forall p | p in s.perms ensures s.perms[p].pack != pack { assert s.entries[QName(s.perms[p])] == s.perms[p]; }
  }

  lemma NamesWithOne(norm: Normalizer, s: Index, t: Index, pack: string, e: Entry)
    requires Consistent(norm, t) && ExtendsNames(s, t, pack) && e.pack == pack
    ensures ExtendsNames(s, With(norm, t, e), pack)
  {
    if QName(e) !in t.entries {
      var u := With(norm, t, e);
      forall a | a in u.aliases && a !in s.aliases
        ensures u.aliases[a] in u.entries && u.entries[u.aliases[a]].pack == pack {
        if a in t.aliases { assert u.aliases[a] == t.aliases[a]; }
      }
    }
  }

  lemma DeclaresWith(norm: Normalizer, t: Index, pack: string, e: Entry, p: string)
    requires QName(e) !in t.entries && e.pack == pack
    ensures Declares(With(norm, t, e), pack, p) <==> Declares(t, pack, p) || e.permission == Some(p)
  {
    var u := With(norm, t, e);
    assert u.entries[QName(e)] == e;
    if Declares(t, pack, p) {
      var q :| q in t.entries && t.entries[q].pack == pack && t.entries[q].permission == Some(p);
      assert u.entries[q] == t.entries[q];
    }
  }

  lemma PermsWithOne(norm: Normalizer, s: Index, t: Index, pack: string, e: Entry)
    requires ExtendsPerms(s, t, pack) && e.pack == pack
    ensures ExtendsPerms(s, With(norm, t, e), pack)
  {
    if QName(e) !in t.entries {
      forall p ensures Declares(With(norm, t, e), pack, p) <==> Declares(t, pack, p) || e.permission == Some(p) {
        DeclaresWith(norm, t, pack, e, p);
      }
    }
  }

  /** Installing a fresh pack and removing it restores entries, tag index and aliases exactly, and the permission index
      but for exactly the ids that a function of the pack declared: those are gone, whoever had them before. */
  lemma InstallThenRemove(norm: Normalizer, s: Index, es: seq<Entry>, pack: string)
    requires Consistent(norm, s) && Members(s, pack) == {} && forall e :: e in es ==> e.pack == pack
    ensures var t := Installed(norm, s, es);
            var u := Without(t, Members(t, pack));
            && u.entries == s.entries && u.tags == s.tags && u.aliases == s.aliases
            && u.perms == map p | p in s.perms && !Declares(t, pack, p) :: s.perms[p]
  {
    var t := Installed(norm, s, es);
    InstallExtends(norm, s, es, pack);
    WithoutConsistent(norm, t, Members(t, pack));
    NamesRestored(norm, s, t, pack);
    PermsKept(norm, s, t, pack);
    TagsDetermined(norm, Without(t, Members(t, pack)), s);
  }

  lemma NamesRestored(norm: Normalizer, s: Index, t: Index, pack: string)
    requires Consistent(norm, s) && Consistent(norm, t) && ExtendsNames(s, t, pack)
    ensures Without(t, Members(t, pack)).entries == s.entries
    ensures Without(t, Members(t, pack)).aliases == s.aliases
  {
    var u := Without(t, Members(t, pack));
    forall q ensures q in u.entries <==> q in s.entries { }
    forall a ensures a in u.aliases <==> a in s.aliases { }
  }

  lemma PermsKept(norm: Normalizer, s: Index, t: Index, pack: string)
    requires Consistent(norm, t) && ExtendsPerms(s, t, pack)
    ensures Without(t, Members(t, pack)).perms == map p | p in s.perms && !Declares(t, pack, p) :: s.perms[p]
  {
    var u := Without(t, Members(t, pack));
    forall p | p in t.perms ensures QName(t.perms[p]) in Members(t, pack) <==> t.perms[p].pack == pack {
      assert t.entries[QName(t.perms[p])] == t.perms[p];
    }
    forall p ensures p in u.perms <==> p in s.perms && !Declares(t, pack, p) { }
  }

  // ------------------------------------------------ what the permission index misses

  /** Every declared permission id can be looked up. */
  ghost predicate PermsComplete(s: Index) {
    forall q :: q in s.entries && s.entries[q].permission.Some? ==> s.entries[q].permission.value in s.perms
  }

  /** Registration keeps the permission index complete; removing a pack does so exactly when no function that stays
      declares an id which the index gives to a function of the pack. */
  lemma PermsStayCompleteIff(norm: Normalizer, s: Index, pack: string)
    requires Consistent(norm, s) && PermsComplete(s)
    ensures PermsComplete(Without(s, Members(s, pack))) <==>
            forall q :: q in s.entries && s.entries[q].pack != pack && s.entries[q].permission.Some? ==>
              s.perms[s.entries[q].permission.value].pack != pack
  {
    var u := Without(s, Members(s, pack));
    forall q | q in s.entries && s.entries[q].pack != pack && s.entries[q].permission.Some?
      ensures s.entries[q].permission.value in u.perms <==> s.perms[s.entries[q].permission.value].pack != pack
    {
      var p := s.entries[q].permission.value;
      assert s.entries[QName(s.perms[p])] == s.perms[p];
    }
    assert forall q :: q in u.entries <==> q in s.entries && s.entries[q].pack != pack;
  }

  lemma RegisteringKeepsPermsComplete(norm: Normalizer, s: Index, e: Entry)
    requires PermsComplete(s)
    ensures PermsComplete(With(norm, s, e))
  {
  }

  /** The condition can fail: a later registration takes over an id, and removing it loses the id for both. */
  lemma OverwrittenPermissionIsLost(norm: Normalizer, a: Entry, b: Entry, p: string)
    requires a.permission == b.permission == Some(p) && a.pack != b.pack && QName(a) != QName(b)
    ensures var s := With(norm, With(norm, EMPTY, a), b);
            var u := Without(s, Members(s, b.pack));
            PermsComplete(s) && QName(a) in u.entries && u.entries[QName(a)] == a && p !in u.perms
  {
    var s := With(norm, With(norm, EMPTY, a), b);
    assert s.entries == map[QName(a) := a, QName(b) := b];
    assert s.perms == map[p := b];
    assert QName(b) in Members(s, b.pack) && QName(a) !in Members(s, b.pack);
  }

  // ------------------------------------------------------------ what becomes of aliases

  /** Names in the reserved name spaces are for core packs. */
  ghost predicate Permitted(pack: string, alias: string) {
    ("system." <= alias || "kernel." <= alias || "core." <= alias) ==> "core." <= pack
  }

  /** A function that is registered gets exactly those of its aliases that it may use and that nobody has; all others
      stay as they are. */
  lemma AliasesRegisteredExactly(norm: Normalizer, s: Index, e: Entry, a: string)
    requires Consistent(norm, s) && QName(e) !in s.entries
    ensures var t := With(norm, s, e);
            && (a in t.aliases && t.aliases[a] == QName(e) <==>
                a in e.aliases && a !in s.aliases && Permitted(e.pack, a))
            && (!(a in e.aliases && a !in s.aliases && Permitted(e.pack, a)) ==>
                  (a in t.aliases <==> a in s.aliases) && (a in s.aliases ==> t.aliases[a] == s.aliases[a]))
  {
    PermittedExactly(e, a);
  }

  lemma PermittedExactly(e: Entry, a: string)
    ensures a in Aliases(e) <==> a in e.aliases && Permitted(e.pack, a)
  {
  }

  /** Every alias that a registered function declares and may use leads somewhere. */
  ghost predicate AliasesComplete(s: Index) {
    forall q, a :: q in s.entries && a in s.entries[q].aliases && Permitted(s.entries[q].pack, a) ==> a in s.aliases
  }

  /** A function outside the pack declares an alias that the index gives to a function of the pack. */
  ghost predicate Shares(s: Index, pack: string, q: string, a: string) {
    && q in s.entries && s.entries[q].pack != pack && a in s.entries[q].aliases && Permitted(s.entries[q].pack, a)
    && a in s.aliases && s.aliases[a] in s.entries && s.entries[s.aliases[a]].pack == pack
  }

  lemma RegisteringKeepsAliases(norm: Normalizer, s: Index, e: Entry)
    requires AliasesComplete(s)
    ensures AliasesComplete(With(norm, s, e))
  {
    var t := With(norm, s, e);
    forall q, a | q in t.entries && a in t.entries[q].aliases && Permitted(t.entries[q].pack, a)
      ensures a in t.aliases {
      PermittedExactly(t.entries[q], a);
    }
  }

  lemma RemovingAliasesIff(norm: Normalizer, s: Index, pack: string)
    requires Consistent(norm, s) && AliasesComplete(s)
    ensures AliasesComplete(Without(s, Members(s, pack))) <==> forall q, a :: !Shares(s, pack, q, a)
  {
    var t := Without(s, Members(s, pack));
    forall q, a | q in s.entries && s.entries[q].pack != pack && a in s.entries[q].aliases
        && Permitted(s.entries[q].pack, a)
      ensures q in t.entries && t.entries[q] == s.entries[q] && (a in t.aliases <==> !Shares(s, pack, q, a))
    {
      assert s.aliases[a] in Members(s, pack) <==> s.entries[s.aliases[a]].pack == pack;
    }
    forall q, a | q in t.entries && a in t.entries[q].aliases && Permitted(t.entries[q].pack, a)
      ensures a in t.aliases <==> !Shares(s, pack, q, a)
    {
    }
    if q, a :| Shares(s, pack, q, a) {
      assert q in t.entries && a in t.entries[q].aliases && a !in t.aliases;
    }
  }

  /** In any run permitted aliases of live functions all lead somewhere, except that removing a pack loses exactly
      those that it shares with functions that stay. */
  lemma AliasesStayCompleteIff(norm: Normalizer, s: Index, op: Op)
    requires Consistent(norm, s) && AliasesComplete(s)
    ensures AliasesComplete(Step(norm, s, op)) <==> !(op.RemovePack? && exists q, a :: Shares(s, op.pack, q, a))
  {
    match op
    case Add(e) => RegisteringKeepsAliases(norm, s, e);
    case RemovePack(pack) => RemovingAliasesIff(norm, s, pack);
    case Clear =>
  }

  /** It happens: the second of two functions with the same alias is left without it when the first one goes. */
  lemma SharedAliasIsLost(norm: Normalizer, a: Entry, b: Entry, alias: string)
    requires a.aliases == b.aliases == [alias] && Permitted(a.pack, alias) && Permitted(b.pack, alias)
    requires a.pack != b.pack && QName(a) != QName(b)
    ensures var s := With(norm, With(norm, EMPTY, a), b);
            var u := Without(s, Members(s, a.pack));
            AliasesComplete(s) && alias in s.aliases && QName(b) in u.entries && alias !in u.aliases
  {
    var s1 := With(norm, EMPTY, a);
    var s := With(norm, s1, b);
    PermittedExactly(a, alias);
    PermittedExactly(b, alias);
    RegisteringKeepsAliases(norm, EMPTY, a);
    RegisteringKeepsAliases(norm, s1, b);
    assert s.entries == map[QName(a) := a, QName(b) := b];
    assert s.aliases[alias] == QName(a);
    assert QName(a) in Members(s, a.pack) && QName(b) !in Members(s, a.pack);
  }
}
