/** Sliding-window request limits per pack (egress_rate_limiter.py). Times are seconds. */
module RateLimiter {
  import opened Flows

  const WINDOW_SECONDS := 60.0

  datatype Event = Check(pack: string, now: real) | CurrentCount(pack: string, now: real) | Reset(which: Option<string>)

  datatype Answer = Allowed | Refused | Number(n: nat) | Done

  type Windows = map<string, seq<real>>

  function Get(m: Windows, pack: string): seq<real> { if pack in m then m[pack] else [] }

  // ------------------------------------------------------------- the limiter's steps

  /** Pop from the left while the oldest entry is before the cutoff. */
  function Trim(w: seq<real>, cutoff: real): seq<real> {
    if w == [] || w[0] >= cutoff then w else Trim(w[1..], cutoff)
  }

  function Reply(maxRpm: int, m: Windows, e: Event): Answer {
    match e
    case Check(p, now) => if |Trim(Get(m, p), now - WINDOW_SECONDS)| >= maxRpm then Refused else Allowed
    case CurrentCount(p, now) => Number(|Trim(Get(m, p), now - WINDOW_SECONDS)|)
    case Reset(_) => Done
  }

  function After(maxRpm: int, m: Windows, e: Event): Windows {
    match e
    case Check(p, now) =>
      var w := Trim(Get(m, p), now - WINDOW_SECONDS);
      m[p := if |w| >= maxRpm then w else w + [now]]
    case CurrentCount(p, now) => if Get(m, p) == [] then m else m[p := Trim(m[p], now - WINDOW_SECONDS)]
    case Reset(p) => Forget(m, p)
  }

  /** An empty pack id resets every pack, like no id at all. */
  function Forget(m: Windows, pack: Option<string>): Windows {
    if pack.Some? && pack.value != "" then m - {pack.value} else map[]
  }

  function Replies(maxRpm: int, m: Windows, es: seq<Event>): (r: seq<Answer>)
    ensures |r| == |es|
    decreases |es|
  {
    if es == [] then [] else [Reply(maxRpm, m, es[0])] + Replies(maxRpm, After(maxRpm, m, es[0]), es[1..])
  }

  // ----------------------------------------------------------------- the reference

  /** Admissions at `lo` or later. */
  function Since(a: seq<real>, lo: real): nat {
    if a == [] then 0 else Since(a[..|a| - 1], lo) + if a[|a| - 1] >= lo then 1 else 0
  }

  /** Admissions in the closed interval. */
  function Within(a: seq<real>, lo: real, hi: real): nat {
    if a == [] then 0 else Within(a[..|a| - 1], lo, hi) + if lo <= a[|a| - 1] <= hi then 1 else 0
  }

  /** What the limiter promises: nothing is ever popped, the whole log of admissions is looked at. */
  function IdealReply(maxRpm: int, log: Windows, e: Event): Answer {
    match e
    case Check(p, now) => if Since(Get(log, p), now - WINDOW_SECONDS) >= maxRpm then Refused else Allowed
    case CurrentCount(p, now) => Number(Since(Get(log, p), now - WINDOW_SECONDS))
    case Reset(_) => Done
  }

  /** Only admissions and resets change the log. */
  function Log(maxRpm: int, log: Windows, e: Event): Windows {
    match e
    case Check(p, now) => if IdealReply(maxRpm, log, e) == Allowed then log[p := Get(log, p) + [now]] else log
    case CurrentCount(_, _) => log
    case Reset(p) => Forget(log, p)
  }

  function IdealReplies(maxRpm: int, log: Windows, es: seq<Event>): (r: seq<Answer>)
    ensures |r| == |es|
    decreases |es|
  {
    if es == [] then [] else [IdealReply(maxRpm, log, es[0])] + IdealReplies(maxRpm, Log(maxRpm, log, es[0]), es[1..])
  }

  // -------------------------------------------------------------------- the readings

  /** The clock readings of a pack's calls, in the order in which these got the lock, since its last reset. */
  function Readings(es: seq<Event>, pack: string): (t: seq<real>)
    ensures |t| <= |es|
  {
    if es == [] then []
    else
      var t, e := Readings(es[..|es| - 1], pack), es[|es| - 1];
      if e.Reset? then (if Concerns(e, pack) then [] else t)
      else if e.pack == pack then t + [e.now]
      else t
  }

  predicate Concerns(e: Event, pack: string) {
    if e.Reset? then e.which == None || e.which == Some("") || e.which == Some(pack) else e.pack == pack
  }

  /** Reading i was out of date at j and is recent again at k. */
  predicate Revived(t: seq<real>, i: nat, j: nat, k: nat)
    requires i < |t| && j < |t| && k < |t|
  {
    t[i] < t[j] - WINDOW_SECONDS && t[i] >= t[k] - WINDOW_SECONDS
  }

  /** Reading j is out of date at k behind an older one that is not. */
  predicate Hidden(t: seq<real>, i: nat, j: nat, k: nat)
    requires i < |t| && j < |t| && k < |t|
  {
    t[j] < t[k] - WINDOW_SECONDS <= t[i]
  }

  /** No reading gets out of date and recent again, or out of date behind a recent one. */
  ghost predicate Orderly(t: seq<real>) {
    forall i, j, k :: 0 <= i < j < k < |t| ==> !Revived(t, i, j, k) && !Hidden(t, i, j, k)
  }

  /** The readings of a pack are orderly all the time. */
  ghost predicate OrderlyFor(es: seq<Event>, pack: string) {
    forall n :: 0 <= n <= |es| ==> Orderly(Readings(es[..n], pack))
  }

  // --------------------------------------------------------------------- refinement

  lemma {:induction false} SinceConcat(a: seq<real>, b: seq<real>, lo: real)
    ensures Since(a + b, lo) == Since(a, lo) + Since(b, lo)
    decreases |b|
  {
    if b == [] {
      assert a + b == a;
    } else {
      assert (a + b)[..|a + b| - 1] == a + b[..|b| - 1];
      SinceConcat(a, b[..|b| - 1], lo);
    }
  }

  lemma {:induction false} SinceNone(a: seq<real>, lo: real)
    requires forall i :: 0 <= i < |a| ==> a[i] < lo
    ensures Since(a, lo) == 0
  {
    if a != [] { SinceNone(a[..|a| - 1], lo); }
  }

  lemma {:induction false} SinceAll(a: seq<real>, lo: real)
    requires forall i :: 0 <= i < |a| ==> a[i] >= lo
    ensures Since(a, lo) == |a|
  {
    if a != [] { SinceAll(a[..|a| - 1], lo); }
  }

  /** Trimming leaves a suffix that is empty or starts with something recent. */
  lemma {:induction false} TrimSuffix(w: seq<real>, cutoff: real) returns (k: nat)
    ensures k <= |w| && Trim(w, cutoff) == w[k..]
    ensures (forall i :: 0 <= i < k ==> w[i] < cutoff) && (k < |w| ==> w[k] >= cutoff)
  {
    if w == [] || w[0] >= cutoff {
      k := 0;
    } else {
      k := TrimSuffix(w[1..], cutoff);
      assert w[1..][k..] == w[k + 1..];
      forall i | 0 <= i < k + 1 ensures w[i] < cutoff { if i > 0 { assert w[i] == w[1..][i - 1]; } }
      k := k + 1;
    }
  }

  /** Where the log entries are among the readings. */
  ghost predicate Placed(a: seq<real>, t: seq<real>, at: seq<nat>) {
    && |at| == |a|
    && (forall x :: 0 <= x < |a| ==> at[x] < |t| && a[x] == t[at[x]])
    && (forall x, y :: 0 <= x < y < |a| ==> at[x] < at[y])
  }

  /** A reading that some later one has made out of date. */
  ghost predicate Outdated(t: seq<real>, i: nat) {
    exists j :: i < j < |t| && t[i] < t[j] - WINDOW_SECONDS
  }

  /** The window is the log without a first part that got out of date. */
  ghost predicate CutAt(w: seq<real>, a: seq<real>, t: seq<real>, at: seq<nat>, c: nat) {
    c <= |a| && w == a[c..] && Placed(a, t, at) && forall x :: 0 <= x < c ==> Outdated(t, at[x])
  }

  ghost predicate Represents(w: seq<real>, a: seq<real>, t: seq<real>) {
    exists at, c :: CutAt(w, a, t, at, c)
  }

  /** In a log whose first n entries are too old and whose others are not, the others are the recent ones. */
  lemma SinceSplit(a: seq<real>, n: nat, lo: real)
    requires n <= |a| && (forall i :: 0 <= i < n ==> a[i] < lo) && (forall i :: n <= i < |a| ==> a[i] >= lo)
    ensures Since(a, lo) == |a| - n
  {
    assert a == a[..n] + a[n..];
    SinceConcat(a[..n], a[n..], lo);
    SinceNone(a[..n], lo);
    SinceAll(a[n..], lo);
  }

  lemma PlacedLater(a: seq<real>, t: seq<real>, at: seq<nat>, now: real)
    requires Placed(a, t, at)
    ensures Placed(a, t + [now], at)
  {
  }

  lemma StillOutdated(t: seq<real>, i: nat, now: real)
    requires i < |t| && (Outdated(t, i) || t[i] < now - WINDOW_SECONDS)
    ensures Outdated(t + [now], i)
  {
    var u := t + [now];
    if t[i] < now - WINDOW_SECONDS {
      assert u[i] < u[|t|] - WINDOW_SECONDS;
    } else {
      var j :| i < j < |t| && t[i] < t[j] - WINDOW_SECONDS;
      assert u[i] < u[j] - WINDOW_SECONDS;
    }
  }

  /** What was dropped is out of date at the next reading. */
  lemma DroppedIsOld(t: seq<real>, i: nat, now: real)
    requires i < |t| && Outdated(t, i) && Orderly(t + [now])
    ensures t[i] < now - WINDOW_SECONDS
  {
    var u := t + [now];
    var j :| i < j < |t| && t[i] < t[j] - WINDOW_SECONDS;
    assert !Revived(u, i, j, |t|);
  }

  /** What comes after something recent is recent. */
  lemma BehindIsRecent(t: seq<real>, i: nat, j: nat, now: real)
    requires i < j < |t| && t[i] >= now - WINDOW_SECONDS && Orderly(t + [now])
    ensures t[j] >= now - WINDOW_SECONDS
  {
    var u := t + [now];
    assert !Hidden(u, i, j, |t|);
  }

  /** Trimming the window makes a later cut, whatever the reading. */
  lemma TrimCuts(w: seq<real>, a: seq<real>, t: seq<real>, at: seq<nat>, c: nat, now: real) returns (n: nat)
    requires CutAt(w, a, t, at, c)
    ensures CutAt(Trim(w, now - WINDOW_SECONDS), a, t + [now], at, n) && c <= n
    ensures forall x :: c <= x < n ==> a[x] < now - WINDOW_SECONDS
    ensures n < |a| ==> a[n] >= now - WINDOW_SECONDS
  {
    var k := TrimSuffix(w, now - WINDOW_SECONDS);
    n := c + k;
    assert w[k..] == a[n..];
    PlacedLater(a, t, at, now);
    forall x | c <= x < n ensures a[x] < now - WINDOW_SECONDS { assert a[x] == w[x - c]; }
    forall x | 0 <= x < n ensures Outdated(t + [now], at[x]) { StillOutdated(t, at[x], now); }
    if n < |a| { assert a[n] == w[k]; }
  }

  /** At an orderly reading exactly the recent entries are behind the cut. */
  lemma TrimCut(w: seq<real>, a: seq<real>, t: seq<real>, at: seq<nat>, c: nat, now: real) returns (n: nat)
    requires CutAt(w, a, t, at, c) && Orderly(t + [now])
    ensures CutAt(Trim(w, now - WINDOW_SECONDS), a, t + [now], at, n)
    ensures |Trim(w, now - WINDOW_SECONDS)| == Since(a, now - WINDOW_SECONDS)
  {
    n := TrimCuts(w, a, t, at, c, now);
    forall x | 0 <= x < n ensures a[x] < now - WINDOW_SECONDS {
      if x < c { DroppedIsOld(t, at[x], now); }
    }
    forall x | n <= x < |a| ensures a[x] >= now - WINDOW_SECONDS {
      if x > n { BehindIsRecent(t, at[n], at[x], now); }
    }
    SinceSplit(a, n, now - WINDOW_SECONDS);
  }

  lemma PlacedNext(a: seq<real>, t: seq<real>, at: seq<nat>, now: real)
    requires Placed(a, t, at)
    ensures Placed(a + [now], t + [now], at + [|t|])
  {
  }

  /** An admission goes to the end of both. */
  lemma AppendCut(w: seq<real>, a: seq<real>, t: seq<real>, at: seq<nat>, n: nat, now: real)
    requires CutAt(w, a, t + [now], at, n) && Placed(a, t, at)
    ensures CutAt(w + [now], a + [now], t + [now], at + [|t|], n)
  {
    PlacedNext(a, t, at, now);
    assert (a + [now])[n..] == a[n..] + [now];
  }

  lemma TrimRepresents(w: seq<real>, a: seq<real>, t: seq<real>, now: real)
    requires Represents(w, a, t) && Orderly(t + [now])
    ensures var w' := Trim(w, now - WINDOW_SECONDS);
            && Represents(w', a, t + [now]) && Represents(w' + [now], a + [now], t + [now])
            && |w'| == Since(a, now - WINDOW_SECONDS)
  {
    var at: seq<nat>, c: nat :| CutAt(w, a, t, at, c);
    var n := TrimCut(w, a, t, at, c, now);
    AppendCut(Trim(w, now - WINDOW_SECONDS), a, t, at, n, now);
  }

  /** Whether a call on window w is let through, and what it makes of the window and of the admissions a. */
  predicate LetsThrough(maxRpm: int, w: seq<real>, e: Event)
    requires !e.Reset?
  {
    e.Check? && |Trim(w, e.now - WINDOW_SECONDS)| < maxRpm
  }

  function WindowThen(maxRpm: int, w: seq<real>, e: Event): seq<real>
    requires !e.Reset?
  {
    var w' := Trim(w, e.now - WINDOW_SECONDS);
    if LetsThrough(maxRpm, w, e) then w' + [e.now] else w'
  }

  function AdmittedThen(maxRpm: int, w: seq<real>, a: seq<real>, e: Event): seq<real>
    requires !e.Reset?
  {
    if LetsThrough(maxRpm, w, e) then a + [e.now] else a
  }

  lemma AfterCall(maxRpm: int, m: Windows, e: Event)
    requires !e.Reset?
    ensures Get(After(maxRpm, m, e), e.pack) == WindowThen(maxRpm, Get(m, e.pack), e)
    ensures e.Check? && Reply(maxRpm, m, e) == Allowed <==> LetsThrough(maxRpm, Get(m, e.pack), e)
  {
  }

  lemma LogCall(maxRpm: int, m: Windows, log: Windows, e: Event)
    requires !e.Reset?
    requires |Trim(Get(m, e.pack), e.now - WINDOW_SECONDS)| == Since(Get(log, e.pack), e.now - WINDOW_SECONDS)
    ensures Reply(maxRpm, m, e) == IdealReply(maxRpm, log, e)
    ensures Get(Log(maxRpm, log, e), e.pack) == AdmittedThen(maxRpm, Get(m, e.pack), Get(log, e.pack), e)
  {
  }

  lemma ReadingsNext(done: seq<Event>, e: Event, pack: string)
    ensures Readings(done + [e], pack) ==
            if !Concerns(e, pack) then Readings(done, pack) else if e.Reset? then [] else Readings(done, pack) + [e.now]
  {
    assert (done + [e])[..|done|] == done;
  }

  lemma ResetForgets(maxRpm: int, m: Windows, log: Windows, e: Event, pack: string)
    requires e.Reset? && Concerns(e, pack)
    ensures Get(After(maxRpm, m, e), pack) == [] && Get(Log(maxRpm, log, e), pack) == []
    ensures Represents([], [], [])
  {
    assert CutAt([], [], [], [], 0);
  }

  /** An admission changes both alike. */
  lemma EitherRepresents(maxRpm: int, w: seq<real>, a: seq<real>, t: seq<real>, e: Event)
    requires !e.Reset?
    requires var w' := Trim(w, e.now - WINDOW_SECONDS); Represents(w', a, t) && Represents(w' + [e.now], a + [e.now], t)
    ensures Represents(WindowThen(maxRpm, w, e), AdmittedThen(maxRpm, w, a, e), t)
  {
  }

  lemma CallRepresents(maxRpm: int, w: seq<real>, a: seq<real>, t: seq<real>, e: Event)
    requires !e.Reset? && Represents(w, a, t) && Orderly(t + [e.now])
    ensures |Trim(w, e.now - WINDOW_SECONDS)| == Since(a, e.now - WINDOW_SECONDS)
    ensures Represents(WindowThen(maxRpm, w, e), AdmittedThen(maxRpm, w, a, e), t + [e.now])
  {
    TrimRepresents(w, a, t, e.now);
    EitherRepresents(maxRpm, w, a, t + [e.now], e);
  }

  lemma OwnCall(maxRpm: int, m: Windows, log: Windows, t: seq<real>, e: Event)
    requires !e.Reset? && Represents(Get(m, e.pack), Get(log, e.pack), t) && Orderly(t + [e.now])
    ensures Reply(maxRpm, m, e) == IdealReply(maxRpm, log, e)
    ensures Represents(Get(After(maxRpm, m, e), e.pack), Get(Log(maxRpm, log, e), e.pack), t + [e.now])
  {
    CallRepresents(maxRpm, Get(m, e.pack), Get(log, e.pack), t, e);
    AfterCall(maxRpm, m, e);
    LogCall(maxRpm, m, log, e);
  }

  /** One call of the pack, or a reset of it. */
  lemma OwnStep(maxRpm: int, m: Windows, log: Windows, t: seq<real>, e: Event, pack: string)
    requires Represents(Get(m, pack), Get(log, pack), t) && Concerns(e, pack) && (!e.Reset? ==> Orderly(t + [e.now]))
    ensures Reply(maxRpm, m, e) == IdealReply(maxRpm, log, e)
    ensures Represents(Get(After(maxRpm, m, e), pack), Get(Log(maxRpm, log, e), pack), if e.Reset? then []
            else t + [e.now])
  {
    if e.Reset? {
      ResetForgets(maxRpm, m, log, e, pack);
    } else {
      OwnCall(maxRpm, m, log, t, e);
    }
  }

  /** Calls for other packs leave the pack alone. */
  lemma ForeignStep(maxRpm: int, m: Windows, log: Windows, e: Event, pack: string)
    requires !Concerns(e, pack)
    ensures Get(After(maxRpm, m, e), pack) == Get(m, pack) && Get(Log(maxRpm, log, e), pack) == Get(log, pack)
  {
  }

  lemma OneStep(maxRpm: int, m: Windows, log: Windows, done: seq<Event>, e: Event, pack: string)
    requires Represents(Get(m, pack), Get(log, pack), Readings(done, pack)) && Orderly(Readings(done + [e], pack))
    ensures Concerns(e, pack) ==> Reply(maxRpm, m, e) == IdealReply(maxRpm, log, e)
    ensures Represents(Get(After(maxRpm, m, e), pack), Get(Log(maxRpm, log, e), pack), Readings(done + [e], pack))
  {
    ReadingsNext(done, e, pack);
    if Concerns(e, pack) {
      OwnStep(maxRpm, m, log, Readings(done, pack), e, pack);
    } else {
      ForeignStep(maxRpm, m, log, e, pack);
    }
  }

  /** The limiter's state after a run, and the reference's. */
  function WindowsAfter(maxRpm: int, m: Windows, es: seq<Event>): Windows
    decreases |es|
  {
    if es == [] then m else WindowsAfter(maxRpm, After(maxRpm, m, es[0]), es[1..])
  }

  function LogAfter(maxRpm: int, log: Windows, es: seq<Event>): Windows
    decreases |es|
  {
    if es == [] then log else LogAfter(maxRpm, Log(maxRpm, log, es[0]), es[1..])
  }

  lemma {:induction false} ReplyAt(maxRpm: int, m: Windows, es: seq<Event>, x: nat)
    requires x < |es|
    ensures Replies(maxRpm, m, es)[x] == Reply(maxRpm, WindowsAfter(maxRpm, m, es[..x]), es[x])
    ensures WindowsAfter(maxRpm, m, es[..x + 1]) == After(maxRpm, WindowsAfter(maxRpm, m, es[..x]), es[x])
    decreases |es|
  {
    if x == 0 {
      assert es[..1][1..] == [];
    } else {
      var m1 := After(maxRpm, m, es[0]);
      ReplyAt(maxRpm, m1, es[1..], x - 1);
      assert es[..x][1..] == es[1..][..x - 1] && es[..x + 1][1..] == es[1..][..x];
    }
  }

  lemma {:induction false} IdealReplyAt(maxRpm: int, log: Windows, es: seq<Event>, x: nat)
    requires x < |es|
    ensures IdealReplies(maxRpm, log, es)[x] == IdealReply(maxRpm, LogAfter(maxRpm, log, es[..x]), es[x])
    ensures LogAfter(maxRpm, log, es[..x + 1]) == Log(maxRpm, LogAfter(maxRpm, log, es[..x]), es[x])
    decreases |es|
  {
    if x == 0 {
      assert es[..1][1..] == [];
    } else {
      var log1 := Log(maxRpm, log, es[0]);
      IdealReplyAt(maxRpm, log1, es[1..], x - 1);
      assert es[..x][1..] == es[1..][..x - 1] && es[..x + 1][1..] == es[1..][..x];
    }
  }

  lemma {:induction false} RunRepresents(maxRpm: int, es: seq<Event>, n: nat, pack: string)
    requires n <= |es| && OrderlyFor(es, pack)
    ensures Represents(Get(WindowsAfter(maxRpm, map[], es[..n]), pack), Get(LogAfter(maxRpm, map[], es[..n]), pack),
                       Readings(es[..n], pack))
  {
    if n == 0 {
      assert CutAt([], [], [], [], 0);
    } else {
      RunRepresents(maxRpm, es, n - 1, pack);
      StepAt(maxRpm, es, n - 1, pack);
    }
  }

  lemma StepAt(maxRpm: int, es: seq<Event>, k: nat, pack: string)
    requires k < |es| && OrderlyFor(es, pack)
    requires Represents(Get(WindowsAfter(maxRpm, map[], es[..k]), pack), Get(LogAfter(maxRpm, map[], es[..k]), pack),
                        Readings(es[..k], pack))
    ensures Represents(Get(WindowsAfter(maxRpm, map[], es[..k + 1]), pack),
                       Get(LogAfter(maxRpm, map[], es[..k + 1]), pack), Readings(es[..k + 1], pack))
    ensures Concerns(es[k], pack) ==> Replies(maxRpm, map[], es)[k] == IdealReplies(maxRpm, map[], es)[k]
  {
    assert es[..k + 1] == es[..k] + [es[k]];
    assert Orderly(Readings(es[..k + 1], pack));
    ReplyAt(maxRpm, map[], es, k);
    IdealReplyAt(maxRpm, map[], es, k);
    OneStep(maxRpm, WindowsAfter(maxRpm, map[], es[..k]), LogAfter(maxRpm, map[], es[..k]), es[..k], es[k], pack);
  }

  /** As long as the readings of a pack are orderly, every answer about it is that of the reference: a request is
      refused exactly when the last sixty seconds hold as many admissions as allowed, the count reported is the number
      of those admissions, and asking for it changes nothing. Other packs have no influence. */
  lemma PackIsIdeal(maxRpm: int, es: seq<Event>, pack: string)
    requires OrderlyFor(es, pack)
    ensures forall x :: 0 <= x < |es| && Concerns(es[x], pack) ==>
            Replies(maxRpm, map[], es)[x] == IdealReplies(maxRpm, map[], es)[x]
  {
    forall x | 0 <= x < |es| && Concerns(es[x], pack)
      ensures Replies(maxRpm, map[], es)[x] == IdealReplies(maxRpm, map[], es)[x] {
      RunRepresents(maxRpm, es, x, pack);
      StepAt(maxRpm, es, x, pack);
    }
  }

  /** With orderly readings for every pack all answers are those of the reference. */
  lemma LimiterIsIdeal(maxRpm: int, es: seq<Event>)
    requires forall p: string :: OrderlyFor(es, p)
    ensures Replies(maxRpm, map[], es) == IdealReplies(maxRpm, map[], es)
  {
    forall x | 0 <= x < |es| ensures Replies(maxRpm, map[], es)[x] == IdealReplies(maxRpm, map[], es)[x] {
      PackIsIdeal(maxRpm, es, PackOf(es[x]));
    }
  }

  function PackOf(e: Event): (p: string)
    ensures Concerns(e, p)
  {
    if e.Reset? then (if e.which.Some? then e.which.value else "") else e.pack
  }

  /** A clock that never goes back. */
  ghost predicate Ticking(es: seq<Event>) {
    forall i, j :: 0 <= i < j < |es| && !es[i].Reset? && !es[j].Reset? ==> es[i].now <= es[j].now
  }

  ghost predicate Ascending(t: seq<real>, hi: real) {
    (forall i :: 0 <= i < |t| ==> t[i] <= hi) && forall i, j :: 0 <= i < j < |t| ==> t[i] <= t[j]
  }

  lemma {:induction false} TickingReadings(es: seq<Event>, pack: string, hi: real)
    requires Ticking(es) && forall i :: 0 <= i < |es| && !es[i].Reset? ==> es[i].now <= hi
    ensures Ascending(Readings(es, pack), hi)
    decreases |es|
  {
    if es != [] {
      var n := |es| - 1;
      var e := es[n];
      TickingReadings(es[..n], pack, if e.Reset? then hi else e.now);
    }
  }

  /** It makes all readings orderly. */
  lemma TickingIsOrderly(es: seq<Event>, hi: real)
    requires Ticking(es) && forall i :: 0 <= i < |es| && !es[i].Reset? ==> es[i].now <= hi
    ensures forall p: string :: OrderlyFor(es, p)
  {
    forall p: string ensures OrderlyFor(es, p) {
      forall n | 0 <= n <= |es| ensures Orderly(Readings(es[..n], p)) {
        TickingReadings(es[..n], p, hi);
        AscendingIsOrderly(Readings(es[..n], p), hi);
      }
    }
  }

  lemma AscendingIsOrderly(t: seq<real>, hi: real)
    requires Ascending(t, hi)
    ensures Orderly(t)
  {
  }

  // ----------------------------------------------------- the readings that are needed

  /** A run of checks and counts of one pack at the given readings. */
  ghost predicate Calls(es: seq<Event>, pack: string, t: seq<real>) {
    |es| == |t| && forall x :: 0 <= x < |t| ==> es[x] == Check(pack, t[x]) || es[x] == CurrentCount(pack, t[x])
  }

  /** The answers are those of the reference whatever is called at these readings, whatever the limit. */
  ghost predicate AlwaysIdeal(pack: string, t: seq<real>) {
    forall maxRpm, es :: Calls(es, pack, t) ==> Replies(maxRpm, map[], es) == IdealReplies(maxRpm, map[], es)
  }

  /** Checks at i and j, counts everywhere else. */
  function Probe(pack: string, t: seq<real>, i: nat, j: nat): seq<Event> {
    seq(|t|, x requires 0 <= x < |t| => if x == i || x == j then Check(pack, t[x]) else CurrentCount(pack, t[x]))
  }

  lemma CountOnly(maxRpm: int, m: Windows, log: Windows, pack: string, now: real)
    ensures Get(After(maxRpm, m, CurrentCount(pack, now)), pack) == Trim(Get(m, pack), now - WINDOW_SECONDS)
    ensures Log(maxRpm, log, CurrentCount(pack, now)) == log
  {
  }

  /** The window and the log of a pack after the first x events. */
  function WindowAt(maxRpm: int, es: seq<Event>, x: nat, pack: string): seq<real>
    requires x <= |es|
  {
    Get(WindowsAfter(maxRpm, map[], es[..x]), pack)
  }

  function LogAt(maxRpm: int, es: seq<Event>, x: nat, pack: string): seq<real>
    requires x <= |es|
  {
    Get(LogAfter(maxRpm, map[], es[..x]), pack)
  }

  /** One more count. */
  lemma CountAt(maxRpm: int, es: seq<Event>, x: nat, pack: string, now: real)
    requires x < |es| && es[x] == CurrentCount(pack, now)
    ensures WindowAt(maxRpm, es, x + 1, pack) == Trim(WindowAt(maxRpm, es, x, pack), now - WINDOW_SECONDS)
    ensures LogAt(maxRpm, es, x + 1, pack) == LogAt(maxRpm, es, x, pack)
  {
    ReplyAt(maxRpm, map[], es, x);
    IdealReplyAt(maxRpm, map[], es, x);
    CountOnly(maxRpm, WindowsAfter(maxRpm, map[], es[..x]), LogAfter(maxRpm, map[], es[..x]), pack, now);
  }

  /** One more check that both let through. */
  lemma CheckAt(maxRpm: int, es: seq<Event>, x: nat, pack: string, now: real)
    requires x < |es| && es[x] == Check(pack, now)
    requires |Trim(WindowAt(maxRpm, es, x, pack), now - WINDOW_SECONDS)| < maxRpm
    requires Since(LogAt(maxRpm, es, x, pack), now - WINDOW_SECONDS) < maxRpm
    ensures WindowAt(maxRpm, es, x + 1, pack) == Trim(WindowAt(maxRpm, es, x, pack), now - WINDOW_SECONDS) + [now]
    ensures LogAt(maxRpm, es, x + 1, pack) == LogAt(maxRpm, es, x, pack) + [now]
  {
    ReplyAt(maxRpm, map[], es, x);
    IdealReplyAt(maxRpm, map[], es, x);
  }

  lemma Short(a: real, b: real, lo: real)
    ensures Trim([a], lo) == if a >= lo then [a] else []
    ensures a >= lo ==> Trim([a, b], lo) == [a, b]
    ensures Since([a], lo) == if a >= lo then 1 else 0
    ensures Since([a, b], lo) == (if a >= lo then 1 else 0) + if b >= lo then 1 else 0
  {
    assert [a][1..] == [] && [a][..0] == [] && [a, b][..1] == [a];
  }

  /** Nothing happens before the first check. */
  lemma {:induction false} BeforeFirst(maxRpm: int, pack: string, t: seq<real>, i: nat, j: nat, x: nat)
    requires x <= i <= j < |t|
    ensures WindowAt(maxRpm, Probe(pack, t, i, j), x, pack) == [] && LogAt(maxRpm, Probe(pack, t, i, j), x, pack) == []
  {
    if x > 0 {
      BeforeFirst(maxRpm, pack, t, i, j, x - 1);
      CountAt(maxRpm, Probe(pack, t, i, j), x - 1, pack, t[x - 1]);
    }
  }

  lemma FirstCheck(maxRpm: int, pack: string, t: seq<real>, i: nat, j: nat)
    requires i <= j < |t| && maxRpm > 0
    ensures var es := Probe(pack, t, i, j);
            WindowAt(maxRpm, es, i + 1, pack) == [t[i]] && LogAt(maxRpm, es, i + 1, pack) == [t[i]]
  {
    BeforeFirst(maxRpm, pack, t, i, j, i);
    CheckAt(maxRpm, Probe(pack, t, i, j), i, pack, t[i]);
  }

  /** After the only check: its admission is dropped at the first reading that makes it out of date. */
  lemma {:induction false} AfterOnly(maxRpm: int, pack: string, t: seq<real>, i: nat, x: nat)
    requires i < x <= |t| && maxRpm > 0
    ensures var es := Probe(pack, t, i, i);
            && WindowAt(maxRpm, es, x, pack) == (if Outdated(t[..x], i) then [] else [t[i]])
            && LogAt(maxRpm, es, x, pack) == [t[i]]
    decreases x
  {
    var es := Probe(pack, t, i, i);
    if x == i + 1 {
      FirstCheck(maxRpm, pack, t, i, i);
    } else {
      AfterOnly(maxRpm, pack, t, i, x - 1);
      CountAt(maxRpm, es, x - 1, pack, t[x - 1]);
      Short(t[i], t[i], t[x - 1] - WINDOW_SECONDS);
      OutdatedNext(t, i, x - 1);
    }
  }

  lemma OutdatedNext(t: seq<real>, i: nat, x: nat)
    requires i < x < |t|
    ensures Outdated(t[..x + 1], i) <==> Outdated(t[..x], i) || t[i] < t[x] - WINDOW_SECONDS
  {
    assert t[..x + 1] == t[..x] + [t[x]];
    if Outdated(t[..x], i) || t[i] < t[x] - WINDOW_SECONDS {
      StillOutdated(t[..x], i, t[x]);
    }
  }

  /** A count at k after a check at i whose admission was dropped in between and would be recent again. */
  lemma RevivedShows(pack: string, t: seq<real>, i: nat, j: nat, k: nat)
    requires i < j < k < |t| && Revived(t, i, j, k)
    ensures !AlwaysIdeal(pack, t)
  {
    var es := Probe(pack, t, i, i);
    AfterOnly(1, pack, t, i, k);
    assert t[..k][i] < t[..k][j] - WINDOW_SECONDS;
    Short(t[i], t[i], t[k] - WINDOW_SECONDS);
    assert es[k] == CurrentCount(pack, t[k]);
    ReplyAt(1, map[], es, k);
    IdealReplyAt(1, map[], es, k);
    assert Replies(1, map[], es)[k] == Number(0) && IdealReplies(1, map[], es)[k] == Number(1);
    assert Calls(es, pack, t);
  }

  /** The first admission stays in front as long as no reading makes it out of date. */
  lemma {:induction false} FirstStays(pack: string, t: seq<real>, i: nat, j: nat, x: nat)
    requires i < j < |t| && i < x <= |t| && !Outdated(t[..x], i)
    ensures var es := Probe(pack, t, i, j);
            && WindowAt(2, es, x, pack) == (if x <= j then [t[i]] else [t[i], t[j]])
            && LogAt(2, es, x, pack) == (if x <= j then [t[i]] else [t[i], t[j]])
    decreases x
  {
    var es := Probe(pack, t, i, j);
    if x == i + 1 {
      FirstCheck(2, pack, t, i, j);
    } else {
      var y := x - 1;
      OutdatedNext(t, i, y);
      FirstStays(pack, t, i, j, y);
      Short(t[i], t[j], t[y] - WINDOW_SECONDS);
      if y == j {
        CheckAt(2, es, y, pack, t[y]);
      } else {
        CountAt(2, es, y, pack, t[y]);
      }
    }
  }

  /** A count at k after checks at i and j, the first recent and the second out of date. */
  lemma HiddenShows(pack: string, t: seq<real>, i: nat, j: nat, k: nat)
    requires i < j < k < |t| && Hidden(t, i, j, k)
    ensures !AlwaysIdeal(pack, t)
  {
    if Outdated(t[..k], i) {
      var m :| i < m < k && t[..k][i] < t[..k][m] - WINDOW_SECONDS;
      assert Revived(t, i, m, k);
      RevivedShows(pack, t, i, m, k);
    } else {
      var es := Probe(pack, t, i, j);
      FirstStays(pack, t, i, j, k);
      Short(t[i], t[j], t[k] - WINDOW_SECONDS);
      assert es[k] == CurrentCount(pack, t[k]);
      ReplyAt(2, map[], es, k);
      IdealReplyAt(2, map[], es, k);
      assert Replies(2, map[], es)[k] == Number(2) && IdealReplies(2, map[], es)[k] == Number(1);
      assert Calls(es, pack, t);
    }
  }

  lemma {:induction false} CallsRead(es: seq<Event>, pack: string, t: seq<real>, n: nat)
    requires Calls(es, pack, t) && n <= |t|
    ensures Readings(es[..n], pack) == t[..n]
  {
    if n > 0 {
      CallsRead(es, pack, t, n - 1);
      assert es[..n][..n - 1] == es[..n - 1] && es[..n][n - 1] == es[n - 1];
      assert t[..n] == t[..n - 1] + [t[n - 1]];
    }
  }

  lemma OrderlyPrefix(t: seq<real>, n: nat)
    requires n <= |t| && Orderly(t)
    ensures Orderly(t[..n])
  {
    forall i, j, k | 0 <= i < j < k < n ensures !Revived(t[..n], i, j, k) && !Hidden(t[..n], i, j, k) {
      assert !Revived(t, i, j, k) && !Hidden(t, i, j, k);
    }
  }

  /** The limiter is the reference for every limit and every mix of checks and counts at the given readings of a pack
      if and only if the readings are orderly. */
  lemma IdealExactly(pack: string, t: seq<real>)
    ensures AlwaysIdeal(pack, t) <==> Orderly(t)
  {
    if Orderly(t) {
      forall maxRpm, es | Calls(es, pack, t) ensures Replies(maxRpm, map[], es) == IdealReplies(maxRpm, map[], es) {
        forall n | 0 <= n <= |es| ensures Orderly(Readings(es[..n], pack)) {
          CallsRead(es, pack, t, n);
          OrderlyPrefix(t, n);
        }
        PackIsIdeal(maxRpm, es, pack);
      }
    } else {
      var i, j, k :| 0 <= i < j < k < |t| && !(!Revived(t, i, j, k) && !Hidden(t, i, j, k));
      if Revived(t, i, j, k) { RevivedShows(pack, t, i, j, k); } else { HiddenShows(pack, t, i, j, k); }
    }
  }

  // ------------------------------------------------------------------- the guarantee

  /** The times at which requests of a pack were let through. */
  function Admitted(es: seq<Event>, rs: seq<Answer>, pack: string): seq<real>
    requires |es| == |rs|
  {
    if es == [] then []
    else
      var n := |es| - 1;
      Admitted(es[..n], rs[..n], pack)
      + if es[n].Check? && es[n].pack == pack && rs[n] == Allowed then [es[n].now] else []
  }

  ghost predicate NoReset(es: seq<Event>) { forall i :: 0 <= i < |es| ==> !es[i].Reset? }

  /** No interval of sixty seconds holds more than `cap` admissions. */
  ghost predicate Limited(a: seq<real>, cap: nat) {
    forall lo: real :: WithinMinute(a, lo) <= cap
  }

  function WithinMinute(a: seq<real>, lo: real): nat { Within(a, lo, lo + WINDOW_SECONDS) }

  function Cap(maxRpm: int): nat { if maxRpm > 0 then maxRpm else 0 }

  /** Reading i was out of date at j, and is within a minute of the reading k. */
  predicate Readmits(t: seq<real>, i: nat, j: nat, k: nat)
    requires i < |t| && j < |t| && k < |t|
  {
    t[i] < t[j] - WINDOW_SECONDS && t[k] - WINDOW_SECONDS <= t[i] <= t[k] + WINDOW_SECONDS
  }

  /** No reading comes within a minute of one that was out of date before it. */
  ghost predicate NeverReadmits(t: seq<real>) {
    forall i, j, k :: 0 <= i < j < k < |t| ==> !Readmits(t, i, j, k)
  }

  lemma OrderlyNeverReadmits(t: seq<real>)
    requires Orderly(t)
    ensures NeverReadmits(t)
  {
    forall i, j, k | 0 <= i < j < k < |t| ensures !Readmits(t, i, j, k) { assert !Revived(t, i, j, k); }
  }

  lemma NeverReadmitsPrefix(t: seq<real>, n: nat)
    requires n <= |t| && NeverReadmits(t)
    ensures NeverReadmits(t[..n])
  {
    forall i, j, k | 0 <= i < j < k < n ensures !Readmits(t[..n], i, j, k) { assert !Readmits(t, i, j, k); }
  }

  /** What is outside an interval does not count in it. */
  lemma {:induction false} WithinTail(a: seq<real>, n: nat, lo: real, hi: real)
    requires n <= |a| && forall x :: 0 <= x < n ==> !(lo <= a[x] <= hi)
    ensures Within(a, lo, hi) <= |a| - n
  {
    if a != [] {
      var m := |a| - 1;
      WithinTail(a[..m], if n > m then m else n, lo, hi);
    }
  }

  /** Everything before the cut is more than a minute away from the reading. */
  lemma CutIsFar(w: seq<real>, a: seq<real>, t: seq<real>, at: seq<nat>, c: nat, now: real, x: nat)
    requires CutAt(w, a, t, at, c) && NeverReadmits(t + [now]) && x < c
    ensures !(now - WINDOW_SECONDS <= a[x] <= now + WINDOW_SECONDS)
  {
    var i, u := at[x], t + [now];
    var j :| i < j < |t| && t[i] < t[j] - WINDOW_SECONDS;
    assert !Readmits(u, i, j, |t|);
  }

  /** One more admission, if few are left behind the cut. */
  lemma LimitedStep(a: seq<real>, n: nat, cap: nat, now: real)
    requires Limited(a, cap) && n <= |a| < cap + n
    requires forall x :: 0 <= x < n ==> !(now - WINDOW_SECONDS <= a[x] <= now + WINDOW_SECONDS)
    ensures Limited(a + [now], cap)
  {
    forall lo: real ensures WithinMinute(a + [now], lo) <= cap {
      assert (a + [now])[..|a|] == a;
      assert WithinMinute(a, lo) <= cap;
      if lo <= now <= lo + WINDOW_SECONDS { WithinTail(a, n, lo, lo + WINDOW_SECONDS); }
    }
  }

  /** Window and admissions of a pack after one call of it: a window of fewer than `cap` leaves room for one more. */
  lemma RoomForOne(w: seq<real>, a: seq<real>, t: seq<real>, cap: nat, now: real)
    requires Represents(w, a, t) && NeverReadmits(t + [now]) && Limited(a, cap)
    ensures var w' := Trim(w, now - WINDOW_SECONDS);
            && Represents(w', a, t + [now]) && Represents(w' + [now], a + [now], t + [now])
            && (|w'| < cap ==> Limited(a + [now], cap))
  {
    var at: seq<nat>, c: nat :| CutAt(w, a, t, at, c);
    var n := TrimCuts(w, a, t, at, c, now);
    var w' := Trim(w, now - WINDOW_SECONDS);
    AppendCut(w', a, t, at, n, now);
    forall x | 0 <= x < n ensures !(now - WINDOW_SECONDS <= a[x] <= now + WINDOW_SECONDS) {
      if x < c { CutIsFar(w, a, t, at, c, now, x); }
    }
    if |w'| < cap { LimitedStep(a, n, cap, now); }
  }

  /** What the first n events let through. */
  function AdmittedAt(maxRpm: int, es: seq<Event>, n: nat, pack: string): seq<real>
    requires n <= |es|
  {
    Admitted(es[..n], Replies(maxRpm, map[], es)[..n], pack)
  }

  lemma AdmittedNext(maxRpm: int, es: seq<Event>, n: nat, pack: string)
    requires n < |es|
    ensures var e, a := es[n], AdmittedAt(maxRpm, es, n, pack);
            AdmittedAt(maxRpm, es, n + 1, pack)
            == if !e.Reset? && e.pack == pack then AdmittedThen(maxRpm, WindowAt(maxRpm, es, n, pack), a, e) else a
  {
    var rs, a := Replies(maxRpm, map[], es), AdmittedAt(maxRpm, es, n, pack);
    assert es[..n + 1][..n] == es[..n] && rs[..n + 1][..n] == rs[..n] && a + [] == a;
    ReplyAt(maxRpm, map[], es, n);
    if !es[n].Reset? { AfterCall(maxRpm, WindowsAfter(maxRpm, map[], es[..n]), es[n]); }
  }

  /** The window of a pack is a last part of its admissions, and these respect the limit. */
  ghost predicate WithinLimit(maxRpm: int, es: seq<Event>, n: nat, pack: string)
    requires n <= |es|
  {
    && Represents(WindowAt(maxRpm, es, n, pack), AdmittedAt(maxRpm, es, n, pack), Readings(es[..n], pack))
    && Limited(AdmittedAt(maxRpm, es, n, pack), Cap(maxRpm))
  }

  /** One call of the pack. */
  lemma CallWithinLimit(maxRpm: int, w: seq<real>, e: Event, t: seq<real>, a: seq<real>)
    requires !e.Reset? && Represents(w, a, t) && Limited(a, Cap(maxRpm)) && NeverReadmits(t + [e.now])
    ensures Represents(WindowThen(maxRpm, w, e), AdmittedThen(maxRpm, w, a, e), t + [e.now])
    ensures Limited(AdmittedThen(maxRpm, w, a, e), Cap(maxRpm))
  {
    RoomForOne(w, a, t, Cap(maxRpm), e.now);
    EitherRepresents(maxRpm, w, a, t + [e.now], e);
  }

  lemma WithinLimitStep(maxRpm: int, es: seq<Event>, n: nat, pack: string)
    requires n < |es| && !es[n].Reset? && NeverReadmits(Readings(es[..n + 1], pack)) && WithinLimit(maxRpm, es, n, pack)
    ensures WithinLimit(maxRpm, es, n + 1, pack)
  {
    var m, e := WindowsAfter(maxRpm, map[], es[..n]), es[n];
    assert es[..n + 1] == es[..n] + [e];
    ReadingsNext(es[..n], e, pack);
    ReplyAt(maxRpm, map[], es, n);
    AdmittedNext(maxRpm, es, n, pack);
    if e.pack == pack {
      AfterCall(maxRpm, m, e);
      CallWithinLimit(maxRpm, Get(m, pack), e, Readings(es[..n], pack), AdmittedAt(maxRpm, es, n, pack));
    } else {
      ForeignStep(maxRpm, m, map[], e, pack);
    }
  }

  lemma ReadingsPrefix(es: seq<Event>, n: nat, pack: string)
    requires NoReset(es) && n < |es|
    ensures Readings(es[..n], pack) <= Readings(es[..n + 1], pack)
  {
    assert es[..n + 1] == es[..n] + [es[n]];
    ReadingsNext(es[..n], es[n], pack);
  }

  lemma {:induction false} AlwaysWithinLimit(maxRpm: int, es: seq<Event>, n: nat, pack: string)
    requires NoReset(es) && n <= |es| && NeverReadmits(Readings(es[..n], pack))
    ensures WithinLimit(maxRpm, es, n, pack)
  {
    if n == 0 {
      assert CutAt([], [], [], [], 0);
    } else {
      var t, t' := Readings(es[..n], pack), Readings(es[..n - 1], pack);
      ReadingsPrefix(es, n - 1, pack);
      NeverReadmitsPrefix(t, |t'|);
      assert t[..|t'|] == t';
      AlwaysWithinLimit(maxRpm, es, n - 1, pack);
      WithinLimitStep(maxRpm, es, n - 1, pack);
    }
  }

  lemma {:induction false} WithinLonger(a: seq<real>, lo: real, hi: real, hi': real)
    requires hi <= hi'
    ensures Within(a, lo, hi) <= Within(a, lo, hi')
  {
    if a != [] { WithinLonger(a[..|a| - 1], lo, hi, hi'); }
  }

  /** In any run without a reset in which no reading of the pack comes within a minute of one that was out of date
      before it, no closed interval of sixty seconds sees more than `maxRpm` admissions of the pack. */
  lemma NeverMoreThanTheLimit(maxRpm: int, es: seq<Event>, pack: string)
    requires NoReset(es) && NeverReadmits(Readings(es, pack))
    ensures Limited(Admitted(es, Replies(maxRpm, map[], es), pack), Cap(maxRpm))
    ensures forall lo: real, hi: real :: hi <= lo + 60.0 ==>
              Within(Admitted(es, Replies(maxRpm, map[], es), pack), lo, hi) <= if maxRpm > 0 then maxRpm else 0
  {
    assert es[..|es|] == es && Replies(maxRpm, map[], es)[..|es|] == Replies(maxRpm, map[], es);
    AlwaysWithinLimit(maxRpm, es, |es|, pack);
    var a := Admitted(es, Replies(maxRpm, map[], es), pack);
    forall lo: real, hi: real | hi <= lo + 60.0 ensures Within(a, lo, hi) <= if maxRpm > 0 then maxRpm else 0 {
      WithinLonger(a, lo, hi, lo + WINDOW_SECONDS);
      assert WithinMinute(a, lo) <= Cap(maxRpm);
    }
  }

  /** The limit is kept whatever is called at these readings, whatever it is. */
  ghost predicate AlwaysLimited(pack: string, t: seq<real>) {
    forall maxRpm, es :: Calls(es, pack, t) ==> Limited(Admitted(es, Replies(maxRpm, map[], es), pack), Cap(maxRpm))
  }

  lemma {:induction false} CountsAdmitNothing(maxRpm: int, es: seq<Event>, m: nat, n: nat, pack: string)
    requires m <= n <= |es| && forall x :: m <= x < n ==> !es[x].Check?
    ensures AdmittedAt(maxRpm, es, n, pack) == AdmittedAt(maxRpm, es, m, pack)
    decreases n
  {
    if m < n {
      CountsAdmitNothing(maxRpm, es, m, n - 1, pack);
      AdmittedNext(maxRpm, es, n - 1, pack);
    }
  }

  /** A check on an empty window is let through. */
  lemma EmptyAdmits(es: seq<Event>, n: nat, pack: string, now: real)
    requires n < |es| && es[n] == Check(pack, now) && WindowAt(1, es, n, pack) == []
    ensures AdmittedAt(1, es, n + 1, pack) == AdmittedAt(1, es, n, pack) + [now]
  {
    AdmittedNext(1, es, n, pack);
  }

  /** Up to k a probe at i and k is a probe at i alone. */
  lemma SameProbe(pack: string, t: seq<real>, i: nat, k: nat)
    requires i < k < |t|
    ensures Probe(pack, t, i, k)[..k] == Probe(pack, t, i, i)[..k]
  {
  }

  /** With a limit of one, the check at i is let through, and nothing else before k. */
  lemma FirstAdmitted(pack: string, t: seq<real>, i: nat, k: nat)
    requires i < k < |t|
    ensures AdmittedAt(1, Probe(pack, t, i, k), k, pack) == [t[i]]
  {
    var es := Probe(pack, t, i, k);
    BeforeFirst(1, pack, t, i, k, i);
    CountsAdmitNothing(1, es, 0, i, pack);
    EmptyAdmits(es, i, pack, t[i]);
    CountsAdmitNothing(1, es, i + 1, k, pack);
  }

  lemma EmptyAgain(pack: string, t: seq<real>, i: nat, j: nat, k: nat)
    requires i < j < k < |t| && t[i] < t[j] - WINDOW_SECONDS
    ensures WindowAt(1, Probe(pack, t, i, k), k, pack) == []
  {
    SameProbe(pack, t, i, k);
    AfterOnly(1, pack, t, i, k);
    assert t[..k][i] < t[..k][j] - WINDOW_SECONDS;
  }

  /** The check at k is let through as well. */
  lemma BothAdmitted(pack: string, t: seq<real>, i: nat, j: nat, k: nat)
    requires i < j < k < |t| && Readmits(t, i, j, k)
    ensures var es := Probe(pack, t, i, k); Admitted(es, Replies(1, map[], es), pack) == [t[i], t[k]]
  {
    var es := Probe(pack, t, i, k);
    FirstAdmitted(pack, t, i, k);
    EmptyAgain(pack, t, i, j, k);
    EmptyAdmits(es, k, pack, t[k]);
    CountsAdmitNothing(1, es, k + 1, |t|, pack);
    assert es[..|t|] == es && Replies(1, map[], es)[..|t|] == Replies(1, map[], es);
  }

  lemma TwoWithin(a: real, b: real)
    requires b - WINDOW_SECONDS <= a <= b + WINDOW_SECONDS
    ensures !Limited([a, b], 1)
  {
    assert [a, b][..1] == [a] && [a][..0] == [];
    var lo := if a < b then a else b;
    assert Within([a], lo, lo + WINDOW_SECONDS) == 1;
    assert WithinMinute([a, b], lo) == 2;
  }

  /** The limit is kept for every maximum and every mix of checks and counts at the given readings of a pack if and
      only if none comes within a minute of one that was out of date before it. */
  lemma LimitExactly(pack: string, t: seq<real>)
    ensures AlwaysLimited(pack, t) <==> NeverReadmits(t)
  {
    if NeverReadmits(t) {
      forall maxRpm, es | Calls(es, pack, t)
        ensures Limited(Admitted(es, Replies(maxRpm, map[], es), pack), Cap(maxRpm)) {
        CallsRead(es, pack, t, |t|);
        assert es[..|t|] == es && t[..|t|] == t;
        NeverMoreThanTheLimit(maxRpm, es, pack);
      }
    } else {
      var i, j, k :| 0 <= i < j < k < |t| && Readmits(t, i, j, k);
      BothAdmitted(pack, t, i, j, k);
      TwoWithin(t[i], t[k]);
      assert Calls(Probe(pack, t, i, k), pack, t);
      assert Cap(1) == 1;
    }
  }

  /** The limit asks for less: these readings go back, but on them it is kept. */
  lemma LimitAsksForLess()
    ensures NeverReadmits([100.0, 0.0, 130.0]) && !Orderly([100.0, 0.0, 130.0])
  {
    assert Hidden([100.0, 0.0, 130.0], 0, 1, 2);
  }

  /** The clock is read before the lock is taken; were a count at 200 to overtake a check that read 150, that check
      would be let through although the limit of one was used up at 100. */
  lemma ClockMatters()
    ensures var es := [Check("p", 100.0), CurrentCount("p", 200.0), Check("p", 150.0)];
            Replies(1, map[], es) == [Allowed, Number(0), Allowed]
                && IdealReplies(1, map[], es) == [Allowed, Number(0), Refused]
  {
    var es := [Check("p", 100.0), CurrentCount("p", 200.0), Check("p", 150.0)];
    assert es[1..] == [CurrentCount("p", 200.0), Check("p", 150.0)];
    assert es[1..][1..] == [Check("p", 150.0)];
    assert es[1..][1..][1..] == [];
    var m1 := After(1, map[], es[0]);
    assert Get(m1, "p") == [100.0];
    assert Trim([100.0], 140.0) == [] by { assert [100.0][1..] == []; }
    var m2 := After(1, m1, es[1]);
    assert Get(m2, "p") == [];
    var l1 := Log(1, map[], es[0]);
    assert Get(l1, "p") == [100.0];
    assert [100.0][..0] == [];
    assert Since([100.0], 140.0) == 0 && Since([100.0], 90.0) == 1;
  }

  // ------------------------------------------------------------------------ the object

  class PackRateLimiter {
    const maxRpm: int
    var windows: Windows

    constructor (maxRpm: int)
      ensures this.maxRpm == maxRpm && windows == map[]
    {
      this.maxRpm := maxRpm;
      windows := map[];
    }

    /** The popleft loop shared by both operations. */
    method Expire(pack: string, cutoff: real)
      requires pack in windows
      modifies this`windows
      ensures windows == old(windows)[pack := Trim(old(windows)[pack], cutoff)]
    {
      while windows[pack] != [] && windows[pack][0] < cutoff
        invariant pack in windows && windows == old(windows)[pack := windows[pack]]
        invariant Trim(windows[pack], cutoff) == Trim(old(windows)[pack], cutoff)
        decreases if pack in windows then |windows[pack]| else 0
      {
        windows := windows[pack := windows[pack][1..]];
      }
    }

    method CheckRateLimit(pack: string, now: real) returns (allowed: bool)
      modifies this`windows
      ensures allowed <==> Reply(maxRpm, old(windows), Check(pack, now)) == Allowed
      ensures windows == After(maxRpm, old(windows), Check(pack, now))
    {
      if pack !in windows { windows := windows[pack := []]; }
      Expire(pack, now - WINDOW_SECONDS);
      if |windows[pack]| >= maxRpm { return false; }
      windows := windows[pack := windows[pack] + [now]];
      return true;
    }

    method GetCurrentCount(pack: string, now: real) returns (n: nat)
      modifies this`windows
      ensures Number(n) == Reply(maxRpm, old(windows), CurrentCount(pack, now))
      ensures windows == After(maxRpm, old(windows), CurrentCount(pack, now))
    {
      if pack !in windows || windows[pack] == [] { return 0; }
      Expire(pack, now - WINDOW_SECONDS);
      return |windows[pack]|;
    }

    method Reset(pack: Option<string>)
      modifies this`windows
      ensures windows == After(maxRpm, old(windows), Event.Reset(pack))
    {
      if pack.Some? && pack.value != "" {
        windows := windows - {pack.value};
      } else {
        windows := map[];
      }
    }
  }
}
