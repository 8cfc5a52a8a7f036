/** When one schedule entry is due (flow_scheduler.py:190-273), on the wall clock of its time zone. */
module Schedules {
  import opened Flows
  import opened Orders

  /** A local wall-clock minute. */
  datatype Minute = Minute(year: int, month: int, day: int, hour: int, minute: int) {
    predicate Valid() { 1 <= year && 1 <= month <= 12 && 1 <= day <= 31 && 0 <= hour < 24 && 0 <= minute < 60 }

    /** Minutes since midnight. */
    function Time(): int { hour * 60 + minute }
  }

  /** The number that stands for a minute in the test against double firing. */
  function MinuteKey(m: Minute): int {
    m.year * 525960 + m.month * 43800 + m.day * 1440 + m.hour * 60 + m.minute
  }

  /** The first of a month, too early for its key to differ from that of a late minute on the 31st before. */
  predicate Shadows(late: Minute, early: Minute) {
    && late.day == 31 && early.day == 1
    && ((early.year == late.year && early.month == late.month + 1 && late.Time() == early.Time() + 600)
        || (early.year == late.year + 1 && late.month == 12 && early.month == 1 && late.Time() == early.Time() + 960))
  }

  /** Two different minutes have the same key exactly when one is ten hours (sixteen at the turn of the year) into the
      31st and the other is that much earlier in the day on the following 1st. */
  lemma KeysCollideExactly(a: Minute, b: Minute)
    requires a.Valid() && b.Valid()
    ensures MinuteKey(a) == MinuteKey(b) <==> a == b || Shadows(a, b) || Shadows(b, a)
  {
  }

  /** Earlier or the same minute. */
  predicate NotAfter(a: Minute, b: Minute) {
    || a.year < b.year
    || (a.year == b.year && (a.month < b.month
        || (a.month == b.month && (a.day < b.day || (a.day == b.day && a.Time() <= b.Time())))))
  }

  /** The five fields of a cron expression as the sets of values they accept. */
  datatype Cron = Cron(minute: set<int>, hour: set<int>, day: set<int>, month: set<int>, weekday: set<int>) {
    predicate Matches(m: Minute, weekdayOf: Minute -> int) {
      m.minute in minute && m.hour in hour && m.day in day && m.month in month && weekdayOf(m) in weekday
    }
  }

  /** cron counts the weekdays from Sunday, `datetime.weekday` from Monday. */
  function ConvertWeekdays(cronDays: set<int>): set<int> { set d | d in cronDays :: (d - 1) % 7 }

  /** Sunday is 6 and every other day one less than in cron; no two days are confused. */
  lemma WeekdayConversion(cronDays: set<int>, d: int)
    requires 0 <= d < 7 && forall e | e in cronDays :: 0 <= e < 7
    ensures d in cronDays <==> (if d == 0 then 6 else d - 1) in ConvertWeekdays(cronDays)
  {
  }

  /** Which of a run of evaluations fire, given the key of the last one that did (-1 for none). */
  function Fires(cron: Cron, weekdayOf: Minute -> int, last: int, clock: seq<Minute>): (r: seq<bool>)
    ensures |r| == |clock|
    decreases |clock|
  {
    if clock == [] then []
    else
      var m := clock[0];
      var due := MinuteKey(m) != last && cron.Matches(m, weekdayOf);
      [due] + Fires(cron, weekdayOf, if due then MinuteKey(m) else last, clock[1..])
  }

  ghost predicate NonDecreasing(clock: seq<Minute>) {
    && (forall i :: 0 <= i < |clock| ==> clock[i].Valid())
    && (forall i, j :: 0 <= i < j < |clock| ==> NotAfter(clock[i], clock[j]))
  }

  /** Nothing fires any more in the minute that fired last. */
  lemma {:induction false} QuietMinute(cron: Cron, w: Minute -> int, m: Minute, clock: seq<Minute>, j: nat)
    requires m.Valid() && NonDecreasing(clock) && j < |clock| && clock[j] == m && NotAfter(m, clock[0])
    ensures !Fires(cron, w, MinuteKey(m), clock)[j]
  {
    if j > 0 {
      assert NotAfter(clock[0], clock[j]);
      assert clock[0] == m;
      QuietMinute(cron, w, m, clock[1..], j - 1);
    }
  }

  /** With a clock that never goes back, no minute fires twice. */
  lemma {:induction false} NoDoubleFire(cron: Cron, w: Minute -> int, last: int, clock: seq<Minute>, i: nat, j: nat)
    requires NonDecreasing(clock) && i < j < |clock| && clock[i] == clock[j]
    requires Fires(cron, w, last, clock)[i]
    ensures !Fires(cron, w, last, clock)[j]
    decreases |clock|
  {
    var due := MinuteKey(clock[0]) != last && cron.Matches(clock[0], w);
    if i > 0 {
      NoDoubleFire(cron, w, if due then MinuteKey(clock[0]) else last, clock[1..], i - 1, j - 1);
    } else {
      assert NotAfter(clock[0], clock[1]);
      QuietMinute(cron, w, clock[0], clock[1..], j - 1);
    }
  }

  /** The key held when evaluation `j` starts. */
  function Held(cron: Cron, w: Minute -> int, last: int, clock: seq<Minute>, j: nat): int
    requires j <= |clock|
    decreases j
  {
    if j == 0 then last
    else
      var due := MinuteKey(clock[0]) != last && cron.Matches(clock[0], w);
      Held(cron, w, if due then MinuteKey(clock[0]) else last, clock[1..], j - 1)
  }

  lemma {:induction false} FiresByHeld(cron: Cron, w: Minute -> int, last: int, clock: seq<Minute>, j: nat)
    requires j < |clock|
    ensures Fires(cron, w, last, clock)[j] <==>
            MinuteKey(clock[j]) != Held(cron, w, last, clock, j) && cron.Matches(clock[j], w)
    decreases j
  {
    if j > 0 {
      var due := MinuteKey(clock[0]) != last && cron.Matches(clock[0], w);
      FiresByHeld(cron, w, if due then MinuteKey(clock[0]) else last, clock[1..], j - 1);
    }
  }

  /** All five fields of a minute are in the sets of the schedule; `days` are the weekdays as cron counts them, from
      Sunday. */
  ghost predicate OnSchedule(cron: Cron, days: set<int>, m: Minute, mondayBased: int) {
    && m.minute in cron.minute && m.hour in cron.hour && m.day in cron.day && m.month in cron.month
    && (if mondayBased == 6 then 0 else mondayBased + 1) in days
  }

  /** A minute fires exactly when all its fields are on schedule and its key is not the one held. */
  lemma FiresExactly(cron: Cron, days: set<int>, w: Minute -> int, last: int, clock: seq<Minute>, j: nat)
    requires j < |clock| && cron.weekday == ConvertWeekdays(days) && 0 <= w(clock[j]) < 7
    requires forall d | d in days :: 0 <= d < 7
    ensures Fires(cron, w, last, clock)[j] <==>
            OnSchedule(cron, days, clock[j], w(clock[j])) && MinuteKey(clock[j]) != Held(cron, w, last, clock, j)
  {
    FiresByHeld(cron, w, last, clock, j);
    var d := if w(clock[j]) == 6 then 0 else w(clock[j]) + 1;
    WeekdayConversion(days, d);
  }

  /** The latest evaluation before `j` that matched the schedule, whether it fired or not. */
  ghost predicate LastMatch(cron: Cron, w: Minute -> int, clock: seq<Minute>, i: int, j: int) {
    0 <= i < j <= |clock| && cron.Matches(clock[i], w) && forall k :: i < k < j ==> !cron.Matches(clock[k], w)
  }

  /** The key held belongs to it: where it did not fire, the same key was held already. */
  lemma {:induction false} HeldKey(cron: Cron, w: Minute -> int, last: int, clock: seq<Minute>, j: nat) returns (i: int)
    requires j <= |clock|
    ensures i == -1 || (LastMatch(cron, w, clock, i, j) && Held(cron, w, last, clock, j) == MinuteKey(clock[i]))
    ensures i == -1 ==> Held(cron, w, last, clock, j) == last && forall k :: 0 <= k < j ==> !cron.Matches(clock[k], w)
    decreases j
  {
    i := -1;
    if j > 0 {
      var due := MinuteKey(clock[0]) != last && cron.Matches(clock[0], w);
      i := HeldKey(cron, w, if due then MinuteKey(clock[0]) else last, clock[1..], j - 1);
      assert forall k :: 1 <= k < j ==> clock[k] == clock[1..][k - 1];
      if i >= 0 {
        i := i + 1;
      } else if cron.Matches(clock[0], w) {
        i := 0;
      }
    }
  }

  /** Same minute, or one of two whose keys collide. */
  predicate SharesKey(a: Minute, b: Minute) { a == b || Shadows(a, b) || Shadows(b, a) }

  /** From a fresh entry, whatever the clock does, a matching minute is passed over exactly when the latest minute
      before it that the entry was evaluated in and the schedule matches is the same or has a colliding key. */
  lemma PassedOverExactly(cron: Cron, w: Minute -> int, clock: seq<Minute>, j: nat)
    requires (forall i :: 0 <= i < |clock| ==> clock[i].Valid()) && j < |clock| && cron.Matches(clock[j], w)
    ensures !Fires(cron, w, -1, clock)[j] <==>
            exists i :: LastMatch(cron, w, clock, i, j) && SharesKey(clock[i], clock[j])
  {
    FiresByHeld(cron, w, -1, clock, j);
    var h := HeldKey(cron, w, -1, clock, j);
    forall i | LastMatch(cron, w, clock, i, j)
      ensures i == h && (MinuteKey(clock[i]) == MinuteKey(clock[j]) <==> SharesKey(clock[i], clock[j]))
    {
      assert i == h;
      KeysCollideExactly(clock[i], clock[j]);
    }
  }

  /** With a clock that never goes back the late minute of a colliding pair comes first. */
  lemma ShadowsForward(clock: seq<Minute>, i: nat, j: nat)
    requires NonDecreasing(clock) && i < j < |clock|
    ensures SharesKey(clock[i], clock[j]) <==> clock[i] == clock[j] || Shadows(clock[i], clock[j])
  {
    assert NotAfter(clock[i], clock[j]);
  }

  /** So a job for the 31st at ten and the 1st at midnight loses its second date. */
  lemma MidnightOnTheFirstIsLost(w: Minute -> int, year: int)
    requires year >= 1 && forall m :: 0 <= w(m) < 7
    ensures var cron := Cron({0}, {0, 10}, {1, 31}, {1, 2}, {0, 1, 2, 3, 4, 5, 6});
            var clock := [Minute(year, 1, 31, 10, 0), Minute(year, 2, 1, 0, 0)];
            && cron.Matches(clock[0], w) && cron.Matches(clock[1], w)
            && Fires(cron, w, -1, clock) == [true, false]
  {
  }

  // ------------------------------------------------------------------ intervals

  const MIN_INTERVAL := 10.0

  /** Shorter intervals are registered as the minimum. */
  function Clamp(requested: real): real { if requested < MIN_INTERVAL then MIN_INTERVAL else requested }

  /** One evaluation of an interval entry: the time read by the tick, whether the flow is still running, and the time
      read again when the next run is computed. */
  datatype Look = Look(now: real, busy: bool, again: real)

  ghost predicate Ticking(looks: seq<Look>) {
    && (forall i :: 0 <= i < |looks| ==> looks[i].now <= looks[i].again)
    && (forall i, j :: 0 <= i < j < |looks| ==> looks[i].again <= looks[j].now)
  }

  /** Which evaluations claim the flow. */
  function Claims(interval: real, next: real, looks: seq<Look>): (r: seq<bool>)
    ensures |r| == |looks|
    decreases |looks|
  {
    if looks == [] then []
    else
      var c := !looks[0].busy && looks[0].now >= next;
      [c] + Claims(interval, if c then looks[0].again + interval else next, looks[1..])
  }

  /** The latest claim before `j`. */
  ghost predicate LastClaim(claimed: seq<bool>, i: int, j: int) {
    0 <= i < j <= |claimed| && claimed[i] && forall k :: i < k < j ==> !claimed[k]
  }

  /** When the next run is due at look `j`: an interval after the latest claim, or as planned at first. */
  ghost predicate DueFrom(interval: real, next: real, looks: seq<Look>, j: nat, due: real)
    requires j <= |looks|
  {
    var claimed := Claims(interval, next, looks);
    && ((forall i :: 0 <= i < j ==> !claimed[i]) ==> due == next)
    && (forall i :: LastClaim(claimed, i, j) ==> due == looks[i].again + interval)
  }

  lemma {:induction false} DueExists(interval: real, next: real, looks: seq<Look>, j: nat) returns (due: real)
    requires j < |looks|
    ensures DueFrom(interval, next, looks, j, due)
    ensures Claims(interval, next, looks)[j] <==> !looks[j].busy && looks[j].now >= due
    decreases j
  {
    if j == 0 {
      due := next;
    } else {
      var c := !looks[0].busy && looks[0].now >= next;
      var next' := if c then looks[0].again + interval else next;
      due := DueExists(interval, next', looks[1..], j - 1);
      DueLater(interval, next, looks, j, due);
    }
  }

  lemma DueLater(interval: real, next: real, looks: seq<Look>, j: nat, due: real)
    requires 0 < j <= |looks|
    requires var c := !looks[0].busy && looks[0].now >= next;
             DueFrom(interval, if c then looks[0].again + interval else next, looks[1..], j - 1, due)
    ensures DueFrom(interval, next, looks, j, due)
  {
    var c := !looks[0].busy && looks[0].now >= next;
    var rest := Claims(interval, if c then looks[0].again + interval else next, looks[1..]);
    var claimed := Claims(interval, next, looks);
    assert claimed == [c] + rest;
    if forall i :: 0 <= i < j ==> !claimed[i] {
      assert !claimed[0];
      forall i | 0 <= i < j - 1 ensures !rest[i] { assert !claimed[i + 1]; }
    }
    forall i | LastClaim(claimed, i, j) ensures due == looks[i].again + interval {
      if i == 0 {
        forall k | 0 <= k < j - 1 ensures !rest[k] { assert !claimed[k + 1]; }
      } else {
        forall k | i - 1 < k < j - 1 ensures !rest[k] { assert !claimed[k + 1]; }
        assert LastClaim(rest, i - 1, j - 1);
      }
    }
  }

  /** An entry is claimed at a look if and only if its flow is not running and the run is due: the planned first time
      has come, or an interval has passed since the next run was computed at the latest claim. */
  lemma ClaimedExactly(interval: real, next: real, looks: seq<Look>, j: nat, due: real)
    requires j < |looks| && DueFrom(interval, next, looks, j, due)
    ensures Claims(interval, next, looks)[j] <==> !looks[j].busy && looks[j].now >= due
  {
    var d := DueExists(interval, next, looks, j);
    DueUnique(interval, next, looks, j, d, due);
  }

  lemma DueUnique(interval: real, next: real, looks: seq<Look>, j: nat, d: real, due: real)
    requires j <= |looks| && DueFrom(interval, next, looks, j, d) && DueFrom(interval, next, looks, j, due)
    ensures d == due
  {
    var claimed := Claims(interval, next, looks);
    if i :| 0 <= i < j && claimed[i] {
      var k := LatestClaim(claimed, j, i);
      assert LastClaim(claimed, k, j);
    }
  }

  lemma {:induction false} LatestClaim(claimed: seq<bool>, j: nat, i: nat) returns (k: nat)
    requires i < j <= |claimed| && claimed[i]
    ensures LastClaim(claimed, k, j)
    decreases j
  {
    if claimed[j - 1] { k := j - 1; } else { k := LatestClaim(claimed, j - 1, i); }
  }

  lemma {:induction false} NotBeforeNext(interval: real, next: real, looks: seq<Look>, j: nat)
    requires Ticking(looks) && interval >= 0.0 && j < |looks| && Claims(interval, next, looks)[j]
    ensures looks[j].now >= next
    decreases |looks|
  {
    if j > 0 {
      var c := !looks[0].busy && looks[0].now >= next;
      NotBeforeNext(interval, if c then looks[0].again + interval else next, looks[1..], j - 1);
      assert looks[0].again <= looks[j].now;
    }
  }

  /** Any two claims of an interval entry are at least the interval apart. */
  lemma {:induction false} IntervalSpacing(interval: real, next: real, looks: seq<Look>, i: nat, j: nat)
    requires Ticking(looks) && interval >= 0.0 && i < j < |looks|
    requires Claims(interval, next, looks)[i] && Claims(interval, next, looks)[j]
    ensures looks[j].now >= looks[i].now + interval
    decreases |looks|
  {
    var c := !looks[0].busy && looks[0].now >= next;
    var next' := if c then looks[0].again + interval else next;
    if i > 0 {
      IntervalSpacing(interval, next', looks[1..], i - 1, j - 1);
    } else {
      NotBeforeNext(interval, next', looks[1..], j - 1);
    }
  }

  /** So no registered interval lets a flow be claimed twice within ten seconds. */
  lemma MinimumSpacing(requested: real, next: real, looks: seq<Look>, i: nat, j: nat)
    requires Ticking(looks) && i < j < |looks|
    requires Claims(Clamp(requested), next, looks)[i] && Claims(Clamp(requested), next, looks)[j]
    ensures looks[j].now >= looks[i].now + 10.0 && looks[j].now >= looks[i].now + requested
  {
    IntervalSpacing(Clamp(requested), next, looks, i, j);
  }

  // ------------------------------------------------------------------ the object

  class ScheduleEntry {
    const cron: Option<Cron>
    const interval: Option<real>
    var lastCronMinute: int
    var nextRunUtc: Option<real>
    var nextIntervalAt: real

    constructor (cron: Option<Cron>, requested: Option<real>)
      ensures this.cron == cron && interval == if requested.Some? then Some(Clamp(requested.value)) else None
      ensures lastCronMinute == -1 && nextRunUtc == None && nextIntervalAt == 0.0
    {
      this.cron := cron;
      interval := if requested.Some? then Some(Clamp(requested.value)) else None;
      lastCronMinute, nextRunUtc, nextIntervalAt := -1, None, 0.0;
    }

    ghost function Now(): Memory
      reads this
    {
      Memory(lastCronMinute, nextRunUtc)
    }

    /** At registration and at every claim; `again` is the clock read by `compute_next_interval`. */
    method SetNext(nowMono: real, again: real)
      modifies this`nextRunUtc, this`nextIntervalAt
      ensures interval.Some? ==>
              nextIntervalAt == nowMono + interval.value && nextRunUtc == Some(again + interval.value)
      ensures interval.None? ==> nextIntervalAt == old(nextIntervalAt) && nextRunUtc == old(nextRunUtc)
    {
      if interval.Some? {
        nextIntervalAt := nowMono + interval.value;
        nextRunUtc := Some(again + interval.value);
      }
    }

    /** `local` is the time zone's reading of `nowUtc`. A cron schedule hides an interval. */
    method ShouldRun(nowMono: real, nowUtc: real, local: Minute, weekdayOf: Minute -> int) returns (due: bool)
      modifies this`lastCronMinute
      ensures cron.Some? ==>
        && [due] == Fires(cron.value, weekdayOf, old(lastCronMinute), [local])
        && lastCronMinute == if due then MinuteKey(local) else old(lastCronMinute)
      ensures cron.Some? ==> (due <==>
        && MinuteKey(local) != old(lastCronMinute)
        && local.minute in cron.value.minute && local.hour in cron.value.hour && local.day in cron.value.day
        && local.month in cron.value.month && weekdayOf(local) in cron.value.weekday)
      ensures cron.None? ==> lastCronMinute == old(lastCronMinute)
      ensures cron.None? && interval.Some? ==>
        [due] == Claims(interval.value, if nextRunUtc.Some? then nextRunUtc.value else nextIntervalAt,
                        [Look(if nextRunUtc.Some? then nowUtc else nowMono, false, nowUtc)])
      ensures cron.None? && interval.None? ==> !due
    {
      if cron.Some? {
        var currentMinute := local.year * 525960 + local.month * 43800 + local.day * 1440 + local.hour * 60
            + local.minute;
        assert [local][1..] == [];
        if currentMinute == lastCronMinute { return false; }
        if cron.value.Matches(local, weekdayOf) {
          lastCronMinute := currentMinute;
          return true;
        }
        return false;
      }
      if interval.Some? {
        ghost var look := Look(if nextRunUtc.Some? then nowUtc else nowMono, false, nowUtc);
        assert [look][1..] == [];
        if nextRunUtc.Some? { return nowUtc >= nextRunUtc.value; }
        return nowMono >= nextIntervalAt;
      }
      return false;
    }
  }

  /** The elements of q at the looks that find the flow idle. */
  function Idle<T>(q: seq<T>, looks: seq<Look>): seq<T>
    requires |q| == |looks|
  {
    if q == [] then [] else (if looks[0].busy then [] else [q[0]]) + Idle(q[1..], looks[1..])
  }

  lemma {:induction false} IdleSnoc<T>(q: seq<T>, looks: seq<Look>, x: T, look: Look)
    requires |q| == |looks|
    ensures Idle(q + [x], looks + [look]) == Idle(q, looks) + if look.busy then [] else [x]
  {
    if q == [] {
      assert [x][1..] == [] && q + [x] == [x] && looks + [look] == [look];
    } else {
      assert (q + [x])[1..] == q[1..] + [x] && (looks + [look])[1..] == looks[1..] + [look];
      IdleSnoc(q[1..], looks[1..], x, look);
      Reassociate(if looks[0].busy then [] else [q[0]], Idle(q[1..], looks[1..]), if look.busy then [] else [x]);
    }
  }

  /** One evaluation more. */
  lemma {:induction false} FiresSnoc(cron: Cron, w: Minute -> int, last: int, clock: seq<Minute>, m: Minute)
    ensures var held := Held(cron, w, last, clock, |clock|);
            var due := MinuteKey(m) != held && cron.Matches(m, w);
            && Fires(cron, w, last, clock + [m]) == Fires(cron, w, last, clock) + [due]
            && Held(cron, w, last, clock + [m], |clock| + 1) == (if due then MinuteKey(m) else held)
            && Fires(cron, w, held, [m]) == [due]
    decreases |clock|
  {
    assert [m][1..] == [];
    if clock == [] {
      assert clock + [m] == [m];
    } else {
      var due := MinuteKey(clock[0]) != last && cron.Matches(clock[0], w);
      assert (clock + [m])[1..] == clock[1..] + [m];
      FiresSnoc(cron, w, if due then MinuteKey(clock[0]) else last, clock[1..], m);
    }
  }

  /** The fields of an entry that evaluations change. */
  datatype Memory = Memory(lastCronMinute: int, nextRunUtc: Option<real>)

  /** What one tick makes of an entry: a running flow is passed over, a due one is claimed and rescheduled. */
  ghost predicate Ticked(cron: Option<Cron>, interval: Option<real>, w: Minute -> int, look: Look, local: Minute,
                         m: Memory, c: bool, m': Memory)
  {
    && (look.busy || (cron.None? && interval.None?) ==> !c)
    && (cron.Some? && !look.busy ==> [c] == Fires(cron.value, w, m.lastCronMinute, [local]))
    && (cron.Some? ==> m'.lastCronMinute == if c then MinuteKey(local) else m.lastCronMinute)
    && (cron.None? && interval.Some? && m.nextRunUtc.Some? ==>
          && c == (!look.busy && look.now >= m.nextRunUtc.value)
          && m'.nextRunUtc == if c then Some(look.again + interval.value) else m.nextRunUtc)
  }

  method Tick(entry: ScheduleEntry, look: Look, mono: real, local: Minute, weekdayOf: Minute -> int) returns (c: bool)
    modifies entry
    ensures Ticked(entry.cron, entry.interval, weekdayOf, look, local, old(entry.Now()), c, entry.Now())
  {
    c := false;
    if look.busy { return; }
    OneClaim(if entry.interval.Some? then entry.interval.value else 0.0,
             if entry.nextRunUtc.Some? then entry.nextRunUtc.value else 0.0, look.now);
    c := entry.ShouldRun(mono, look.now, local, weekdayOf);
    if c { entry.SetNext(mono, look.again); }
  }

  lemma OneClaim(interval: real, next: real, now: real)
    ensures Claims(interval, next, [Look(now, false, now)]) == [now >= next]
  {
    assert [Look(now, false, now)][1..] == [];
  }

  /** What an interval entry has claimed after i looks, the next run being due at `next`. */
  ghost predicate ClaimedSoFar(interval: real, first: real, looks: seq<Look>, claimed: seq<bool>, i: nat, next: real)
    requires i <= |looks|
  {
    claimed + Claims(interval, next, looks[i..]) == Claims(interval, first, looks)
  }

  lemma ClaimsNext(interval: real, first: real, looks: seq<Look>, claimed: seq<bool>, i: nat, next: real, c: bool)
    requires i < |looks| && ClaimedSoFar(interval, first, looks, claimed, i, next)
    requires c == (!looks[i].busy && looks[i].now >= next)
    ensures ClaimedSoFar(interval, first, looks, claimed + [c], i + 1, if c then looks[i].again + interval else next)
  {
    assert looks[i..][0] == looks[i] && looks[i..][1..] == looks[i + 1..];
    Reassociate(claimed, [c], Claims(interval, if c then looks[i].again + interval else next, looks[i + 1..]));
  }

  /** What a cron entry has claimed after some looks, and the key it holds then. */
  ghost predicate FiredSoFar(cron: Cron, w: Minute -> int, last: int, claimed: seq<bool>, locals: seq<Minute>,
                             looks: seq<Look>, held: int)
    requires |claimed| == |locals| == |looks|
  {
    var clock := Idle(locals, looks);
    Idle(claimed, looks) == Fires(cron, w, last, clock) && held == Held(cron, w, last, clock, |clock|)
  }

  lemma FiredNext(cron: Cron, w: Minute -> int, last: int, claimed: seq<bool>, locals: seq<Minute>, looks: seq<Look>,
                  held: int, c: bool, m: Minute, look: Look)
    requires |claimed| == |locals| == |looks| && FiredSoFar(cron, w, last, claimed, locals, looks, held)
    requires look.busy ==> !c
    requires !look.busy ==> [c] == Fires(cron, w, held, [m])
    ensures FiredSoFar(cron, w, last, claimed + [c], locals + [m], looks + [look], if c then MinuteKey(m) else held)
  {
    IdleSnoc(claimed, looks, c, look);
    IdleSnoc(locals, looks, m, look);
    var clock := Idle(locals, looks);
    FiresSnoc(cron, w, last, clock, m);
    if look.busy {
      assert clock + [] == clock && Idle(claimed, looks) + [] == Idle(claimed, looks);
    } else {
      assert Fires(cron, w, held, [m])[0] == c;
    }
  }

  /** What has been claimed after i looks, and what the entry holds then. */
  ghost predicate SoFar(cron: Option<Cron>, interval: Option<real>, w: Minute -> int, start: Memory, looks: seq<Look>,
                        locals: seq<Minute>, claimed: seq<bool>, i: nat, m: Memory)
    requires |locals| == |looks|
  {
    && i <= |looks| && |claimed| == i
    && (forall k :: 0 <= k < i && (looks[k].busy || (cron.None? && interval.None?)) ==> !claimed[k])
    && (cron.None? && interval.Some? && start.nextRunUtc.Some? ==>
          m.nextRunUtc.Some?
              && ClaimedSoFar(interval.value, start.nextRunUtc.value, looks, claimed, i, m.nextRunUtc.value))
    && (cron.Some? ==>
        FiredSoFar(cron.value, w, start.lastCronMinute, claimed, locals[..i], looks[..i], m.lastCronMinute))
  }

  lemma SoFarNext(cron: Option<Cron>, interval: Option<real>, w: Minute -> int, start: Memory, looks: seq<Look>,
                  locals: seq<Minute>, claimed: seq<bool>, i: nat, m: Memory, c: bool, m': Memory)
    requires |locals| == |looks| && i < |looks| && SoFar(cron, interval, w, start, looks, locals, claimed, i, m)
    requires Ticked(cron, interval, w, looks[i], locals[i], m, c, m')
    ensures SoFar(cron, interval, w, start, looks, locals, claimed + [c], i + 1, m')
  {
    if cron.None? && interval.Some? && start.nextRunUtc.Some? {
      ClaimsNext(interval.value, start.nextRunUtc.value, looks, claimed, i, m.nextRunUtc.value, c);
    }
    if cron.Some? {
      TakeNext(locals, i);
      TakeNext(looks, i);
      FiredNext(cron.value, w, start.lastCronMinute, claimed, locals[..i], looks[..i], m.lastCronMinute, c, locals[i],
                looks[i]);
    }
  }

  /** What the ticks do with one entry. `mono` and `locals` are the other readings of the clock at each look. */
  method RunTicks(entry: ScheduleEntry, looks: seq<Look>, mono: seq<real>, locals: seq<Minute>,
                  weekdayOf: Minute -> int)
      returns (claimed: seq<bool>)
    requires |mono| == |locals| == |looks|
    requires entry.cron.None? && entry.interval.Some? ==> entry.nextRunUtc.Some?
    modifies entry
    ensures |claimed| == |looks| && forall i :: 0 <= i < |looks| && looks[i].busy ==> !claimed[i]
    ensures entry.cron.None? && entry.interval.Some? ==>
      claimed == Claims(entry.interval.value, old(entry.nextRunUtc).value, looks)
    ensures entry.cron.Some? ==>
      Idle(claimed, looks) == Fires(entry.cron.value, weekdayOf, old(entry.lastCronMinute), Idle(locals, looks))
    ensures entry.cron.None? && entry.interval.None? ==> forall i :: 0 <= i < |looks| ==> !claimed[i]
  {
    claimed := [];
    ghost var start := entry.Now();
    assert looks[0..] == looks;
    for i := 0 to |looks|
      invariant SoFar(entry.cron, entry.interval, weekdayOf, start, looks, locals, claimed, i, entry.Now())
    {
      ghost var before := entry.Now();
      var c := Tick(entry, looks[i], mono[i], locals[i], weekdayOf);
      SoFarNext(entry.cron, entry.interval, weekdayOf, start, looks, locals, claimed, i, before, c, entry.Now());
      claimed := claimed + [c];
    }
    TakeAll(locals);
    TakeAll(looks);
  }

  /** A registered interval, run over any number of ticks. */
  method RunInterval(requested: real, monoAtStart: real, start: real, looks: seq<Look>, mono: seq<real>,
                     locals: seq<Minute>, weekdayOf: Minute -> int) returns (claimed: seq<bool>)
    requires |mono| == |locals| == |looks|
    ensures claimed == Claims(Clamp(requested), start + Clamp(requested), looks)
    ensures Ticking(looks) ==> forall i, j :: 0 <= i < j < |looks| && claimed[i] && claimed[j] ==>
      looks[j].now >= looks[i].now + 10.0 && looks[j].now >= looks[i].now + requested
  {
    var entry := new ScheduleEntry(None, Some(requested));
    entry.SetNext(monoAtStart, start);
    claimed := RunTicks(entry, looks, mono, locals, weekdayOf);
    if Ticking(looks) {
      forall i, j | 0 <= i < j < |looks| && claimed[i] && claimed[j]
        ensures looks[j].now >= looks[i].now + 10.0 && looks[j].now >= looks[i].now + requested
      {
        MinimumSpacing(requested, start + Clamp(requested), looks, i, j);
      }
    }
  }
}
