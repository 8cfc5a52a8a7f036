/** The life of capability handler candidates (capability_installer.py). */
module CapabilityInstaller {
  import opened Flows

  /** `pack:slug:handler:sha256` */
  type Key = string

  datatype Status = PENDING | INSTALLED | REJECTED | BLOCKED | FAILED

  datatype Item = Item(status: Status, rejectCount: nat, cooldownUntil: Option<real>, installedTo: Option<string>,
                       lastError: Option<string>)

  /** `blocked` remembers the number of rejections at the time of blocking. */
  datatype State = State(index: map<Key, Item>, blocked: map<Key, nat>)

  const INIT := State(map[], map[])

  datatype Config = Config(cooldown: real, threshold: int)

  /** How the checks and the copying of an installation end. */
  datatype Attempt = Installs(dest: string) | Fails(error: string)

  datatype Action =
    | Scan(keys: seq<Key>, now: real)           // the valid candidates, in scanning order
    | Approve(key: Key, attempt: Attempt)
    | Reject(key: Key, now: real)
    | Unblock(key: Key, now: real)

  // -------------------------------------------------------------------- the steps

  datatype Found = Created | SkippedBlocked | SkippedInstalled | SkippedPending | SkippedCooldown | SkippedFailed

  /** What a scan makes of one candidate. */
  function Look(s: State, k: Key, now: real): Found {
    if k in s.blocked then SkippedBlocked
    else if k !in s.index then Created
    else
      match s.index[k].status
      case INSTALLED => SkippedInstalled
      case PENDING => SkippedPending
      case REJECTED =>
        var until := s.index[k].cooldownUntil;
        if until.Some? && until.value > now then SkippedCooldown else Created
      case FAILED => SkippedFailed
      case BLOCKED => SkippedBlocked
  }

  function ScanOne(s: State, k: Key, now: real): State {
    if Look(s, k, now) != Created then s
    else if k in s.index then s.(index := s.index[k := s.index[k].(status := PENDING, cooldownUntil := None)])
    else s.(index := s.index[k := Item(PENDING, 0, None, None, None)])
  }

  /** The first n candidates have been looked at. */
  function ScanFirst(s: State, keys: seq<Key>, n: nat, now: real): State
    requires n <= |keys|
  {
    if n == 0 then s else ScanOne(ScanFirst(s, keys, n - 1, now), keys[n - 1], now)
  }

  predicate Approvable(s: State, k: Key) {
    k in s.index && s.index[k].status != INSTALLED && s.index[k].status != BLOCKED
  }

  predicate Rejectable(s: State, k: Key) { Approvable(s, k) }

  predicate Unblockable(s: State, k: Key) { k in s.blocked || (k in s.index && s.index[k].status == BLOCKED) }

  function Installed(it: Item, attempt: Attempt): Item {
    match attempt
    case Installs(dest) => Item(INSTALLED, it.rejectCount, None, Some(dest), None)
    case Fails(e) => it.(status := FAILED, lastError := Some(e))
  }

  function Next(c: Config, s: State, a: Action): State {
    match a
    case Scan(keys, now) => ScanFirst(s, keys, |keys|, now)
    case Approve(k, attempt) =>
      if !Approvable(s, k) then s else s.(index := s.index[k := Installed(s.index[k], attempt)])
    case Reject(k, now) =>
      if !Rejectable(s, k) then s
      else
        var it := s.index[k].(rejectCount := s.index[k].rejectCount + 1);
        if it.rejectCount >= c.threshold then
          State(s.index[k := it.(status := BLOCKED, cooldownUntil := None)], s.blocked[k := it.rejectCount])
        else s.(index := s.index[k := it.(status := REJECTED, cooldownUntil := Some(now + c.cooldown))])
    case Unblock(k, now) =>
      if !Unblockable(s, k) then s
      else
        var s' := s.(blocked := s.blocked - {k});
        if k !in s.index then s'
        else s'.(index := s.index[k := s.index[k].(status := REJECTED, cooldownUntil := Some(now + c.cooldown))])
  }

  function After(c: Config, s: State, acts: seq<Action>): State
    decreases |acts|
  {
    if acts == [] then s else After(c, Next(c, s, acts[0]), acts[1..])
  }

  // -------------------------------------------------------------------- invariants

  ghost predicate SoundItem(c: Config, it: Item) {
    && (it.status.REJECTED? ==> it.cooldownUntil.Some?)
    && (it.status.PENDING? || it.status.INSTALLED? || it.status.BLOCKED? ==> it.cooldownUntil.None?)
    && (it.status.BLOCKED? ==> it.rejectCount >= c.threshold)
    && (it.status.INSTALLED? <==> it.installedTo.Some?)
    && (it.status.INSTALLED? ==> it.lastError.None?) && (it.status.FAILED? ==> it.lastError.Some?)
  }

  ghost predicate Sound(c: Config, s: State) {
    && (forall k :: k in s.index ==> SoundItem(c, s.index[k]))
    && (forall k :: k in s.blocked <==> k in s.index && s.index[k].status.BLOCKED?)
    && (forall k :: k in s.blocked ==> s.blocked[k] == s.index[k].rejectCount)
  }

  lemma SoundScanOne(c: Config, s: State, k: Key, now: real)
    requires Sound(c, s)
    ensures Sound(c, ScanOne(s, k, now))
  {
  }

  lemma {:induction false} SoundScan(c: Config, s: State, keys: seq<Key>, n: nat, now: real)
    requires Sound(c, s) && n <= |keys|
    ensures Sound(c, ScanFirst(s, keys, n, now))
  {
    if n > 0 {
      SoundScan(c, s, keys, n - 1, now);
      SoundScanOne(c, ScanFirst(s, keys, n - 1, now), keys[n - 1], now);
    }
  }

  lemma SoundStep(c: Config, s: State, a: Action)
    requires Sound(c, s)
    ensures Sound(c, Next(c, s, a))
  {
    if a.Scan? { SoundScan(c, s, a.keys, |a.keys|, a.now); }
  }

  /** In every run from an empty store a key is on the block list exactly when its status says so, blocking takes at
      least the threshold of rejections, and only rejected or failed candidates have a cooldown. */
  lemma {:induction false} AlwaysSound(c: Config, s: State, acts: seq<Action>)
    requires Sound(c, s)
    ensures Sound(c, After(c, s, acts))
    decreases |acts|
  {
    if acts != [] {
      SoundStep(c, s, acts[0]);
      AlwaysSound(c, Next(c, s, acts[0]), acts[1..]);
    }
  }

  /** A scan touches no key that it skips, and those that it takes become pending. */
  lemma {:induction false} ScanKeeps(s: State, keys: seq<Key>, n: nat, now: real, k: Key)
    requires n <= |keys|
    ensures var t, taken := ScanFirst(s, keys, n, now), k in keys[..n] && Look(s, k, now) == Created;
            && t.blocked == s.blocked
            && (if taken
                then k in t.index && t.index[k].status == PENDING && t.index[k].cooldownUntil == None
                     && t.index[k].rejectCount == (if k in s.index then s.index[k].rejectCount else 0)
                else k in t.index <==> k in s.index)
            && (k in s.index && !taken ==> t.index[k] == s.index[k])
  {
    if n > 0 {
      ScanKeeps(s, keys, n - 1, now, k);
      assert keys[..n] == keys[..n - 1] + [keys[n - 1]];
    }
  }

  // ----------------------------------------------------------- what each step decides

  /** Everything about the other candidates is as it was. */
  ghost predicate OthersKept(s: State, t: State, k: Key) {
    && (forall j :: j != k ==>
        (j in t.index <==> j in s.index) && (j in s.index ==> j in t.index && t.index[j] == s.index[j]))
    && (forall j :: j != k ==> (j in t.blocked <==> j in s.blocked))
    && (forall j :: j != k && j in s.blocked ==> j in t.blocked && t.blocked[j] == s.blocked[j])
  }

  /** Waiting, rejected and failed candidates can be decided about. */
  ghost predicate Open(s: State, k: Key) {
    Has(s, k, PENDING) || Has(s, k, REJECTED) || Has(s, k, FAILED)
  }

  /** An open candidate is installed if and only if the attempt succeeds, at its destination and with nothing
      held against it but the rejections; a failed attempt is remembered. Nothing else changes, and no other
      candidate does. */
  lemma ApproveExactly(c: Config, s: State, k: Key, attempt: Attempt)
    ensures var t := Next(c, s, Approve(k, attempt));
            && OthersKept(s, t, k) && t.blocked == s.blocked
            && (!Open(s, k) ==> t == s)
            && (Open(s, k) ==> (Has(t, k, INSTALLED) <==> attempt.Installs?) && (Has(t, k, FAILED) <==> attempt.Fails?))
            && (Open(s, k) ==> t.index[k].rejectCount == s.index[k].rejectCount)
            && (forall dest :: Open(s, k) && attempt == Installs(dest) ==>
                  t.index[k].installedTo == Some(dest) && t.index[k].cooldownUntil == None
                      && t.index[k].lastError == None)
            && (forall e :: Open(s, k) && attempt == Fails(e) ==>
                  && t.index[k].lastError == Some(e) && t.index[k].installedTo == s.index[k].installedTo
                  && t.index[k].cooldownUntil == s.index[k].cooldownUntil)
  {
  }

  /** A rejection counts one more; from the threshold on it blocks, below it the candidate rests for the cooldown. */
  lemma RejectExactly(c: Config, s: State, k: Key, now: real)
    ensures var t := Next(c, s, Reject(k, now));
            && OthersKept(s, t, k)
            && (!Open(s, k) ==> t == s)
            && (Open(s, k) ==>
                  var n := s.index[k].rejectCount + 1;
                  && k in t.index && t.index[k].rejectCount == n
                  && (Has(t, k, BLOCKED) <==> n >= c.threshold) && (Has(t, k, REJECTED) <==> n < c.threshold)
                  && (n >= c.threshold ==> t.index[k].cooldownUntil == None && k in t.blocked && t.blocked[k] == n)
                  && (n < c.threshold ==> t.index[k].cooldownUntil == Some(now + c.cooldown) && t.blocked == s.blocked))
  {
  }

  /** An unblocking takes a blocked candidate off the list and lets it rest for the cooldown; it does nothing to
      others. */
  lemma UnblockExactly(c: Config, s: State, k: Key, now: real)
    requires Sound(c, s)
    ensures var t := Next(c, s, Unblock(k, now));
            && OthersKept(s, t, k)
            && (!Has(s, k, BLOCKED) ==> t == s)
            && (Has(s, k, BLOCKED) ==>
                  && Has(t, k, REJECTED) && k !in t.blocked && t.index[k].cooldownUntil == Some(now + c.cooldown)
                  && t.index[k].rejectCount == s.index[k].rejectCount)
  {
  }

  /** A scan offers the candidates it meets for the first time and the rejected ones whose cooldown is over; it leaves
      all others as they are. */
  lemma ScanExactly(c: Config, s: State, keys: seq<Key>, now: real, k: Key)
    requires Sound(c, s)
    ensures var t := Next(c, s, Scan(keys, now));
            var offered := k in keys
                && (k !in s.index || (Has(s, k, REJECTED) && s.index[k].cooldownUntil.value <= now));
            && t.blocked == s.blocked
            && (offered ==>
                  Has(t, k, PENDING) && t.index[k].rejectCount == Count(s, k) && t.index[k].cooldownUntil == None)
            && (!offered ==> (k in t.index <==> k in s.index) && (k in s.index ==> t.index[k] == s.index[k]))
  {
    ScanKeeps(s, keys, |keys|, now, k);
    assert keys[..|keys|] == keys;
  }

  // ------------------------------------------------------------------- reject counts

  function Count(s: State, k: Key): nat { if k in s.index then s.index[k].rejectCount else 0 }

  /** Rejections of `k` in a run that succeeded. */
  function Rejections(c: Config, s: State, acts: seq<Action>, k: Key): nat
    decreases |acts|
  {
    if acts == [] then 0
    else
      (if acts[0].Reject? && acts[0].key == k && Rejectable(s, k) then 1 else 0)
      + Rejections(c, Next(c, s, acts[0]), acts[1..], k)
  }

  lemma CountStep(c: Config, s: State, a: Action, k: Key)
    ensures Count(Next(c, s, a), k) == Count(s, k) + if a.Reject? && a.key == k && Rejectable(s, k) then 1 else 0
  {
    if a.Scan? { ScanKeeps(s, a.keys, |a.keys|, a.now, k); }
  }

  /** The stored count is the number of successful rejections, across cooldowns, failures and unblocking. */
  lemma {:induction false} CountsRejections(c: Config, s: State, acts: seq<Action>, k: Key)
    ensures Count(After(c, s, acts), k) == Count(s, k) + Rejections(c, s, acts, k)
    decreases |acts|
  {
    if acts != [] {
      CountStep(c, s, acts[0], k);
      CountsRejections(c, Next(c, s, acts[0]), acts[1..], k);
    }
  }

  // --------------------------------------------------------------------- over time

  predicate Has(s: State, k: Key, status: Status) { k in s.index && s.index[k].status == status }

  lemma InstalledStep(c: Config, s: State, a: Action, k: Key)
    requires Sound(c, s) && Has(s, k, INSTALLED)
    ensures Has(Next(c, s, a), k, INSTALLED) && Next(c, s, a).index[k] == s.index[k]
  {
    if a.Scan? { ScanKeeps(s, a.keys, |a.keys|, a.now, k); }
  }

  /** An installed candidate never changes again. */
  lemma {:induction false} InstalledForGood(c: Config, s: State, acts: seq<Action>, k: Key)
    requires Sound(c, s) && Has(s, k, INSTALLED)
    ensures Has(After(c, s, acts), k, INSTALLED) && After(c, s, acts).index[k] == s.index[k]
    decreases |acts|
  {
    if acts != [] {
      InstalledStep(c, s, acts[0], k);
      SoundStep(c, s, acts[0]);
      InstalledForGood(c, Next(c, s, acts[0]), acts[1..], k);
    }
  }

  /** From blocked, only an unblocking leads anywhere. */
  lemma BlockedStep(c: Config, s: State, a: Action, k: Key)
    requires Sound(c, s) && Has(s, k, BLOCKED)
    ensures Has(Next(c, s, a), k, BLOCKED) <==> !(a.Unblock? && a.key == k)
  {
    if a.Scan? { ScanKeeps(s, a.keys, |a.keys|, a.now, k); }
  }

  lemma {:induction false} BlockedUntilUnblocked(c: Config, s: State, acts: seq<Action>, k: Key)
    requires Sound(c, s) && Has(s, k, BLOCKED)
    requires forall i :: 0 <= i < |acts| ==> !(acts[i].Unblock? && acts[i].key == k)
    ensures Has(After(c, s, acts), k, BLOCKED)
    decreases |acts|
  {
    if acts != [] {
      BlockedStep(c, s, acts[0], k);
      SoundStep(c, s, acts[0]);
      BlockedUntilUnblocked(c, Next(c, s, acts[0]), acts[1..], k);
    }
  }

  /** Unblocking does not forget: ever after, a single rejection blocks again. */
  lemma OneStrike(c: Config, s: State, acts: seq<Action>, k: Key, now: real)
    requires Sound(c, s) && Has(s, k, BLOCKED) && Rejectable(After(c, s, acts), k)
    ensures Has(Next(c, After(c, s, acts), Reject(k, now)), k, BLOCKED)
  {
    CountsRejections(c, s, acts, k);
  }

  /** Not to be offered again before `until`. */
  ghost predicate Quiet(s: State, k: Key, until: real) {
    && k in s.index && s.index[k].status != PENDING
    && (s.index[k].status == REJECTED ==> s.index[k].cooldownUntil.Some? && s.index[k].cooldownUntil.value >= until)
  }

  ghost predicate Between(a: Action, from: real, until: real) { a.Approve? || from <= a.now < until }

  lemma QuietStep(c: Config, s: State, a: Action, k: Key, from: real)
    requires Quiet(s, k, from + c.cooldown) && Between(a, from, from + c.cooldown)
    ensures Quiet(Next(c, s, a), k, from + c.cooldown)
  {
    if a.Scan? { ScanKeeps(s, a.keys, |a.keys|, a.now, k); }
  }

  lemma {:induction false} StaysQuiet(c: Config, s: State, acts: seq<Action>, k: Key, from: real)
    requires Quiet(s, k, from + c.cooldown)
    requires forall i :: 0 <= i < |acts| ==> Between(acts[i], from, from + c.cooldown)
    ensures Quiet(After(c, s, acts), k, from + c.cooldown)
    decreases |acts|
  {
    if acts != [] {
      QuietStep(c, s, acts[0], k, from);
      StaysQuiet(c, Next(c, s, acts[0]), acts[1..], k, from);
    }
  }

  /** After a successful rejection or unblocking at `now` the candidate is not offered again, whatever happens, until
      the cooldown has passed. */
  lemma CooldownHolds(c: Config, s: State, a: Action, acts: seq<Action>)
    requires Sound(c, s)
    requires (a.Reject? && Rejectable(s, a.key)) || (a.Unblock? && Unblockable(s, a.key))
    requires forall i :: 0 <= i < |acts| ==> Between(acts[i], a.now, a.now + c.cooldown)
    ensures Quiet(After(c, Next(c, s, a), acts), a.key, a.now + c.cooldown)
  {
    StaysQuiet(c, Next(c, s, a), acts, a.key, a.now);
  }

  /** And then the next scan that meets it offers it. */
  lemma OfferedAgain(s: State, keys: seq<Key>, now: real, k: Key)
    requires k in keys && k !in s.blocked && Has(s, k, REJECTED)
    ensures Has(ScanFirst(s, keys, |keys|, now), k, PENDING) <==>
            s.index[k].cooldownUntil.None? || s.index[k].cooldownUntil.value <= now
  {
    ScanKeeps(s, keys, |keys|, now, k);
    assert keys[..|keys|] == keys;
  }

  // ------------------------------------------------------------------------ the object

  /** The counters of a scan result: how many candidates had each outcome. */
  type ScanResult = multiset<Found>

  /** Every candidate is counted once, under what the scan made of it when its turn came. */
  function Tally(s: State, keys: seq<Key>, n: nat, now: real): (r: ScanResult)
    requires n <= |keys|
    ensures |r| == n
  {
    if n == 0 then multiset{}
    else Tally(s, keys, n - 1, now) + multiset{Look(ScanFirst(s, keys, n - 1, now), keys[n - 1], now)}
  }

  class CapabilityInstaller {
    const config: Config
    var index: map<Key, Item>
    var blocked: map<Key, nat>

    constructor (config: Config)
      ensures this.config == config && Contents() == INIT
    {
      this.config := config;
      index, blocked := map[], map[];
    }

    function Contents(): State
      reads this
    {
      State(index, blocked)
    }

    method ScanCandidates(keys: seq<Key>, now: real) returns (r: ScanResult)
      modifies this
      ensures Contents() == Next(config, old(Contents()), Scan(keys, now))
      ensures r == Tally(old(Contents()), keys, |keys|, now) && |r| == |keys|
    {
      r := multiset{};
      for i := 0 to |keys|
        invariant Contents() == ScanFirst(old(Contents()), keys, i, now)
        invariant r == Tally(old(Contents()), keys, i, now)
      {
        var found := ScanKey(keys[i], now);
        r := r + multiset{found};
      }
    }

    method ScanKey(k: Key, now: real) returns (found: Found)
      modifies this
      ensures found == Look(old(Contents()), k, now)
      ensures Contents() == ScanOne(old(Contents()), k, now)
    {
      if k in blocked { return SkippedBlocked; }
      if k in index {
        var existing := index[k];
        match existing.status
        case INSTALLED => return SkippedInstalled;
        case PENDING => return SkippedPending;
        case REJECTED =>
          if existing.cooldownUntil.Some? && existing.cooldownUntil.value > now { return SkippedCooldown; }
          index := index[k := existing.(status := PENDING, cooldownUntil := None)];
          return Created;
        case FAILED => return SkippedFailed;
        case BLOCKED => return SkippedBlocked;
      }
      index := index[k := Item(PENDING, 0, None, None, None)];
      return Created;
    }

    /** An installed candidate is reported as a success and left alone. */
    method ApproveAndInstall(k: Key, attempt: Attempt) returns (ok: bool)
      modifies this
      ensures Contents() == Next(config, old(Contents()), Approve(k, attempt))
      ensures ok <==> Has(Contents(), k, INSTALLED)
      ensures ok <==> Has(old(Contents()), k, INSTALLED) || (Open(old(Contents()), k) && attempt.Installs?)
    {
      if k !in index { return false; }
      var item := index[k];
      if item.status == INSTALLED { return true; }
      if item.status == BLOCKED { return false; }
      if attempt.Fails? {
        index := index[k := item.(status := FAILED, lastError := Some(attempt.error))];
        return false;
      }
      item := item.(status := INSTALLED, installedTo := Some(attempt.dest), cooldownUntil := None, lastError := None);
      index := index[k := item];
      return true;
    }

    method RejectCandidate(k: Key, now: real) returns (status: Option<Status>)
      modifies this
      ensures Contents() == Next(config, old(Contents()), Reject(k, now))
      ensures status == if Rejectable(old(Contents()), k) then Some(index[k].status) else None
    {
      if k !in index || index[k].status == INSTALLED || index[k].status == BLOCKED { return None; }
      var item := index[k];
      item := item.(rejectCount := item.rejectCount + 1);
      if item.rejectCount >= config.threshold {
        item := item.(status := BLOCKED, cooldownUntil := None);
        blocked := blocked[k := item.rejectCount];
      } else {
        item := item.(status := REJECTED, cooldownUntil := Some(now + config.cooldown));
      }
      index := index[k := item];
      return Some(item.status);
    }

    method UnblockCandidate(k: Key, now: real) returns (ok: bool)
      modifies this
      ensures Contents() == Next(config, old(Contents()), Unblock(k, now))
      ensures ok <==> Unblockable(old(Contents()), k) && k in index
    {
      if k !in blocked {
        if k !in index || index[k].status != BLOCKED { return false; }
      } else {
        blocked := blocked - {k};
      }
      if k !in index { return false; }
      index := index[k := index[k].(status := REJECTED, cooldownUntil := Some(now + config.cooldown))];
      return true;
    }
  }
}
