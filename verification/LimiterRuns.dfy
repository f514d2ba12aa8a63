/** Runs of the login limiter: overlapping attempts over a monotone clock, watched at one bucket. */
module LimiterRuns {
  import opened Common
  import opened LoginLimiter

  // ---------------------------------------------------------------- what a denial promises

  /** With no other call in between, the limiter of `live` admits the same attempt at time `later`. */
  ghost predicate AdmittedAt(live: Table, a: Key, b: Key, later: int) { AllowStep(live, a, b, later).0.Admitted? }

  /** A capacity denial of two new buckets lasts exactly until the named deadline, and Retry-After is
      the first whole second that reaches it. */
  lemma CapacityDenialExact(t: Table, a: Key, b: Key, now: int, later: int)
    requires a != b && now <= later && |Live(t, now)| <= MAX_ENTRIES
    requires Missing(Live(t, now), a, b) == 2 && AllowStep(t, a, b, now).0.Denied?
    ensures var live := Live(t, now); var slots := |live| + 2 - MAX_ENTRIES;
            && 1 <= slots <= 2 && slots <= |live|
            && AllowStep(t, a, b, now) == (Denied(RetryAfterSeconds(NthDeadline(live, slots), now)), live)
            && (AdmittedAt(live, a, b, later) <==> NthDeadline(live, slots) <= later)
    ensures now + AllowStep(t, a, b, now).0.retryAfter * SECOND <= later ==> AdmittedAt(Live(t, now), a, b, later)
  {
    var live := Live(t, now);
    var slots := |live| + 2 - MAX_ENTRIES;
    var d := NthDeadline(live, slots);
    LiveSize(live, later);
    if d <= later { ExpiredGrows(live, d, later); } else { ExpiredGrows(live, later, d - 1); }
    RetryAfterLeast(d, now);
  }

  /** With one of the two buckets already there: every later retry is admitted exactly when one entry has
      expired by then, or two once the bucket that was there has expired itself. */
  lemma CapacityDenialOneNew(t: Table, a: Key, b: Key, now: int, later: int)
    requires a != b && now <= later && |Live(t, now)| <= MAX_ENTRIES
    requires Missing(Live(t, now), a, b) == 1 && AllowStep(t, a, b, now).0.Denied?
    requires LimitRetry(Live(t, now), a, now) == 0 && LimitRetry(Live(t, now), b, now) == 0
    ensures var live := Live(t, now); var kept := if a in live then a else b;
            && AllowStep(t, a, b, now).0 == Denied(RetryAfterSeconds(NthDeadline(live, 1), now))
            && var needed := if later < Deadline(live[kept]) then 1 else 2;
               (AdmittedAt(live, a, b, later) <==> |Expired(live, later)| >= needed)
  {
    LiveSize(Live(t, now), later);
  }

  /** The same attempt is denied again at exactly the time Retry-After names. */
  ghost predicate RefusedAtRetry(t: Table, a: Key, b: Key, now: int) {
    var answer := AllowStep(t, a, b, now).0;
    answer.Denied? && !AdmittedAt(Live(t, now), a, b, now + answer.retryAfter * SECOND)
  }

  /** A full table whose bucket `a` is below its limit and expires more than a second before every other
      entry, while `b` is new. */
  ghost predicate FirstToGo(t: Table, a: Key, b: Key, now: int) {
    && a != b && Live(t, now) == t && |t| == MAX_ENTRIES && a in t && b !in t && LimitRetry(t, a, now) == 0
    && forall k | k in t && k != a :: Deadline(t[a]) + SECOND < Deadline(t[k])
  }

  /** Retry-After is then not enough. */
  lemma RetryAfterRefused(t: Table, a: Key, b: Key, now: int)
    requires FirstToGo(t, a, b, now)
    ensures RefusedAtRetry(t, a, b, now)
  {
    var d := Deadline(t[a]);
    assert Expired(t, d) == {a} && Expired(t, d - 1) == {};
    NthUnique(t, 1, NthDeadline(t, 1), d);
    RetryAfterLeast(d, now);
    var later := now + RetryAfterSeconds(d, now) * SECOND;
    assert Expired(t, later) == {a};
    CapacityDenialOneNew(t, a, b, now, later);
  }

  /** `n` address buckets that all began at `started`. */
  function Crowd(n: nat, started: int): Table {
    if n == 0 then map[] else Crowd(n - 1, started)[Key(Ip, Decimal(n - 1)) := Entry(started, 1)]
  }

  ghost predicate InCrowd(n: nat, k: Key) { k.kind == Ip && exists i: nat | i < n :: k.value == Decimal(i) }

  lemma {:induction false} CrowdHolds(n: nat, started: int)
    ensures |Crowd(n, started)| == n
    ensures forall k | k in Crowd(n, started) :: Crowd(n, started)[k] == Entry(started, 1) && InCrowd(n, k)
  {
    if n > 0 {
      CrowdHolds(n - 1, started);
      var smaller, last := Crowd(n - 1, started), Key(Ip, Decimal(n - 1));
      LastNotInCrowd(n - 1);
      OneMoreKey(smaller, last, Entry(started, 1));
      forall k | k in Crowd(n, started) ensures InCrowd(n, k) {
        if k in smaller { CrowdGrows(n - 1, k); } else { assert k == last; }
      }
    }
  }

  lemma OneMoreKey(t: Table, k: Key, e: Entry)
    requires k !in t
    ensures |t[k := e]| == |t| + 1
  {
    assert t[k := e].Keys == t.Keys + {k};
  }

  lemma LastNotInCrowd(n: nat)
    ensures !InCrowd(n, Key(Ip, Decimal(n)))
  {
    forall i: nat | i < n ensures Decimal(i) != Decimal(n) {
      if Decimal(i) == Decimal(n) { DecimalInjective(i, n); }
    }
  }

  lemma CrowdGrows(n: nat, k: Key)
    requires InCrowd(n, k)
    ensures InCrowd(n + 1, k)
  {
    var i: nat :| i < n && k.value == Decimal(i);
    assert i < n + 1;
  }

  /** Such a table: one account that failed once, two seconds before n = 4095 addresses did, and any
      other address. */
  lemma CrowdedTable(n: nat, start: int, a: Key, b: Key)
    requires n + 1 == MAX_ENTRIES && a.kind == Account && b.kind == Ip && !InCrowd(n, b)
    ensures FirstToGo(Crowd(n, start + 2 * SECOND)[a := Entry(start, 1)], a, b, start + 3 * SECOND)
  {
    var crowd := Crowd(n, start + 2 * SECOND);
    var t := crowd[a := Entry(start, 1)];
    CrowdHolds(n, start + 2 * SECOND);
    OneMoreKey(crowd, a, Entry(start, 1));
    forall k | k in t && k != a ensures t[k] == Entry(start + 2 * SECOND, 1) && InCrowd(n, k) { assert k in crowd; }
    assert Live(t, start + 3 * SECOND) == t;
  }

  /** So there are such denials: the address may be any that is not among the 4095. */
  lemma RetryAfterRefusedExample(n: nat, start: int, a: Key, b: Key)
    requires n + 1 == MAX_ENTRIES && a.kind == Account && b.kind == Ip && !InCrowd(n, b)
    ensures RefusedAtRetry(Crowd(n, start + 2 * SECOND)[a := Entry(start, 1)], a, b, start + 3 * SECOND)
  {
    CrowdedTable(n, start, a, b);
    RetryAfterRefused(Crowd(n, start + 2 * SECOND)[a := Entry(start, 1)], a, b, start + 3 * SECOND);
  }

  /** A bucket at its limit denies until its own deadline and not longer. */
  lemma LimitDenialExact(t: Table, k: Key, now: int, later: int)
    requires now <= later && LimitRetry(Live(t, now), k, now) > 0
    ensures LimitRetry(Live(Live(t, now), later), k, later) > 0 <==> later < Deadline(t[k])
    ensures Deadline(t[k]) <= now + LimitRetry(Live(t, now), k, now) * SECOND
  {
    RetryAfterLeast(Deadline(t[k]), now);
    RetryAfterLeast(Deadline(t[k]), later);
  }

  // ---------------------------------------------------------------- runs

  datatype Attempt = Attempt(account: Key, ip: Key)

  /** `pending` holds the admitted attempts whose credential check has not ended. For the watched
      bucket, `peak` is the most attempts ever pending at once, `failures` the times of its recorded
      failures, `windows` the same times grouped by failure window, and `cleared` says that a login
      cleared it. */
  datatype State = State(table: Table, now: int, pending: map<nat, Attempt>,
                         peak: nat, failures: seq<int>, windows: seq<seq<int>>, cleared: bool)

  datatype Action =
    | Tick(d: nat)
    | Allow(id: nat, account: string, ip: string)
    | Failure(id: nat)
    | Success(id: nat)
    | Cancel(id: nat)

  predicate Uses(x: Attempt, k: Key) { x.account == k || x.ip == k }

  function Users(pending: map<nat, Attempt>, k: Key): set<nat> { set id | id in pending && Uses(pending[id], k) }

  function InFlight(pending: map<nat, Attempt>, k: Key): nat { |Users(pending, k)| }

  /** The recorded failures after one more at `now`: a new window, or one more in the last. */
  function Record(ws: seq<seq<int>>, starts: bool, now: int): seq<seq<int>> {
    if starts || ws == [] then ws + [[now]] else ws[..|ws| - 1] + [ws[|ws| - 1] + [now]]
  }

  function Count(t: Table, k: Key): nat { if k in t then t[k].count else 0 }

  ghost function Step(k: Key, s: State, act: Action): State {
    match act
    case Tick(d) => s.(now := s.now + d)
    case Allow(id, account, ip) =>
      if id in s.pending then s
      else
        var x := Attempt(Key(Account, account), Key(Ip, ip));
        var (answer, table) := AllowStep(s.table, x.account, x.ip, s.now);
        if answer.Denied? then s.(table := table)
        else
          var pending := s.pending[id := x];
          s.(table := table, pending := pending, peak := Max(s.peak, InFlight(pending, k)))
    case Failure(id) =>
      if id !in s.pending then s
      else
        var x := s.pending[id];
        var recorded := Uses(x, k) && Recorded(s.table, x.account, x.ip, s.now);
        s.(table := AfterFailure(s.table, x.account, x.ip, s.now), pending := s.pending - {id},
           failures := if recorded then s.failures + [s.now] else s.failures,
           windows := if recorded then Record(s.windows, Count(Live(s.table, s.now), k) == 0, s.now) else s.windows)
    case Success(id) =>
      if id !in s.pending then s
      else
        var x := s.pending[id];
        s.(table := AfterSuccess(s.table, x.account, x.ip), pending := s.pending - {id},
           cleared := s.cleared || x.account == k)
    case Cancel(id) =>
      if id !in s.pending then s
      else
        var x := s.pending[id];
        s.(table := AfterCancel(s.table, x.account, x.ip), pending := s.pending - {id})
  }

  ghost function Run(k: Key, s: State, actions: seq<Action>): State
    decreases |actions|
  {
    if actions == [] then s else Run(k, Step(k, s, actions[0]), actions[1..])
  }

  function Start(now: int): State { State(map[], now, map[], 0, [], [], false) }

  // ---------------------------------------------------------------- capacity

  lemma CapacityAllow(t: Table, a: Key, b: Key, now: int)
    requires a != b && |t| <= MAX_ENTRIES
    ensures |AllowStep(t, a, b, now).1| <= MAX_ENTRIES
  {
    LiveSize(t, now);
  }

  lemma CapacityFailure(t: Table, a: Key, b: Key, now: int)
    requires a != b && |t| <= MAX_ENTRIES
    ensures |AfterFailure(t, a, b, now)| <= MAX_ENTRIES
  {
    LiveSize(t, now);
  }

  lemma CapacityRelease(t: Table, a: Key, b: Key)
    ensures |AfterSuccess(t, a, b)| <= |t| && |AfterCancel(t, a, b)| <= |t|
  {
    SubsetSize(AfterSuccess(t, a, b).Keys, t.Keys);
    SubsetSize(AfterCancel(t, a, b).Keys, t.Keys);
  }

  ghost predicate Kinds(s: State) {
    forall id | id in s.pending :: s.pending[id].account.kind == Account && s.pending[id].ip.kind == Ip
  }

  /** No step fills the table beyond its capacity. */
  lemma CapacityStep(k: Key, s: State, act: Action)
    requires |s.table| <= MAX_ENTRIES && Kinds(s)
    ensures |Step(k, s, act).table| <= MAX_ENTRIES && Kinds(Step(k, s, act))
  {
    if act.Allow? {
      CapacityAllow(s.table, Key(Account, act.account), Key(Ip, act.ip), s.now);
    } else if !act.Tick? && act.id in s.pending {
      var x := s.pending[act.id];
      CapacityFailure(s.table, x.account, x.ip, s.now);
      CapacityRelease(s.table, x.account, x.ip);
    }
  }

  lemma {:induction false} CapacityRun(k: Key, s: State, actions: seq<Action>)
    requires |s.table| <= MAX_ENTRIES && Kinds(s)
    ensures |Run(k, s, actions).table| <= MAX_ENTRIES
    decreases |actions|
  {
    if actions != [] {
      CapacityStep(k, s, actions[0]);
      CapacityRun(k, Step(k, s, actions[0]), actions[1..]);
    }
  }

  // ---------------------------------------------------------------- failures per window

  /** The most failures one window records: the last attempt admitted below the limit, and all the
      attempts pending beside it. */
  function Most(k: Key, peak: nat): nat { Limit(k) + peak - 1 }

  ghost predicate Window(w: seq<int>, most: nat) {
    0 < |w| <= most && forall i | 0 <= i < |w| :: w[0] <= w[i] < w[0] + WINDOW
  }

  ghost predicate Windows(ws: seq<seq<int>>, most: nat) {
    && (forall i | 0 <= i < |ws| :: Window(ws[i], most))
    && (forall i, j :: 0 <= i < j < |ws| ==> ws[i] != [] && ws[j] != [] && ws[i][0] + WINDOW <= ws[j][0])
  }

  /** The recorded windows, and which of them the bucket's entry is still in. */
  ghost predicate WindowInv(k: Key, t: Table, ws: seq<seq<int>>, now: int, most: nat) {
    && Windows(ws, most)
    && (Count(t, k) > 0 ==> ws != [] && t[k].started == ws[|ws| - 1][0] <= now && t[k].count == |ws[|ws| - 1]|)
    && (Count(t, k) == 0 && ws != [] ==> ws[|ws| - 1][0] + WINDOW <= now)
  }

  ghost predicate Inv(k: Key, s: State) {
    && Kinds(s)
    && s.failures == Flat(s.windows)
    && InFlight(s.pending, k) <= s.peak
    && Count(s.table, k) + InFlight(s.pending, k) <= Most(k, s.peak)
    && (!s.cleared ==> WindowInv(k, s.table, s.windows, s.now, Most(k, s.peak)))
  }

  lemma InFlightWithout(pending: map<nat, Attempt>, id: nat, k: Key)
    requires id in pending
    ensures InFlight(pending - {id}, k) == InFlight(pending, k) - if Uses(pending[id], k) then 1 else 0
  {
    assert Users(pending - {id}, k) == Users(pending, k) - {id};
  }

  lemma InFlightWith(pending: map<nat, Attempt>, id: nat, x: Attempt, k: Key)
    requires id !in pending
    ensures InFlight(pending[id := x], k) == InFlight(pending, k) + if Uses(x, k) then 1 else 0
  {
    assert pending[id := x] - {id} == pending;
    InFlightWithout(pending[id := x], id, k);
  }

  lemma WindowLive(k: Key, t: Table, ws: seq<seq<int>>, now: int, most: nat)
    requires WindowInv(k, t, ws, now, most)
    ensures WindowInv(k, Live(t, now), ws, now, most)
  {}

  lemma WindowRecord(k: Key, t: Table, t': Table, ws: seq<seq<int>>, now: int, most: nat)
    requires WindowInv(k, t, ws, now, most) && (k in t ==> now < Deadline(t[k])) && Count(t, k) < most
    requires k in t' && t'[k] == Counted(t, k, now)
    ensures WindowInv(k, t', Record(ws, Count(t, k) == 0, now), now, most)
  {
    var ws' := Record(ws, Count(t, k) == 0, now);
    if Count(t, k) == 0 {
      assert Window([now], most);
      assert ws'[..|ws|] == ws;
      forall i, j | 0 <= i < j < |ws'| ensures ws'[i] != [] && ws'[j] != [] && ws'[i][0] + WINDOW <= ws'[j][0] {
        assert Window(ws[i], most);
        if j < |ws| { assert ws'[j] == ws[j]; }
        else if i < |ws| - 1 { assert ws[i][0] + WINDOW <= ws[|ws| - 1][0]; }
      }
    } else {
      var last := ws[|ws| - 1];
      assert Window(last, most);
      assert Window(last + [now], most);
    }
  }

  lemma MoreRoom(k: Key, ws: seq<seq<int>>, now: int, t: Table, later: int, less: nat, most: nat)
    requires WindowInv(k, t, ws, now, less) && now <= later && less <= most
    ensures WindowInv(k, t, ws, later, most)
  {
    forall i | 0 <= i < |ws| ensures Window(ws[i], most) { assert Window(ws[i], less); }
  }

  /** An answer leaves the bucket's count as pruning left it, and admits only below the limit. */
  lemma AllowCount(k: Key, t: Table, x: Attempt, now: int)
    requires x.account.kind == Account && x.ip.kind == Ip
    ensures var (answer, t') := AllowStep(t, x.account, x.ip, now); var live := Live(t, now);
            && Count(t', k) == Count(live, k)
            && (Count(live, k) > 0 ==> t'[k] == live[k])
            && (answer.Admitted? && Uses(x, k) ==> Count(live, k) < Limit(k))
  {
    var live := Live(t, now);
    RetryAfterLeast(if k in live then Deadline(live[k]) else 0, now);
  }

  lemma AllowWindow(k: Key, s: State, x: Attempt, most: nat)
    requires Inv(k, s) && !s.cleared && Most(k, s.peak) <= most
    requires x.account.kind == Account && x.ip.kind == Ip
    ensures WindowInv(k, AllowStep(s.table, x.account, x.ip, s.now).1, s.windows, s.now, most)
  {
    AllowCount(k, s.table, x, s.now);
    WindowLive(k, s.table, s.windows, s.now, Most(k, s.peak));
    MoreRoom(k, s.windows, s.now, Live(s.table, s.now), s.now, Most(k, s.peak), most);
  }

  /** The new attempt fits below the most failures a window can record. */
  lemma AllowRoom(k: Key, s: State, id: nat, x: Attempt)
    requires Inv(k, s) && id !in s.pending && x.account.kind == Account && x.ip.kind == Ip
    ensures var (answer, table) := AllowStep(s.table, x.account, x.ip, s.now);
            if answer.Denied? then Count(table, k) + InFlight(s.pending, k) <= Most(k, s.peak)
            else var pending := s.pending[id := x]; var peak := Max(s.peak, InFlight(pending, k));
                 InFlight(pending, k) <= peak && Count(table, k) + InFlight(pending, k) <= Most(k, peak)
  {
    AllowCount(k, s.table, x, s.now);
    InFlightWith(s.pending, id, x, k);
  }

  lemma AllowInv(k: Key, s: State, act: Action)
    requires Inv(k, s) && act.Allow?
    ensures Inv(k, Step(k, s, act))
  {
    if act.id !in s.pending {
      var x := Attempt(Key(Account, act.account), Key(Ip, act.ip));
      AllowRoom(k, s, act.id, x);
      if !s.cleared { AllowWindow(k, s, x, Most(k, Step(k, s, act).peak)); }
    }
  }

  /** A failure counts once in the bucket when it is recorded, and otherwise only prunes. */
  lemma FailureCount(k: Key, t: Table, x: Attempt, now: int)
    requires x.account.kind == Account && x.ip.kind == Ip
    ensures var t' := AfterFailure(t, x.account, x.ip, now); var live := Live(t, now);
            if Uses(x, k) && Recorded(t, x.account, x.ip, now) then k in t' && t'[k] == Counted(live, k, now)
            else Count(t', k) == Count(live, k) && (Count(live, k) > 0 ==> t'[k] == live[k])
  {}

  lemma FailureInv(k: Key, s: State, act: Action)
    requires Inv(k, s) && act.Failure?
    ensures Inv(k, Step(k, s, act))
  {
    if act.id in s.pending {
      var x := s.pending[act.id];
      var live := Live(s.table, s.now);
      var table := AfterFailure(s.table, x.account, x.ip, s.now);
      InFlightWithout(s.pending, act.id, k);
      FailureCount(k, s.table, x, s.now);
      RecordAppends(s.windows, Count(live, k) == 0, s.now);
      if !s.cleared {
        WindowLive(k, s.table, s.windows, s.now, Most(k, s.peak));
        if Uses(x, k) && Recorded(s.table, x.account, x.ip, s.now) {
          WindowRecord(k, live, table, s.windows, s.now, Most(k, s.peak));
        }
      }
    }
  }

  lemma ReleaseInv(k: Key, s: State, act: Action)
    requires Inv(k, s) && (act.Success? || act.Cancel?)
    ensures Inv(k, Step(k, s, act))
  {
    if act.id in s.pending { InFlightWithout(s.pending, act.id, k); }
  }

  lemma InvStep(k: Key, s: State, act: Action)
    requires Inv(k, s)
    ensures Inv(k, Step(k, s, act))
  {
    if act.Allow? { AllowInv(k, s, act); }
    else if act.Failure? { FailureInv(k, s, act); }
    else if act.Tick? {
      if !s.cleared { MoreRoom(k, s.windows, s.now, s.table, s.now + act.d, Most(k, s.peak), Most(k, s.peak)); }
    } else { ReleaseInv(k, s, act); }
  }

  lemma {:induction false} InvRun(k: Key, s: State, actions: seq<Action>)
    requires Inv(k, s)
    ensures Inv(k, Run(k, s, actions))
    decreases |actions|
  {
    if actions != [] {
      InvStep(k, s, actions[0]);
      InvRun(k, Step(k, s, actions[0]), actions[1..]);
    }
  }

  // ---------------------------------------------------------------- failures in any interval

  /** How many of the recorded failures fall into the half-open interval from..from+WINDOW. */
  function CountFrom(times: seq<int>, from: int): nat {
    if times == [] then 0
    else (if from <= times[0] < from + WINDOW then 1 else 0) + CountFrom(times[1..], from)
  }

  function Flat(ws: seq<seq<int>>): seq<int> { if ws == [] then [] else ws[0] + Flat(ws[1..]) }

  lemma {:induction false} CountAppend(a: seq<int>, b: seq<int>, from: int)
    ensures CountFrom(a + b, from) == CountFrom(a, from) + CountFrom(b, from)
  {
    if a == [] {
      assert a + b == b;
    } else {
      assert (a + b)[1..] == a[1..] + b;
      CountAppend(a[1..], b, from);
    }
  }

  lemma {:induction false} CountAtMost(times: seq<int>, from: int)
    ensures CountFrom(times, from) <= |times|
    ensures times != [] && times[0] < from ==> CountFrom(times, from) < |times|
    ensures (forall i | 0 <= i < |times| :: from + WINDOW <= times[i]) ==> CountFrom(times, from) == 0
    ensures CountFrom(times, from) > 0 ==> exists i :: 0 <= i < |times| && from <= times[i] < from + WINDOW
  {
    if times != [] {
      CountAtMost(times[1..], from);
      if CountFrom(times[1..], from) > 0 {
        var i :| 0 <= i < |times[1..]| && from <= times[1..][i] < from + WINDOW;
        assert times[i + 1] == times[1..][i];
      }
    }
  }

  lemma {:induction false} LaterWindowsNone(ws: seq<seq<int>>, most: nat, from: int)
    requires Windows(ws, most) && (ws != [] ==> ws[0] != [] && from + WINDOW <= ws[0][0])
    ensures CountFrom(Flat(ws), from) == 0
  {
    if ws != [] {
      assert Window(ws[0], most);
      CountAtMost(ws[0], from);
      CountAppend(ws[0], Flat(ws[1..]), from);
      TailWindows(ws, most);
      LaterWindowsNone(ws[1..], most, from);
    }
  }

  lemma TailWindows(ws: seq<seq<int>>, most: nat)
    requires Windows(ws, most) && ws != []
    ensures Windows(ws[1..], most) && ws[0] != []
    ensures |ws| > 1 ==> ws[1] != [] && ws[0][0] + WINDOW <= ws[1][0]
  {
    assert Window(ws[0], most);
    forall i | 0 <= i < |ws[1..]| ensures Window(ws[1..][i], most) { assert Window(ws[i + 1], most); }
  }

  /** Two windows can meet one interval, and only if the first began before it. */
  lemma {:induction false} IntervalBound(ws: seq<seq<int>>, most: nat, from: int)
    requires Windows(ws, most) && 1 <= most
    ensures CountFrom(Flat(ws), from) <= 2 * most - 1
  {
    if ws != [] {
      var w := ws[0];
      assert Window(w, most);
      TailWindows(ws, most);
      CountAppend(w, Flat(ws[1..]), from);
      CountAtMost(w, from);
      if CountFrom(w, from) == 0 {
        IntervalBound(ws[1..], most, from);
      } else if |ws| > 1 {
        var next := ws[1];
        assert Window(next, most);
        TailWindows(ws[1..], most);
        CountAppend(next, Flat(ws[1..][1..]), from);
        CountAtMost(next, from);
        LaterWindowsNone(ws[1..][1..], most, from);
      }
    }
  }

  /** In every run, with at most `peak` attempts of the bucket overlapping, its entry never counts more
      than limit + peak - 1 failures, and until a login clears it no interval of one window length holds
      more than twice that, less one, recorded failures. An address bucket is never cleared. */
  lemma FailureBounds(k: Key, now: int, actions: seq<Action>, from: int)
    ensures var s := Run(k, Start(now), actions);
            && Count(s.table, k) <= Limit(k) + s.peak - 1
            && (!s.cleared ==> CountFrom(s.failures, from) <= 2 * (Limit(k) + s.peak - 1) - 1)
            && (k.kind == Ip ==> !s.cleared)
  {
    InvRun(k, Start(now), actions);
    var s := Run(k, Start(now), actions);
    if !s.cleared { IntervalBound(s.windows, Most(k, s.peak), from); }
    if k.kind == Ip { NeverCleared(k, Start(now), actions); }
  }

  lemma {:induction false} NeverCleared(k: Key, s: State, actions: seq<Action>)
    requires k.kind == Ip && Inv(k, s) && !s.cleared
    ensures !Run(k, s, actions).cleared
    decreases |actions|
  {
    if actions != [] {
      InvStep(k, s, actions[0]);
      NeverCleared(k, Step(k, s, actions[0]), actions[1..]);
    }
  }

  lemma {:induction false} FlatAppend(ws: seq<seq<int>>, w: seq<int>)
    ensures Flat(ws + [w]) == Flat(ws) + w
  {
    if ws == [] {
      assert ([w])[1..] == [] && [] + [w] == [w];
    } else {
      assert (ws + [w])[1..] == ws[1..] + [w];
      FlatAppend(ws[1..], w);
    }
  }

  /** The windows together are the recorded failures in order: each step that records one appends
      its time. */
  lemma RecordAppends(ws: seq<seq<int>>, starts: bool, now: int)
    ensures Flat(Record(ws, starts, now)) == Flat(ws) + [now]
  {
    FlatAppend(ws, [now]);
    if ws != [] {
      var front, last := ws[..|ws| - 1], ws[|ws| - 1];
      assert ws == front + [last];
      FlatAppend(front, last);
      FlatAppend(front, last + [now]);
    }
  }

  // ---------------------------------------------------------------- failures lock a bucket

  /** A failure of a pending attempt of the bucket is recorded, now, in the window its bucket is in or in
      a new one, unless the attempt's buckets have no room among 4096 entries. */
  lemma FailureIsRecorded(k: Key, s: State, id: nat)
    requires Inv(k, s) && id in s.pending && Uses(s.pending[id], k)
    requires |Live(s.table, s.now).Keys + {s.pending[id].account, s.pending[id].ip}| <= 4096
    ensures var t, live := Step(k, s, Failure(id)), Live(s.table, s.now);
            && t.failures == s.failures + [s.now] && t.windows != []
            && k in t.table
            && t.table[k] == (if k in live && live[k].count > 0 then Entry(live[k].started, live[k].count + 1)
                              else Entry(s.now, 1))
            && (!s.cleared ==> t.table[k].count == |t.windows[|t.windows| - 1]| &&
                               t.table[k].started == t.windows[|t.windows| - 1][0])
  {
    var x := s.pending[id];
    KeysWith(Live(s.table, s.now), x.account, x.ip);
    FailureMeans(s.table, x.account, x.ip, s.now);
    FailureInv(k, s, Failure(id));
  }

  /** The failures recorded last belong to one window that began at `start`, and are at least n. */
  ghost predicate LastWindow(s: State, start: int, n: nat) {
    s.windows != [] && var w := s.windows[|s.windows| - 1]; |w| >= n && |w| > 0 && w[0] == start
  }

  lemma LastWindowStep(k: Key, s: State, act: Action, start: int, n: nat)
    requires Inv(k, s) && !Step(k, s, act).cleared && LastWindow(s, start, n)
    requires Step(k, s, act).now < start + WINDOW
    ensures LastWindow(Step(k, s, act), start, n)
  {
    assert Count(s.table, k) > 0;
    if act.Failure? && act.id in s.pending {
      assert k in Live(s.table, s.now);
    }
  }

  lemma {:induction false} ClockRuns(k: Key, s: State, actions: seq<Action>)
    ensures s.now <= Run(k, s, actions).now && (s.cleared ==> Run(k, s, actions).cleared)
    decreases |actions|
  {
    if actions != [] { ClockRuns(k, Step(k, s, actions[0]), actions[1..]); }
  }

  lemma {:induction false} LastWindowStays(k: Key, s: State, actions: seq<Action>, start: int, n: nat)
    requires Inv(k, s) && !Run(k, s, actions).cleared && LastWindow(s, start, n)
    requires Run(k, s, actions).now < start + WINDOW
    ensures LastWindow(Run(k, s, actions), start, n)
    decreases |actions|
  {
    if actions != [] {
      var t := Step(k, s, actions[0]);
      ClockRuns(k, t, actions[1..]);
      InvStep(k, s, actions[0]);
      LastWindowStep(k, s, actions[0], start, n);
      LastWindowStays(k, t, actions[1..], start, n);
    }
  }

  /** The same state with its history forgotten: the watch on the bucket begins here. */
  function Watch(k: Key, s: State): State {
    s.(peak := InFlight(s.pending, k) + 1, failures := [], windows := [], cleared := false)
  }

  /** A bucket that counts nothing, at the start or after a login cleared it, is watched from here on. Once
      five failures of an account, or thirty of an address, are recorded in one window, then until fifteen
      minutes after that window began every attempt that uses the bucket is denied, whatever else happens
      but a login that clears it. */
  lemma FailuresLock(k: Key, s: State, before: seq<Action>, after: seq<Action>, start: int, x: Attempt)
    requires Kinds(s) && Count(s.table, k) == 0
    requires LastWindow(Run(k, Watch(k, s), before), start, if k.kind == Ip then 30 else 5)
    requires var t := Run(k, Run(k, Watch(k, s), before), after); !t.cleared && t.now < start + 900_000_000_000
    requires x.account.kind == Account && x.ip.kind == Ip && Uses(x, k)
    ensures var t := Run(k, Run(k, Watch(k, s), before), after);
            AllowStep(t.table, x.account, x.ip, t.now).0.Denied?
  {
    var m := Run(k, Watch(k, s), before);
    var t := Run(k, m, after);
    InvRun(k, Watch(k, s), before);
    InvRun(k, m, after);
    ClockRuns(k, m, after);
    LastWindowStays(k, m, after, start, if k.kind == Ip then 30 else 5);
    assert Count(t.table, k) > 0;
    AllowMeans(t.table, x.account, x.ip, t.now);
    LiveIs(t.table, t.now, k);
  }

  /** One attempt at a time and nobody else: let in, and failed. */
  function FailedOnce(a: Key, b: Key, t: Table, now: int): Table {
    AfterFailure(Admit(Live(t, now), a, b, now), a, b, now)
  }

  function FailedAt(a: Key, b: Key, times: seq<int>): Table {
    if times == [] then map[] else FailedOnce(a, b, FailedAt(a, b, times[..|times| - 1]), times[|times| - 1])
  }

  ghost predicate OneWindow(times: seq<int>) {
    (forall i, j | 0 <= i < j < |times| :: times[i] <= times[j]) &&
    (forall i | 0 <= i < |times| :: times[i] < times[0] + 900_000_000_000)
  }

  lemma {:induction false} FailuresAdd(a: Key, b: Key, times: seq<int>)
    requires a.kind == Account && b.kind == Ip && OneWindow(times)
    ensures FailedAt(a, b, times) ==
            if times == [] then map[] else map[a := Entry(times[0], |times|), b := Entry(times[0], |times|)]
  {
    if times != [] {
      var front, now := times[..|times| - 1], times[|times| - 1];
      FailuresAdd(a, b, front);
      if front == [] { FirstFailure(a, b, now); } else { OneMoreFailure(a, b, times[0], |front|, now); }
    }
  }

  lemma FirstFailure(a: Key, b: Key, now: int)
    requires a.kind == Account && b.kind == Ip
    ensures FailedOnce(a, b, map[], now) == map[a := Entry(now, 1), b := Entry(now, 1)]
  {
    assert Live(map[], now) == map[];
    var admitted := Admit(map[], a, b, now);
    assert Live(admitted, now) == admitted && admitted.Keys == {a, b};
    KeysWith(admitted, a, b);
  }

  lemma OneMoreFailure(a: Key, b: Key, start: int, n: nat, now: int)
    requires a.kind == Account && b.kind == Ip && n >= 1 && start <= now < start + 900_000_000_000
    ensures FailedOnce(a, b, map[a := Entry(start, n), b := Entry(start, n)], now) ==
            map[a := Entry(start, n + 1), b := Entry(start, n + 1)]
  {
    var t := map[a := Entry(start, n), b := Entry(start, n)];
    assert Live(t, now) == t && t.Keys == {a, b};
    assert Admit(t, a, b, now) == t;
    KeysWith(t, a, b);
  }

  /** Wrong passwords for one account from one address, alone: the first five attempts are let in, and the
      sixth within fifteen minutes of the first failure is not. */
  lemma SixthIsDenied(a: Key, b: Key, times: seq<int>, now: int)
    requires a.kind == Account && b.kind == Ip && |times| <= 5 && OneWindow(times + [now])
    ensures AllowStep(FailedAt(a, b, times), a, b, now).0.Denied? <==> |times| == 5
  {
    var all := times + [now];
    forall i, j | 0 <= i < j < |times| ensures times[i] <= times[j] { assert all[i] <= all[j]; }
    forall i | 0 <= i < |times| ensures times[i] < times[0] + 900_000_000_000 {
      assert all[i] < all[0] + 900_000_000_000;
    }
    FailuresAdd(a, b, times);
    var t := FailedAt(a, b, times);
    if times != [] { assert all[|times|] < all[0] + 900_000_000_000; }
    assert Live(t, now) == t;
    AllowMeans(t, a, b, now);
    assert t.Keys + {a, b} == {a, b};
  }
}
