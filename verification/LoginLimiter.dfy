/** The login limiter of internal/adminapi: failed credential checks counted per account and per
    client address in a table of bounded size. Times are nanoseconds of one monotone clock. */
module LoginLimiter {
  import opened Common

  datatype Kind = Account | Ip

  datatype Key = Key(kind: Kind, value: string)

  datatype Entry = Entry(started: int, count: nat)

  type Table = map<Key, Entry>

  const SECOND := 1_000_000_000
  const WINDOW := 15 * 60 * SECOND
  const MAX_ENTRIES := 4096

  function Limit(k: Key): nat { if k.kind == Ip then 30 else 5 }

  function Deadline(e: Entry): int { e.started + WINDOW }

  function RetryAfterSeconds(deadline: int, now: int): int {
    if deadline - now < SECOND then 1 else (deadline - now + SECOND - 1) / SECOND
  }

  /** The least whole number of seconds, and at least one, that reaches the deadline. */
  lemma RetryAfterLeast(deadline: int, now: int)
    ensures var r := RetryAfterSeconds(deadline, now);
            r >= 1 && deadline <= now + r * SECOND && (r > 1 ==> now + (r - 1) * SECOND < deadline)
  {}

  // ---------------------------------------------------------------- expiry and order statistics

  /** The entries that pruning at `now` keeps. */
  function Live(t: Table, now: int): Table { map k | k in t && now < Deadline(t[k]) :: t[k] }

  /** An entry lives for fifteen minutes from the start of its window, to the nanosecond. */
  lemma LiveIs(t: Table, now: int, k: Key)
    ensures k in Live(t, now) <==> k in t && now < t[k].started + 900_000_000_000
    ensures k in Live(t, now) ==> Live(t, now)[k] == t[k]
  {}

  function Expired(t: Table, now: int): set<Key> { set k | k in t && Deadline(t[k]) <= now }

  lemma LiveSize(t: Table, now: int)
    ensures |Live(t, now)| == |t| - |Expired(t, now)|
  {
    assert Live(t, now).Keys == t.Keys - Expired(t, now);
    assert |Live(t, now).Keys| == |t.Keys| - |Expired(t, now)|;
  }

  /** `d` is the n-th smallest deadline of the table. */
  ghost predicate IsNthDeadline(t: Table, n: nat, d: int) {
    n <= |Expired(t, d)| && |Expired(t, d - 1)| < n
  }

  lemma ExpiredGrows(t: Table, a: int, b: int)
    requires a <= b
    ensures |Expired(t, a)| <= |Expired(t, b)|
  {
    SubsetSize(Expired(t, a), Expired(t, b));
  }

  /** Keys in ascending order of deadline. */
  ghost predicate Ascending(t: Table, ks: seq<Key>) {
    && (forall k | k in ks :: k in t)
    && (forall i, j :: 0 <= i < j < |ks| ==> Deadline(t[ks[i]]) <= Deadline(t[ks[j]]))
  }

  /** The first n keys have expired by the n-th deadline, and nothing behind the first n-1 before it. */
  lemma SortedExpired(t: Table, ks: seq<Key>, n: nat)
    requires Ascending(t, ks) && NoDuplicates(ks) && Elements(ks) == t.Keys && 1 <= n <= |ks|
    ensures ks[n - 1] in t
    ensures Elements(ks[..n]) <= Expired(t, Deadline(t[ks[n - 1]]))
    ensures Expired(t, Deadline(t[ks[n - 1]]) - 1) <= Elements(ks[..n - 1])
  {
    var d := Deadline(t[ks[n - 1]]);
    forall k | k in Elements(ks[..n]) ensures k in Expired(t, d) { assert k == ks[IndexOf(ks[..n], k)]; }
    forall k | k in t && Deadline(t[k]) <= d - 1 ensures k in Elements(ks[..n - 1]) {
      assert k in Elements(ks);
      var i := IndexOf(ks, k);
      assert i < n - 1;
      assert ks[..n - 1][i] == k;
    }
  }

  lemma {:induction false} SortedDeadline(t: Table, ks: seq<Key>, n: nat)
    requires Ascending(t, ks) && NoDuplicates(ks) && Elements(ks) == t.Keys && 1 <= n <= |ks|
    ensures ks[n - 1] in t && IsNthDeadline(t, n, Deadline(t[ks[n - 1]]))
  {
    SortedExpired(t, ks, n);
    var d := Deadline(t[ks[n - 1]]);
    ElementsSize(ks[..n]);
    ElementsSize(ks[..n - 1]);
    SubsetSize(Elements(ks[..n]), Expired(t, d));
    SubsetSize(Expired(t, d - 1), Elements(ks[..n - 1]));
  }

  /** The one deadline a capacity denial names, or none when the table is too small. */
  ghost function NthDeadline(t: Table, n: nat): (d: int)
    requires 1 <= n <= |t|
    ensures IsNthDeadline(t, n, d)
  {
    NthExists(t, n);
    var d :| IsNthDeadline(t, n, d);
    d
  }

  lemma NthUnique(t: Table, n: nat, a: int, b: int)
    requires IsNthDeadline(t, n, a) && IsNthDeadline(t, n, b)
    ensures a == b
  {
    if a < b { ExpiredGrows(t, a, b - 1); }
    if b < a { ExpiredGrows(t, b, a - 1); }
  }

  /** Ordered insertion, and the listing it builds. */
  function Insert(t: Table, ks: seq<Key>, k: Key): (r: seq<Key>)
    requires k in t && forall x | x in ks :: x in t
    ensures Elements(r) == Elements(ks) + {k} && |r| == |ks| + 1
  {
    if ks == [] || Deadline(t[k]) <= Deadline(t[ks[0]]) then
      assert ([k] + ks)[1..] == ks;
      [k] + ks
    else
      var rest := Insert(t, ks[1..], k);
      assert Elements([ks[0]] + rest) == {ks[0]} + Elements(rest);
      assert Elements(ks) == {ks[0]} + Elements(ks[1..]);
      [ks[0]] + rest
  }

  lemma AscendingCons(t: Table, first: Key, rest: seq<Key>)
    requires first in t && Ascending(t, rest) && NoDuplicates(rest) && first !in rest
    requires forall x | x in rest :: Deadline(t[first]) <= Deadline(t[x])
    ensures Ascending(t, [first] + rest) && NoDuplicates([first] + rest)
  {
    var ks := [first] + rest;
    forall i, j | 0 <= i < j < |ks| ensures Deadline(t[ks[i]]) <= Deadline(t[ks[j]]) && ks[i] != ks[j] {
      assert ks[j] == rest[j - 1] && rest[j - 1] in rest;
      if i > 0 { assert ks[i] == rest[i - 1]; }
    }
  }

  lemma AscendingTail(t: Table, ks: seq<Key>)
    requires Ascending(t, ks) && NoDuplicates(ks) && ks != []
    ensures Ascending(t, ks[1..]) && NoDuplicates(ks[1..]) && ks[0] !in ks[1..]
    ensures forall x | x in ks[1..] :: Deadline(t[ks[0]]) <= Deadline(t[x])
  {}

  lemma {:induction false} InsertAscending(t: Table, ks: seq<Key>, k: Key)
    requires k in t && Ascending(t, ks) && NoDuplicates(ks) && k !in ks
    ensures Ascending(t, Insert(t, ks, k)) && NoDuplicates(Insert(t, ks, k))
  {
    if ks == [] {
      assert Insert(t, ks, k) == [k];
    } else {
      AscendingTail(t, ks);
      if Deadline(t[k]) <= Deadline(t[ks[0]]) {
        forall x | x in ks ensures Deadline(t[k]) <= Deadline(t[x]) { assert x == ks[0] || x in ks[1..]; }
        AscendingCons(t, k, ks);
      } else {
        InsertAscending(t, ks[1..], k);
        var rest := Insert(t, ks[1..], k);
        forall x | x in rest ensures x != ks[0] && Deadline(t[ks[0]]) <= Deadline(t[x]) { assert x in Elements(rest); }
        AscendingCons(t, ks[0], rest);
      }
    }
  }

  lemma {:induction false} AscendingListing(t: Table, keys: set<Key>) returns (ks: seq<Key>)
    requires keys <= t.Keys
    ensures Ascending(t, ks) && NoDuplicates(ks) && Elements(ks) == keys
  {
    if keys == {} {
      ks := [];
    } else {
      var k :| k in keys;
      var rest := AscendingListing(t, keys - {k});
      assert k !in Elements(rest);
      InsertAscending(t, rest, k);
      ks := Insert(t, rest, k);
    }
  }

  lemma NthExists(t: Table, n: nat)
    requires 1 <= n <= |t|
    ensures exists d :: IsNthDeadline(t, n, d)
  {
    var ks := AscendingListing(t, t.Keys);
    ElementsSize(ks);
    SortedDeadline(t, ks, n);
  }

  // ---------------------------------------------------------------- the four operations

  datatype Answer = Admitted | Denied(retryAfter: int)

  function Missing(t: Table, a: Key, b: Key): nat { (if a in t then 0 else 1) + (if b in t then 0 else 1) }

  ghost function CapacityRetryAfter(t: Table, now: int, slots: int): int {
    var n := Max(slots, 1);
    if n > |t| then 1 else RetryAfterSeconds(NthDeadline(t, n), now)
  }

  /** The wait a bucket at its limit imposes; 0 when it imposes none. */
  function LimitRetry(t: Table, k: Key, now: int): int {
    if k in t && t[k].count >= Limit(k) then RetryAfterSeconds(Deadline(t[k]), now) else 0
  }

  function Admit(t: Table, a: Key, b: Key, now: int): Table {
    var t1 := if a in t then t else t[a := Entry(now, 0)];
    if b in t1 then t1 else t1[b := Entry(now, 0)]
  }

  ghost function AllowStep(t: Table, a: Key, b: Key, now: int): (Answer, Table) {
    var live := Live(t, now);
    var retry := Max(LimitRetry(live, a, now), LimitRetry(live, b, now));
    var over := |live| + Missing(live, a, b) - MAX_ENTRIES;
    if retry > 0 then (Denied(retry), live)
    else if over > 0 then (Denied(CapacityRetryAfter(live, now, over)), live)
    else (Admitted, Admit(live, a, b, now))
  }

  /** One more failure; the first one of a bucket starts its window. */
  function Counted(t: Table, k: Key, now: int): Entry {
    if k in t && t[k].count > 0 then t[k].(count := t[k].count + 1) else Entry(now, 1)
  }

  function OverRetry(t: Table, k: Key, now: int): int
    requires k in t
  {
    if t[k].count > Limit(k) then RetryAfterSeconds(Deadline(t[k]), now) else 0
  }

  predicate Recorded(t: Table, a: Key, b: Key, now: int) {
    var live := Live(t, now);
    |live| + Missing(live, a, b) <= MAX_ENTRIES
  }

  function AfterFailure(t: Table, a: Key, b: Key, now: int): Table {
    var live := Live(t, now);
    if !Recorded(t, a, b, now) then live else live[a := Counted(live, a, now)][b := Counted(live, b, now)]
  }

  function AfterSuccess(t: Table, a: Key, b: Key): Table {
    var t1 := t - {a};
    if b in t1 && t1[b].count == 0 then t1 - {b} else t1
  }

  function AfterCancel(t: Table, a: Key, b: Key): Table {
    var t1 := if a in t && t[a].count == 0 then t - {a} else t;
    if b in t1 && t1[b].count == 0 then t1 - {b} else t1
  }

  /** The size of a table with two keys put in. */
  lemma KeysWith(t: Table, a: Key, b: Key)
    requires a != b
    ensures |t.Keys + {a, b}| == |t| + Missing(t, a, b)
  {
    var more := (if a in t then {} else {a}) + (if b in t then {} else {b});
    assert t.Keys + {a, b} == t.Keys + more;
  }

  /** Every wait is at least a second. */
  lemma CapacityRetryPositive(t: Table, now: int, slots: int)
    ensures CapacityRetryAfter(t, now, slots) >= 1
  {
    var n := Max(slots, 1);
    if n <= |t| { RetryAfterLeast(NthDeadline(t, n), now); }
  }

  /** An attempt is denied for five failures of its account or thirty of its address still in their window,
      or for want of room among 4096 entries; otherwise it is let in, and both its buckets are there. */
  ghost predicate Allows(was: Table, a: Key, b: Key, now: int, blocked: bool, retryAfter: int, entries: Table) {
    var live := Live(was, now);
    && (blocked <==>
        (a in live && live[a].count >= 5) || (b in live && live[b].count >= 30) || |live.Keys + {a, b}| > 4096)
    && (blocked ==> entries == live && retryAfter >= 1)
    && (!blocked ==> retryAfter == 0 && entries.Keys == live.Keys + {a, b} &&
                     forall k | k in entries :: entries[k] == if k in live then live[k] else Entry(now, 0))
  }

  lemma AllowMeans(t: Table, a: Key, b: Key, now: int)
    requires a.kind == Account && b.kind == Ip
    ensures var (answer, entries) := AllowStep(t, a, b, now);
            Allows(t, a, b, now, answer.Denied?, if answer.Denied? then answer.retryAfter else 0, entries)
  {
    var live := Live(t, now);
    KeysWith(live, a, b);
    LimitRetryMeans(live, a, now);
    LimitRetryMeans(live, b, now);
    CapacityRetryPositive(live, now, |live| + Missing(live, a, b) - MAX_ENTRIES);
  }

  lemma LimitRetryMeans(t: Table, k: Key, now: int)
    ensures if k in t && t[k].count >= (if k.kind == Ip then 30 else 5) then LimitRetry(t, k, now) >= 1
            else LimitRetry(t, k, now) == 0
  {
    if k in t { RetryAfterLeast(Deadline(t[k]), now); }
  }

  /** A failure is counted in both buckets, in the window they are in or in a new one, unless there is no
      room for them among 4096 entries; more than five of the account or thirty of the address deny. */
  ghost predicate Counts(was: Table, a: Key, b: Key, now: int, blocked: bool, retryAfter: int, entries: Table) {
    var live := Live(was, now);
    if |live.Keys + {a, b}| > 4096 then entries == live && blocked && retryAfter >= 1
    else
      && entries.Keys == live.Keys + {a, b} && (forall k | k in live && k != a && k != b :: entries[k] == live[k])
      && (forall k | k == a || k == b ::
            entries[k] ==
            if k in live && live[k].count > 0 then Entry(live[k].started, live[k].count + 1) else Entry(now, 1))
      && (blocked <==> entries[a].count > 5 || entries[b].count > 30)
  }

  /** What Failure answers: the wait, or 0. */
  ghost function FailureWait(t: Table, a: Key, b: Key, now: int): int
    requires a != b
  {
    var live, entries := Live(t, now), AfterFailure(t, a, b, now);
    if Recorded(t, a, b, now) then Max(OverRetry(entries, a, now), OverRetry(entries, b, now))
    else CapacityRetryAfter(live, now, |live| + Missing(live, a, b) - MAX_ENTRIES)
  }

  lemma FailureMeans(t: Table, a: Key, b: Key, now: int)
    requires a.kind == Account && b.kind == Ip
    ensures var wait := FailureWait(t, a, b, now);
            Counts(t, a, b, now, wait > 0, wait, AfterFailure(t, a, b, now))
  {
    var live, entries := Live(t, now), AfterFailure(t, a, b, now);
    KeysWith(live, a, b);
    CapacityRetryPositive(live, now, |live| + Missing(live, a, b) - MAX_ENTRIES);
    if Recorded(t, a, b, now) {
      RetryAfterLeast(Deadline(entries[a]), now);
      RetryAfterLeast(Deadline(entries[b]), now);
    }
  }

  // ---------------------------------------------------------------- the limiter as it runs

  class Limiter {
    var entries: Table

    constructor ()
      ensures entries == map[]
    {
      entries := map[];
    }

    /** pruneExpiredLocked. */
    method PruneExpired(now: int)
      modifies this
      ensures entries == Live(old(entries), now)
      ensures forall k :: k in entries <==> k in old(entries) && now < old(entries)[k].started + 900_000_000_000
      ensures forall k | k in entries :: entries[k] == old(entries)[k]
    {
      var all := entries;
      var pending := entries.Keys;
      while pending != {}
        invariant pending <= all.Keys
        invariant entries == map k | k in all && (k in pending || now < Deadline(all[k])) :: all[k]
        decreases |pending|
      {
        var key :| key in pending;
        if now >= Deadline(all[key]) {
          entries := entries - {key};
        }
        pending := pending - {key};
      }
    }

    /** capacityRetryAfterLocked. */
    method CapacityRetry(now: int, slots: int) returns (retryAfter: int)
      ensures retryAfter == CapacityRetryAfter(entries, now, slots)
    {
      var deadlines: seq<Key> := [];
      var pending := entries.Keys;
      while pending != {}
        invariant pending <= entries.Keys && Elements(deadlines) == entries.Keys - pending
        invariant Ascending(entries, deadlines) && NoDuplicates(deadlines)
        decreases |pending|
      {
        var key :| key in pending;
        assert key !in Elements(deadlines);
        InsertAscending(entries, deadlines, key);
        deadlines := Insert(entries, deadlines, key);
        pending := pending - {key};
      }
      ElementsSize(deadlines);
      var n := if slots < 1 then 1 else slots;
      if n > |deadlines| { return 1; }
      SortedDeadline(entries, deadlines, n);
      NthUnique(entries, n, Deadline(entries[deadlines[n - 1]]), NthDeadline(entries, n));
      retryAfter := RetryAfterSeconds(Deadline(entries[deadlines[n - 1]]), now);
    }

    method Allow(accountKey: Key, ipKey: Key, now: int) returns (retryAfter: int, blocked: bool)
      requires accountKey.kind == Account && ipKey.kind == Ip
      modifies this
      ensures var (answer, t) := AllowStep(old(entries), accountKey, ipKey, now);
              entries == t && (blocked <==> answer.Denied?) && retryAfter == if blocked then answer.retryAfter else 0
      ensures Allows(old(entries), accountKey, ipKey, now, blocked, retryAfter, entries)
    {
      AllowMeans(entries, accountKey, ipKey, now);
      PruneExpired(now);
      var keys := [accountKey, ipKey];
      var missing := 0;
      retryAfter := 0;
      for i := 0 to 2
        invariant missing == (if i >= 1 && keys[0] !in entries then 1 else 0) +
                  (if i >= 2 && keys[1] !in entries then 1 else 0)
        invariant retryAfter == Max(if i >= 1 then LimitRetry(entries, keys[0], now) else 0,
                                    if i >= 2 then LimitRetry(entries, keys[1], now) else 0)
      {
        if keys[i] !in entries {
          missing := missing + 1;
        } else if entries[keys[i]].count >= Limit(keys[i]) {
          retryAfter := Max(retryAfter, RetryAfterSeconds(Deadline(entries[keys[i]]), now));
        }
      }
      if retryAfter > 0 { return retryAfter, true; }
      if |entries| + missing > MAX_ENTRIES {
        retryAfter := CapacityRetry(now, |entries| + missing - MAX_ENTRIES);
        return retryAfter, true;
      }
      ghost var live := entries;
      for i := 0 to 2
        invariant entries == if i == 0 then live else if i == 1 then
                               (if keys[0] in live then live else live[keys[0] := Entry(now, 0)])
                             else Admit(live, keys[0], keys[1], now)
      {
        if keys[i] !in entries {
          entries := entries[keys[i] := Entry(now, 0)];
        }
      }
      return 0, false;
    }

    /** The loop of Failure over its two buckets, none of which has expired. */
    method CountBoth(accountKey: Key, ipKey: Key, now: int) returns (retryAfter: int)
      requires accountKey != ipKey && forall k | k in entries :: now < Deadline(entries[k])
      modifies this
      ensures var live := old(entries);
              entries == live[accountKey := Counted(live, accountKey, now)][ipKey := Counted(live, ipKey, now)]
      ensures retryAfter == Max(OverRetry(entries, accountKey, now), OverRetry(entries, ipKey, now))
    {
      var keys := [accountKey, ipKey];
      retryAfter := 0;
      ghost var live := entries;
      for i := 0 to 2
        invariant entries == if i == 0 then live else if i == 1 then live[keys[0] := Counted(live, keys[0], now)]
                             else live[keys[0] := Counted(live, keys[0], now)][keys[1] := Counted(live, keys[1], now)]
        invariant retryAfter == Max(if i >= 1 then OverRetry(entries, keys[0], now) else 0,
                                    if i >= 2 then OverRetry(entries, keys[1], now) else 0)
      {
        var key := keys[i];
        var entry := Entry(now, 0);
        if key in entries && entries[key].count != 0 && now < Deadline(entries[key]) { entry := entries[key]; }
        entry := entry.(count := entry.count + 1);
        entries := entries[key := entry];
        if entry.count > Limit(key) {
          retryAfter := Max(retryAfter, RetryAfterSeconds(Deadline(entry), now));
        }
      }
    }

    method Failure(accountKey: Key, ipKey: Key, now: int) returns (retryAfter: int, blocked: bool)
      requires accountKey.kind == Account && ipKey.kind == Ip
      modifies this
      ensures entries == AfterFailure(old(entries), accountKey, ipKey, now)
      ensures retryAfter == FailureWait(old(entries), accountKey, ipKey, now)
      ensures blocked <==> retryAfter > 0
      ensures Counts(old(entries), accountKey, ipKey, now, blocked, retryAfter, entries)
    {
      FailureMeans(entries, accountKey, ipKey, now);
      PruneExpired(now);
      var keys := [accountKey, ipKey];
      var missing := 0;
      for i := 0 to 2
        invariant missing == (if i >= 1 && keys[0] !in entries then 1 else 0) +
                  (if i >= 2 && keys[1] !in entries then 1 else 0)
      {
        if keys[i] !in entries { missing := missing + 1; }
      }
      if |entries| + missing > MAX_ENTRIES {
        retryAfter := CapacityRetry(now, |entries| + missing - MAX_ENTRIES);
        return retryAfter, true;
      }
      retryAfter := CountBoth(accountKey, ipKey, now);
      return retryAfter, retryAfter > 0;
    }

    method Success(accountKey: Key, ipKey: Key)
      modifies this
      ensures entries == AfterSuccess(old(entries), accountKey, ipKey)
      ensures forall k :: k in entries <==> k in old(entries) && k != accountKey &&
                                            (k == ipKey ==> old(entries)[k].count != 0)
      ensures forall k | k in entries :: entries[k] == old(entries)[k]
    {
      entries := entries - {accountKey};
      if ipKey in entries && entries[ipKey].count == 0 {
        entries := entries - {ipKey};
      }
    }

    method Cancel(accountKey: Key, ipKey: Key)
      modifies this
      ensures entries == AfterCancel(old(entries), accountKey, ipKey)
      ensures forall k :: k in entries <==> k in old(entries) &&
                                            (k == accountKey || k == ipKey ==> old(entries)[k].count != 0)
      ensures forall k | k in entries :: entries[k] == old(entries)[k]
    {
      for i := 0 to 2
        invariant entries == if i == 0 then old(entries)
                             else if i == 1 then
                               (if accountKey in old(entries) && old(entries)[accountKey].count == 0
                                then old(entries) - {accountKey} else old(entries))
                             else AfterCancel(old(entries), accountKey, ipKey)
      {
        var key := if i == 0 then accountKey else ipKey;
        if key in entries && entries[key].count == 0 {
          entries := entries - {key};
        }
      }
    }
  }
}
