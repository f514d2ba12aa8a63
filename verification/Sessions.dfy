/** Administrator sessions of internal/auth/service.go: every query one step on the session table, with
    the steps of any number of requests interleaved. */
module Sessions {
  import opened Common

  type Token = string

  datatype Config = Config(idleTimeout: nat, absoluteTimeout: nat)

  /** A row of admin_sessions. */
  datatype Row = Row(token: Token, admin: nat, csrf: string, lastSeen: int, absoluteExpiry: int, created: int,
                     revoked: Option<int>)

  type Table = map<nat, Row>

  // ---------------------------------------------------------------- the queries

  predicate Finds(table: Table, token: Token, id: nat) {
    id in table && table[id].token == token && table[id].revoked.None?
  }

  /** SELECT ... WHERE token_hash = ? AND revoked_at IS NULL. */
  ghost function Lookup(table: Table, token: Token): (found: Option<nat>)
    ensures found.Some? ==> Finds(table, token, found.value)
    ensures found.None? ==> forall id :: !Finds(table, token, id)
  {
    if id: nat :| Finds(table, token, id) then Some(id) else None
  }

  /** UPDATE ... SET last_seen_at = ? WHERE id = ? AND revoked_at IS NULL: a row that already holds the
      value is not counted as changed. */
  predicate TouchChanges(table: Table, id: nat, now: int) {
    id in table && table[id].revoked.None? && table[id].lastSeen != now
  }

  function Touched(table: Table, id: nat, now: int): Table {
    if TouchChanges(table, id, now) then table[id := table[id].(lastSeen := now)] else table
  }

  /** UPDATE ... SET revoked_at = ? WHERE id = ? AND revoked_at IS NULL. */
  predicate RevokeChanges(table: Table, id: nat) { id in table && table[id].revoked.None? }

  function Revoked(table: Table, id: nat, now: int): Table {
    if RevokeChanges(table, id) then table[id := table[id].(revoked := Some(now))] else table
  }

  /** INSERT, under the primary key and the unique token hash. */
  predicate Insertable(table: Table, id: nat, token: Token) {
    id !in table && forall other | other in table :: table[other].token != token
  }

  function NewRow(cfg: Config, token: Token, admin: nat, csrf: string, now: int): Row {
    Row(token, admin, csrf, now, now + cfg.absoluteTimeout, now, None)
  }

  predicate Expired(cfg: Config, row: Row, now: int) {
    now >= row.absoluteExpiry || now >= row.lastSeen + cfg.idleTimeout
  }

  // ---------------------------------------------------------------- the interleaved steps

  /** A request between two of its steps. `start` is the step of its first query. */
  datatype Call =
    | Looked(token: Token, id: nat, now: int, start: nat, seen: Row)
    | Untouched(token: Token, now: int, start: nat)
    | Rotating(previous: nat, successor: nat)

  /** What requests were told. `at` is the step of their last query, `seen` the row it was judged by. */
  datatype Event =
    | Accepted(c: nat, id: nat, start: nat, at: nat, now: int, seen: Row)
    | Admitted(c: nat, id: nat, at: nat, now: int, seen: Row)
    | Rotated(c: nat, previous: nat, successor: nat, at: nat)

  /** `revokedAt` remembers the step that revoked a session. */
  datatype State = State(table: Table, steps: nat, revokedAt: map<nat, nat>, calls: map<nat, Call>, log: seq<Event>)

  datatype Action =
    | Look(c: nat, token: Token, now: int, fails: bool)
    | Touch(c: nat, fails: bool)
    | LookAgain(c: nat, fails: bool)
    | LookForReauth(c: nat, token: Token, now: int, fails: bool)
    | Login(id: nat, token: Token, admin: nat, csrf: string, now: int, fails: bool)
    | Rotate(c: nat, current: nat, id: nat, token: Token, admin: nat, csrf: string, now: int, fails: bool)
    | RevokeOld(c: nat, now: int, fails: bool)
    | Logout(id: nat, now: int, fails: bool)

  function Done(s: State, c: nat): State { s.(calls := s.calls - {c}) }

  ghost function LookStep(cfg: Config, s: State, a: Action): State
    requires a.Look?
  {
    var found := Lookup(s.table, a.token);
    if a.c in s.calls || a.fails || found.None? then s
    else
      var row := s.table[found.value];
      if Expired(cfg, row, a.now) then s
      else s.(calls := s.calls[a.c := Looked(a.token, found.value, a.now, s.steps, row)])
  }

  function TouchStep(cfg: Config, s: State, a: Action): State
    requires a.Touch?
  {
    if a.c !in s.calls || !s.calls[a.c].Looked? then s
    else
      var call := s.calls[a.c];
      if a.fails then Done(s, a.c)
      else if TouchChanges(s.table, call.id, call.now) then
        Done(s, a.c).(table := Touched(s.table, call.id, call.now),
                      log := s.log + [Accepted(a.c, call.id, call.start, s.steps, call.now, call.seen)])
      else s.(calls := s.calls[a.c := Untouched(call.token, call.now, call.start)])
  }

  ghost function LookAgainStep(cfg: Config, s: State, a: Action): State
    requires a.LookAgain?
  {
    if a.c !in s.calls || !s.calls[a.c].Untouched? then s
    else
      var call := s.calls[a.c];
      var found := Lookup(s.table, call.token);
      if a.fails || found.None? || Expired(cfg, s.table[found.value], call.now) then Done(s, a.c)
      else
        var event := Accepted(a.c, found.value, call.start, s.steps, call.now, s.table[found.value]);
        Done(s, a.c).(log := s.log + [event])
  }

  ghost function ReauthLookStep(cfg: Config, s: State, a: Action): State
    requires a.LookForReauth?
  {
    var found := Lookup(s.table, a.token);
    if a.fails || found.None? || a.now >= s.table[found.value].absoluteExpiry then s
    else s.(log := s.log + [Admitted(a.c, found.value, s.steps, a.now, s.table[found.value])])
  }

  function RevokeAt(s: State, id: nat, now: int): State {
    if RevokeChanges(s.table, id) then
      s.(table := Revoked(s.table, id, now), revokedAt := s.revokedAt[id := s.steps])
    else s
  }

  function RotateStep(cfg: Config, s: State, a: Action): State
    requires a.Rotate?
  {
    if a.c in s.calls || a.fails || !Insertable(s.table, a.id, a.token) then s
    else s.(table := s.table[a.id := NewRow(cfg, a.token, a.admin, a.csrf, a.now)],
            calls := s.calls[a.c := Rotating(a.current, a.id)])
  }

  function RevokeOldStep(s: State, a: Action): State
    requires a.RevokeOld?
  {
    if a.c !in s.calls || !s.calls[a.c].Rotating? then s
    else
      var call := s.calls[a.c];
      if a.fails then Done(s, a.c)
      else if RevokeChanges(s.table, call.previous) then
        var event := Rotated(a.c, call.previous, call.successor, s.steps);
        RevokeAt(Done(s, a.c), call.previous, a.now).(log := s.log + [event])
      else Done(s, a.c)
  }

  ghost function Act(cfg: Config, s: State, a: Action): State {
    match a
    case Look(_, _, _, _) => LookStep(cfg, s, a)
    case Touch(_, _) => TouchStep(cfg, s, a)
    case LookAgain(_, _) => LookAgainStep(cfg, s, a)
    case LookForReauth(_, _, _, _) => ReauthLookStep(cfg, s, a)
    case Login(id, token, admin, csrf, now, fails) =>
      if fails || !Insertable(s.table, id, token) then s
      else s.(table := s.table[id := NewRow(cfg, token, admin, csrf, now)])
    case Rotate(_, _, _, _, _, _, _, _) => RotateStep(cfg, s, a)
    case RevokeOld(_, _, _) => RevokeOldStep(s, a)
    case Logout(id, now, fails) => if fails then s else RevokeAt(s, id, now)
  }

  ghost function Step(cfg: Config, s: State, a: Action): State { Act(cfg, s, a).(steps := s.steps + 1) }

  ghost function Run(cfg: Config, s: State, actions: seq<Action>): State
    decreases |actions|
  {
    if actions == [] then s else Run(cfg, Step(cfg, s, actions[0]), actions[1..])
  }

  // ---------------------------------------------------------------- what every step keeps

  ghost predicate RowsSound(cfg: Config, s: State) {
    && (forall id | id in s.table :: s.table[id].absoluteExpiry == s.table[id].created + cfg.absoluteTimeout)
    && (forall id, other | id in s.table && other in s.table && id != other ::
        s.table[id].token != s.table[other].token)
    && (forall id :: id in s.revokedAt <==> id in s.table && s.table[id].revoked.Some?)
    && (forall id | id in s.revokedAt :: s.revokedAt[id] < s.steps)
  }

  ghost predicate CallSound(cfg: Config, s: State, call: Call) {
    match call
    case Looked(token, id, now, start, seen) =>
      id in s.table && start < s.steps && !Expired(cfg, seen, now) && seen.absoluteExpiry == s.table[id].absoluteExpiry
    case Untouched(_, _, start) => start < s.steps
    case Rotating(_, _) => true
  }

  /** An acceptance: all its queries ran before any revocation, and the row it saw had not expired. */
  ghost predicate EventSound(cfg: Config, s: State, e: Event) {
    match e
    case Accepted(_, id, start, at, now, seen) =>
      && start <= at < s.steps && id in s.table && (id in s.revokedAt ==> at < s.revokedAt[id])
      && !Expired(cfg, seen, now) && seen.absoluteExpiry == s.table[id].absoluteExpiry
    case Admitted(_, id, at, now, seen) =>
      && at < s.steps && id in s.table && (id in s.revokedAt ==> at < s.revokedAt[id])
      && now < seen.absoluteExpiry == s.table[id].absoluteExpiry
    case Rotated(_, previous, _, at) => at < s.steps && previous in s.revokedAt && s.revokedAt[previous] == at
  }

  ghost predicate Sound(cfg: Config, s: State) {
    && RowsSound(cfg, s)
    && (forall c | c in s.calls :: CallSound(cfg, s, s.calls[c]))
    && (forall i | 0 <= i < |s.log| :: EventSound(cfg, s, s.log[i]))
    && (forall i, j | 0 <= i < j < |s.log| :: s.log[i].at < s.log[j].at)
  }

  /** One table follows another: identity and absolute deadline of a session never change, and a
      revocation is final. */
  ghost predicate Follows(s: State, t: State) {
    && s.steps <= t.steps
    && (forall id | id in s.table ::
          && id in t.table && t.table[id].token == s.table[id].token && t.table[id].admin == s.table[id].admin
          && t.table[id].csrf == s.table[id].csrf && t.table[id].absoluteExpiry == s.table[id].absoluteExpiry
          && t.table[id].created == s.table[id].created
          && (s.table[id].revoked.Some? ==> t.table[id] == s.table[id]))
    && (forall id | id in s.revokedAt :: id in t.revokedAt && t.revokedAt[id] == s.revokedAt[id])
    && (forall id | id in t.revokedAt && id !in s.revokedAt :: s.steps <= t.revokedAt[id])
  }

  lemma TouchFollows(cfg: Config, s: State, t: State, id: nat, now: int)
    requires RowsSound(cfg, s) && t.steps == s.steps + 1
    requires t.table == Touched(s.table, id, now) && t.revokedAt == s.revokedAt
    ensures RowsSound(cfg, t) && Follows(s, t)
  {}

  lemma SameFollows(cfg: Config, s: State, t: State)
    requires RowsSound(cfg, s) && t.steps == s.steps + 1 && t.table == s.table && t.revokedAt == s.revokedAt
    ensures RowsSound(cfg, t) && Follows(s, t)
  {}

  lemma RevokeRows(cfg: Config, s: State, t: State, id: nat, now: int)
    requires RowsSound(cfg, s) && t.steps == s.steps + 1 && RevokeChanges(s.table, id)
    requires t.table == Revoked(s.table, id, now) && t.revokedAt == s.revokedAt[id := s.steps]
    ensures RowsSound(cfg, t)
  {
    assert t.table.Keys == s.table.Keys;
    forall k | k in t.table
      ensures t.table[k].token == s.table[k].token && t.table[k].created == s.table[k].created
      ensures t.table[k].absoluteExpiry == s.table[k].absoluteExpiry
      ensures k != id ==> t.table[k] == s.table[k]
    {}
    forall k ensures k in t.revokedAt <==> k in t.table && t.table[k].revoked.Some? {
      assert k in s.revokedAt <==> k in s.table && s.table[k].revoked.Some?;
    }
  }

  lemma RevokeFollows(cfg: Config, s: State, t: State, id: nat, now: int)
    requires RowsSound(cfg, s) && t.steps == s.steps + 1 && RevokeChanges(s.table, id)
    requires t.table == Revoked(s.table, id, now) && t.revokedAt == s.revokedAt[id := s.steps]
    ensures RowsSound(cfg, t) && Follows(s, t)
  {
    RevokeRows(cfg, s, t, id, now);
    assert id !in s.revokedAt;
  }

  lemma InsertFollows(cfg: Config, s: State, t: State, id: nat, token: Token, admin: nat, csrf: string, now: int)
    requires RowsSound(cfg, s) && t.steps == s.steps + 1 && Insertable(s.table, id, token)
    requires t.table == s.table[id := NewRow(cfg, token, admin, csrf, now)] && t.revokedAt == s.revokedAt
    ensures RowsSound(cfg, t) && Follows(s, t)
  {}

  lemma TouchStepFollows(cfg: Config, s: State, a: Action)
    requires RowsSound(cfg, s) && a.Touch?
    ensures RowsSound(cfg, Step(cfg, s, a)) && Follows(s, Step(cfg, s, a))
  {
    var t := Step(cfg, s, a);
    if a.c in s.calls && s.calls[a.c].Looked? && !a.fails && TouchChanges(s.table, s.calls[a.c].id, s.calls[a.c].now) {
      TouchFollows(cfg, s, t, s.calls[a.c].id, s.calls[a.c].now);
    } else {
      SameFollows(cfg, s, t);
    }
  }

  lemma InsertStepFollows(cfg: Config, s: State, a: Action)
    requires RowsSound(cfg, s) && (a.Login? || a.Rotate?)
    ensures RowsSound(cfg, Step(cfg, s, a)) && Follows(s, Step(cfg, s, a))
  {
    var t := Step(cfg, s, a);
    if a.fails || !Insertable(s.table, a.id, a.token) || (a.Rotate? && a.c in s.calls) {
      SameFollows(cfg, s, t);
    } else {
      InsertFollows(cfg, s, t, a.id, a.token, a.admin, a.csrf, a.now);
    }
  }

  lemma RevokeStepFollows(cfg: Config, s: State, a: Action)
    requires RowsSound(cfg, s) && (a.RevokeOld? || a.Logout?)
    ensures RowsSound(cfg, Step(cfg, s, a)) && Follows(s, Step(cfg, s, a))
  {
    var t := Step(cfg, s, a);
    if a.fails || (a.RevokeOld? && (a.c !in s.calls || !s.calls[a.c].Rotating?)) {
      SameFollows(cfg, s, t);
    } else {
      var id := if a.RevokeOld? then s.calls[a.c].previous else a.id;
      if RevokeChanges(s.table, id) { RevokeFollows(cfg, s, t, id, a.now); } else { SameFollows(cfg, s, t); }
    }
  }

  lemma StepFollows(cfg: Config, s: State, a: Action)
    requires RowsSound(cfg, s)
    ensures RowsSound(cfg, Step(cfg, s, a)) && Follows(s, Step(cfg, s, a))
  {
    match a
    case Touch(_, _) => TouchStepFollows(cfg, s, a);
    case Login(_, _, _, _, _, _) => InsertStepFollows(cfg, s, a);
    case Rotate(_, _, _, _, _, _, _, _) => InsertStepFollows(cfg, s, a);
    case RevokeOld(_, _, _) => RevokeStepFollows(cfg, s, a);
    case Logout(_, _, _) => RevokeStepFollows(cfg, s, a);
    case _ => SameFollows(cfg, s, Step(cfg, s, a));
  }

  /** What was sound stays sound in any state that follows. */
  lemma EventKept(cfg: Config, s: State, t: State, e: Event)
    requires EventSound(cfg, s, e) && Follows(s, t)
    ensures EventSound(cfg, t, e)
  {}

  lemma CallKept(cfg: Config, s: State, t: State, call: Call)
    requires CallSound(cfg, s, call) && Follows(s, t)
    ensures CallSound(cfg, t, call)
  {}

  /** What a step adds to the log is sound, and stamped with the step. */
  ghost predicate AddsSound(cfg: Config, s: State, t: State) {
    && (t.log == s.log || (|t.log| == |s.log| + 1 && t.log[..|s.log|] == s.log &&
                           EventSound(cfg, t, t.log[|s.log|]) && t.log[|s.log|].at == s.steps))
    && (forall c | c in t.calls :: (c in s.calls && t.calls[c] == s.calls[c]) || CallSound(cfg, t, t.calls[c]))
  }

  lemma LookAdds(cfg: Config, s: State, a: Action)
    requires Sound(cfg, s) && a.Look?
    ensures AddsSound(cfg, s, Step(cfg, s, a))
  {}

  lemma TouchAdds(cfg: Config, s: State, a: Action)
    requires Sound(cfg, s) && a.Touch?
    ensures AddsSound(cfg, s, Step(cfg, s, a))
  {
    StepFollows(cfg, s, a);
    if a.c in s.calls { assert CallSound(cfg, s, s.calls[a.c]); }
  }

  lemma LookAgainAdds(cfg: Config, s: State, a: Action)
    requires Sound(cfg, s) && a.LookAgain?
    ensures AddsSound(cfg, s, Step(cfg, s, a))
  {
    if a.c in s.calls { assert CallSound(cfg, s, s.calls[a.c]); }
  }

  lemma RotationAdds(cfg: Config, s: State, a: Action)
    requires Sound(cfg, s) && !(a.Look? || a.Touch? || a.LookAgain?)
    ensures AddsSound(cfg, s, Step(cfg, s, a))
  {}

  lemma AddedSound(cfg: Config, s: State, a: Action)
    requires Sound(cfg, s)
    ensures AddsSound(cfg, s, Step(cfg, s, a))
  {
    match a
    case Look(_, _, _, _) => LookAdds(cfg, s, a);
    case Touch(_, _) => TouchAdds(cfg, s, a);
    case LookAgain(_, _) => LookAgainAdds(cfg, s, a);
    case _ => RotationAdds(cfg, s, a);
  }

  /** Old log entries and waiting requests stay sound, and the new ones are. */
  lemma KeptSound(cfg: Config, s: State, t: State)
    requires Sound(cfg, s) && Follows(s, t) && s.steps < t.steps && AddsSound(cfg, s, t)
    ensures forall c | c in t.calls :: CallSound(cfg, t, t.calls[c])
    ensures forall i | 0 <= i < |t.log| :: EventSound(cfg, t, t.log[i])
    ensures forall i, j | 0 <= i < j < |t.log| :: t.log[i].at < t.log[j].at
  {
    forall c | c in t.calls ensures CallSound(cfg, t, t.calls[c]) {
      if c in s.calls && t.calls[c] == s.calls[c] { CallKept(cfg, s, t, s.calls[c]); }
    }
    forall i | 0 <= i < |s.log| ensures t.log[i] == s.log[i] && EventSound(cfg, t, t.log[i]) && s.log[i].at < s.steps {
      EventKept(cfg, s, t, s.log[i]);
      assert t.log[i] == t.log[..|s.log|][i];
    }
  }

  lemma StepSound(cfg: Config, s: State, a: Action)
    requires Sound(cfg, s)
    ensures Sound(cfg, Step(cfg, s, a))
  {
    StepFollows(cfg, s, a);
    AddedSound(cfg, s, a);
    KeptSound(cfg, s, Step(cfg, s, a));
  }

  /** Every interleaving keeps all of it. */
  lemma {:induction false} RunSound(cfg: Config, s: State, actions: seq<Action>)
    requires Sound(cfg, s)
    ensures Sound(cfg, Run(cfg, s, actions)) && Follows(s, Run(cfg, s, actions))
    ensures var t := Run(cfg, s, actions);
            |s.log| <= |t.log| && t.log[..|s.log|] == s.log && forall i | |s.log| <= i < |t.log| ::
              s.steps <= t.log[i].at
    decreases |actions|
  {
    if actions != [] {
      var t, u := Step(cfg, s, actions[0]), Run(cfg, s, actions);
      StepSound(cfg, s, actions[0]);
      StepFollows(cfg, s, actions[0]);
      AddedSound(cfg, s, actions[0]);
      RunSound(cfg, t, actions[1..]);
      assert u.log[..|s.log|] == u.log[..|t.log|][..|s.log|];
      if |t.log| > |s.log| { assert u.log[|s.log|] == u.log[..|t.log|][|s.log|]; }
    }
  }

  /** Once a session is revoked, no request is let in with it or rotates it any more: neither one that
      starts later nor one that was already on its way. */
  lemma RevokedForGood(cfg: Config, s: State, actions: seq<Action>, id: nat, i: nat)
    requires Sound(cfg, s) && id in s.table && s.table[id].revoked.Some?
    requires |s.log| <= i < |Run(cfg, s, actions).log|
    ensures var e := Run(cfg, s, actions).log[i];
            if e.Rotated? then e.previous != id else e.id != id
  {
    RunSound(cfg, s, actions);
    var t := Run(cfg, s, actions);
    assert EventSound(cfg, t, t.log[i]);
  }

  /** No session is rotated successfully twice. */
  lemma RotatedOnce(cfg: Config, s: State, actions: seq<Action>, i: nat, j: nat)
    requires Sound(cfg, s)
    requires var log := Run(cfg, s, actions).log;
             i < |log| && j < |log| && log[i].Rotated? && log[j].Rotated? && log[i].previous == log[j].previous
    ensures i == j
  {
    RunSound(cfg, s, actions);
    var t := Run(cfg, s, actions);
    assert EventSound(cfg, t, t.log[i]) && EventSound(cfg, t, t.log[j]);
  }

  /** Whoever is let in, is let in before the absolute deadline fixed when the session was created, and
      within the idle timeout of the activity it saw; the deadline is never moved. */
  lemma DeadlinesHold(cfg: Config, s: State, actions: seq<Action>, i: nat)
    requires Sound(cfg, s) && i < |Run(cfg, s, actions).log|
    ensures var t := Run(cfg, s, actions);
            var e := t.log[i];
            && (!e.Rotated? ==> e.id in t.table && e.now < t.table[e.id].created + cfg.absoluteTimeout)
            && (e.Accepted? ==> e.now < e.seen.lastSeen + cfg.idleTimeout)
  {
    RunSound(cfg, s, actions);
    var t := Run(cfg, s, actions);
    assert EventSound(cfg, t, t.log[i]);
  }
}
