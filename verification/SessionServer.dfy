/** Authenticate, AuthenticateForReauth, Reauthenticate and Logout of internal/auth/service.go as they
    run, while other requests change the session table between any two of their queries. */
module SessionServer {
  import opened Common
  import opened Sessions

  datatype Error = InvalidSession | SessionRevoked | SessionExpired | InvalidCredentials | Store

  datatype Session = Session(id: nat, admin: nat, csrf: string, lastSeen: int, idleExpiry: int, absoluteExpiry: int)

  datatype LoginResult = LoginResult(admin: nat, id: nat, token: Token, lastSeen: int, idleExpiry: int,
                                     absoluteExpiry: int)

  /** The session table behind the generated queries. */
  class SessionStore {
    var table: Table

    constructor (table: Table)
      ensures this.table == table
    {
      this.table := table;
    }

    method GetByTokenHash(token: Token) returns (found: Option<nat>)
      ensures found.Some? ==> Finds(table, token, found.value)
      ensures found.None? ==> forall id :: !Finds(table, token, id)
      ensures found.Some? <==> exists id | id in table :: table[id].token == token && table[id].revoked == None
      ensures found.Some? ==> found.value in table && table[found.value].token == token &&
                              table[found.value].revoked == None
    {
      if exists id | id in table :: Finds(table, token, id) {
        var id :| id in table && Finds(table, token, id);
        return Some(id);
      }
      return None;
    }

    method Touch(id: nat, now: int) returns (rows: nat)
      modifies this
      ensures rows == if TouchChanges(old(table), id, now) then 1 else 0
      ensures table == Touched(old(table), id, now)
      ensures table.Keys == old(table).Keys && forall k | k in table && k != id :: table[k] == old(table)[k]
      ensures id in table ==>
                if table[id].revoked.Some? then rows == 0 && table[id] == old(table)[id]
                else rows == (if old(table)[id].lastSeen == now then 0 else 1) &&
                     table[id] == old(table)[id].(lastSeen := now)
    {
      if id !in table || table[id].revoked.Some? || table[id].lastSeen == now { return 0; }
      table := table[id := table[id].(lastSeen := now)];
      return 1;
    }

    method Revoke(id: nat, now: int) returns (rows: nat)
      modifies this
      ensures rows == if RevokeChanges(old(table), id) then 1 else 0
      ensures table == Revoked(old(table), id, now)
      ensures table.Keys == old(table).Keys && forall k | k in table && k != id :: table[k] == old(table)[k]
      ensures rows == if id in table && old(table)[id].revoked == None then 1 else 0
      ensures id in table ==>
                table[id] == if rows == 1 then old(table)[id].(revoked := Some(now)) else old(table)[id]
    {
      if id !in table || table[id].revoked.Some? { return 0; }
      table := table[id := table[id].(revoked := Some(now))];
      return 1;
    }

    method Create(cfg: Config, id: nat, token: Token, admin: nat, csrf: string, now: int) returns (ok: bool)
      modifies this
      ensures ok == Insertable(old(table), id, token)
      ensures table == if ok then old(table)[id := NewRow(cfg, token, admin, csrf, now)] else old(table)
      ensures ok <==> id !in old(table) && forall k | k in old(table) :: old(table)[k].token != token
      ensures ok ==> id in table && table[id].token == token && table[id].admin == admin && table[id].csrf == csrf &&
                     table[id].created == table[id].lastSeen == now &&
                     table[id].absoluteExpiry == now + cfg.absoluteTimeout && table[id].revoked == None
    {
      if id in table || exists other | other in table :: table[other].token == token { return false; }
      table := table[id := Row(token, admin, csrf, now, now + cfg.absoluteTimeout, now, None)];
      return true;
    }

    /** Other requests leave the table as `next`. */
    method Others(next: Table)
      modifies this
      ensures table == next
    {
      table := next;
    }
  }

  // ---------------------------------------------------------------- interference

  predicate By(a: Action, c: nat) {
    match a
    case Login(_, _, _, _, _, _) => false
    case Logout(_, _, _) => false
    case _ => a.c == c
  }

  /** Steps of requests other than `c`. */
  ghost predicate OthersOnly(actions: seq<Action>, c: nat) { forall a | a in actions :: !By(a, c) }

  /** Nothing was answered to request `c`. */
  ghost predicate Quiet(s: State, t: State, c: nat) {
    |s.log| <= |t.log| && t.log[..|s.log|] == s.log && forall i | |s.log| <= i < |t.log| :: t.log[i].c != c
  }

  ghost predicate CallKept(s: State, t: State, c: nat) {
    (c in t.calls <==> c in s.calls) && (c in s.calls ==> t.calls[c] == s.calls[c])
  }

  lemma QuietJoin(s: State, t: State, u: State, c: nat)
    requires Quiet(s, t, c) && Quiet(t, u, c)
    ensures Quiet(s, u, c)
  {
    assert u.log[..|s.log|] == u.log[..|t.log|][..|s.log|];
    forall i | |s.log| <= i < |u.log| ensures u.log[i].c != c {
      if i < |t.log| { assert u.log[i] == u.log[..|t.log|][i]; }
    }
  }

  lemma StepOfOther(cfg: Config, s: State, a: Action, c: nat)
    requires !By(a, c)
    ensures CallKept(s, Step(cfg, s, a), c) && Quiet(s, Step(cfg, s, a), c)
  {
    match a
    case Touch(_, _) =>
    case LookAgain(_, _) =>
    case RevokeOld(_, _, _) =>
    case _ =>
  }

  /** Other requests neither move request `c` on nor answer it. */
  lemma {:induction false} OthersKeep(cfg: Config, s: State, actions: seq<Action>, c: nat)
    requires OthersOnly(actions, c)
    ensures CallKept(s, Run(cfg, s, actions), c) && Quiet(s, Run(cfg, s, actions), c)
    decreases |actions|
  {
    if actions != [] {
      var t := Step(cfg, s, actions[0]);
      StepOfOther(cfg, s, actions[0], c);
      OthersKeep(cfg, t, actions[1..], c);
      QuietJoin(s, t, Run(cfg, s, actions), c);
    }
  }

  lemma {:induction false} RunJoin(cfg: Config, s: State, a: seq<Action>, b: seq<Action>)
    ensures Run(cfg, s, a + b) == Run(cfg, Run(cfg, s, a), b)
    decreases |a|
  {
    if a == [] {
      assert a + b == b;
    } else {
      assert (a + b)[1..] == a[1..] + b;
      RunJoin(cfg, Step(cfg, s, a[0]), a[1..], b);
    }
  }

  lemma RunOne(cfg: Config, s: State, a: Action)
    ensures Run(cfg, s, [a]) == Step(cfg, s, a)
  {
    assert [a][1..] == [];
  }

  /** One step of the request, then those of others. */
  ghost function Then(cfg: Config, s: State, a: Action, others: seq<Action>): State {
    Run(cfg, Step(cfg, s, a), others)
  }

  lemma ThenRuns(cfg: Config, s: State, a: Action, others: seq<Action>)
    ensures Then(cfg, s, a, others) == Run(cfg, s, [a] + others)
  {
    RunJoin(cfg, s, [a], others);
    RunOne(cfg, s, a);
  }

  lemma ThenStep(cfg: Config, s: State, a: Action, others: seq<Action>, b: Action)
    ensures Run(cfg, s, [a] + others + [b]) == Step(cfg, Then(cfg, s, a, others), b)
  {
    ThenRuns(cfg, s, a, others);
    RunJoin(cfg, s, [a] + others, [b]);
    RunOne(cfg, Then(cfg, s, a, others), b);
  }

  lemma ThenRun(cfg: Config, s: State, a: Action, others: seq<Action>, tail: seq<Action>)
    ensures Run(cfg, s, [a] + others + tail) == Run(cfg, Then(cfg, s, a, others), tail)
  {
    ThenRuns(cfg, s, a, others);
    RunJoin(cfg, s, [a] + others, tail);
  }

  lemma LookupIs(cfg: Config, s: State, token: Token, id: nat)
    requires RowsSound(cfg, s) && Finds(s.table, token, id)
    ensures Lookup(s.table, token) == Some(id)
  {
    var other := Lookup(s.table, token).value;
    assert Finds(s.table, token, other);
  }

  // ---------------------------------------------------------------- authentication

  function SessionOf(cfg: Config, id: nat, row: Row): Session {
    Session(id, row.admin, row.csrf, row.lastSeen, row.lastSeen + cfg.idleTimeout, row.absoluteExpiry)
  }

  /** The token belongs to a session that is neither revoked nor expired. */
  ghost predicate Usable(cfg: Config, table: Table, token: Token, now: int) {
    exists id :: Finds(table, token, id) && !Expired(cfg, table[id], now)
  }

  /** The session shown for row `id`: its fields, and the deadlines that follow from them. */
  ghost predicate Shows(cfg: Config, session: Session, id: nat, row: Row) {
    && session.id == id && session.admin == row.admin && session.csrf == row.csrf && session.lastSeen == row.lastSeen
    && session.idleExpiry == row.lastSeen + cfg.idleTimeout && session.absoluteExpiry == row.absoluteExpiry
  }

  /** Why a token is refused, or None. */
  ghost predicate Refused(cfg: Config, table: Table, token: Token, now: int, error: Error) {
    if exists id | id in table :: table[id].token == token && table[id].revoked == None then
      && error == SessionExpired
      && exists id | id in table :: table[id].token == token && table[id].revoked == None &&
           (now >= table[id].absoluteExpiry || now >= table[id].lastSeen + cfg.idleTimeout)
    else error == InvalidSession
  }

  /** Authenticate up to its touch: an answer, or the session found. */
  method FirstLook(store: SessionStore, cfg: Config, c: nat, token: Token, now: int, fails: bool, ghost s: State)
    returns (error: Option<Error>, id: nat, row: Row)
    requires Sound(cfg, s) && store.table == s.table && c !in s.calls
    ensures var t := Step(cfg, s, Look(c, token, now, fails));
            && t.table == s.table && t.log == s.log
            && (error.None? ==> c in t.calls && t.calls[c] == Looked(token, id, now, s.steps, row) &&
                                Finds(s.table, token, id) && row == s.table[id])
    ensures error.None? <==> !fails && Usable(cfg, s.table, token, now)
    ensures error.None? <==> !fails && exists i | i in s.table ::
              s.table[i].token == token && s.table[i].revoked == None && now < s.table[i].absoluteExpiry &&
              now < s.table[i].lastSeen + cfg.idleTimeout
    ensures error.Some? ==> if fails then error.value == Store else Refused(cfg, s.table, token, now, error.value)
  {
    id, row := 0, Row("", 0, "", 0, 0, 0, None);
    if fails { return Some(Store), id, row; }
    var found := store.GetByTokenHash(token);
    if found.None? { return Some(InvalidSession), id, row; }
    id, row := found.value, store.table[found.value];
    LookupIs(cfg, s, token, id);
    if !(now < row.absoluteExpiry) || !(now < row.lastSeen + cfg.idleTimeout) {
      forall i | Finds(s.table, token, i) ensures i == id { LookupIs(cfg, s, token, i); }
      return Some(SessionExpired), id, row;
    }
    error := None;
  }

  /** The row a request found and the row as it stands are of the same session. */
  ghost predicate SameSession(row: Row, now: Row) {
    row.token == now.token && row.admin == now.admin && row.csrf == now.csrf && row.absoluteExpiry == now.absoluteExpiry
  }

  /** What the log holds for an accepted request, or that it holds nothing. */
  ghost predicate Outcome(cfg: Config, s: State, t: State, c: nat, start: nat, token: Token, now: int,
                          result: Result<Session, Error>) {
    if result.Ok? then
      var id := result.value.id;
      && id in t.table && t.table[id].token == token && result.value == SessionOf(cfg, id, t.table[id])
      && |t.log| == |s.log| + 1 && t.log[..|s.log|] == s.log
      && var e := t.log[|s.log|];
         e.Accepted? && e.c == c && e.id == id && e.start == start && e.at == s.steps && e.now == now
    else t.log == s.log
  }

  /** The touch: an answer, or no row changed and the session must be looked up again. */
  method TouchRow(store: SessionStore, cfg: Config, c: nat, token: Token, now: int, id: nat, row: Row, fails: bool,
                  ghost start: nat, ghost s: State)
    returns (answer: Option<Result<Session, Error>>)
    requires store.table == s.table && c in s.calls && s.calls[c] == Looked(token, id, now, start, row)
    requires id in s.table && SameSession(row, s.table[id]) && row.token == token
    modifies store
    ensures var t := Step(cfg, s, Sessions.Touch(c, fails));
            && store.table == t.table
            && (if answer.Some? then Outcome(cfg, s, t, c, start, token, now, answer.value)
                else t.table == s.table && t.log == s.log &&
                     c in t.calls && t.calls[c] == Untouched(token, now, start) &&
                     (s.table[id].revoked.None? ==> s.table[id].lastSeen == now))
    ensures fails ==> answer == Some(Err(Store))
    ensures !fails && answer.Some? ==> answer.value.Ok? && answer.value.value.id == id && id in s.table &&
                                       store.table == s.table[id := s.table[id].(lastSeen := now)]
  {
    if fails { return Some(Err(Store)); }
    var touchedRows := store.Touch(id, now);
    if touchedRows == 0 { return None; }
    return Some(Ok(Session(id, row.admin, row.csrf, now, now + cfg.idleTimeout, row.absoluteExpiry)));
  }

  /** The second look, after a touch that changed nothing. */
  method SecondLook(store: SessionStore, cfg: Config, c: nat, token: Token, now: int, fails: bool,
                    ghost start: nat, ghost s: State)
    returns (result: Result<Session, Error>)
    requires Sound(cfg, s) && store.table == s.table && c in s.calls && s.calls[c] == Untouched(token, now, start)
    ensures var t := Step(cfg, s, LookAgain(c, fails));
            t.table == s.table && Outcome(cfg, s, t, c, start, token, now, result)
    ensures !fails && Usable(cfg, s.table, token, now) ==> result.Ok?
    ensures result.Ok? ==> Finds(s.table, token, result.value.id)
  {
    if fails { return Err(Store); }
    var found := store.GetByTokenHash(token);
    if found.None? { return Err(SessionRevoked); }
    var id, row := found.value, store.table[found.value];
    LookupIs(cfg, s, token, id);
    if !(now < row.absoluteExpiry) || !(now < row.lastSeen + cfg.idleTimeout) {
      forall i | Finds(s.table, token, i) ensures i == id { LookupIs(cfg, s, token, i); }
      return Err(SessionExpired);
    }
    result := Ok(Session(id, row.admin, row.csrf, row.lastSeen, row.lastSeen + cfg.idleTimeout, row.absoluteExpiry));
  }

  /** What an authentication that began at step `start` leaves in the log, in answer to request `c` alone. */
  ghost predicate Answered(cfg: Config, s: State, t: State, c: nat, start: nat, token: Token, now: int,
                           result: Result<Session, Error>)
  {
    if result.Ok? then
      && result.value.id in t.table && t.table[result.value.id].token == token
      && result.value == SessionOf(cfg, result.value.id, t.table[result.value.id])
      && exists i | |s.log| <= i < |t.log| ::
           t.log[i].Accepted? && t.log[i].c == c && t.log[i].id == result.value.id && t.log[i].now == now &&
           t.log[i].start == start
    else Quiet(s, t, c)
  }

  lemma OutcomeAnswers(cfg: Config, s: State, m: State, t: State, c: nat, start: nat, token: Token, now: int,
                       result: Result<Session, Error>)
    requires Quiet(s, m, c) && Outcome(cfg, m, t, c, start, token, now, result)
    ensures Answered(cfg, s, t, c, start, token, now, result)
  {}

  lemma AnsweredLater(cfg: Config, s: State, m: State, t: State, c: nat, start: nat, token: Token, now: int,
                      result: Result<Session, Error>)
    requires Quiet(s, m, c) && Answered(cfg, m, t, c, start, token, now, result)
    ensures Answered(cfg, s, t, c, start, token, now, result)
  {
    if result.Err? { QuietJoin(s, m, t, c); }
  }

  /** Between two of its steps: a waiting request still waits, and its session is still the same one. */
  lemma StillWaiting(cfg: Config, s: State, a: Action, others: seq<Action>, c: nat)
    requires Sound(cfg, s) && OthersOnly(others, c) && Step(cfg, s, a).log == s.log
    ensures var m := Then(cfg, s, a, others);
            Sound(cfg, m) && Quiet(s, m, c) && CallKept(Step(cfg, s, a), m, c) && Follows(Step(cfg, s, a), m)
  {
    StepSound(cfg, s, a);
    RunSound(cfg, Step(cfg, s, a), others);
    OthersKeep(cfg, Step(cfg, s, a), others, c);
  }

  /** The steps an authentication may have taken when it ends. */
  ghost predicate Script(script: seq<Action>, look: Action, others: seq<Action>, touch: Action, later: seq<Action>,
                         again: Action)
  {
    script == [look] || script == [look] + others + [touch] || script == [look] + others + ([touch] + later + [again])
  }

  /** What an authentication does when no other request interferes and no query fails. */
  ghost predicate Alone(cfg: Config, before: Table, after: Table, token: Token, now: int,
                        result: Result<Session, Error>)
  {
    && (result.Ok? <==> exists i | i in before ::
          before[i].token == token && before[i].revoked == None && now < before[i].absoluteExpiry &&
          now < before[i].lastSeen + cfg.idleTimeout)
    && if result.Ok? then
         var id := result.value.id;
         id in before && before[id].token == token && after == before[id := before[id].(lastSeen := now)]
       else after == before && Refused(cfg, before, token, now, result.error)
  }

  lemma AloneRefused(cfg: Config, table: Table, token: Token, now: int, error: Error)
    requires Refused(cfg, table, token, now, error) && !Usable(cfg, table, token, now)
    ensures Alone(cfg, table, table, token, now, Err(error))
  {
    forall i | i in table && table[i].token == token && table[i].revoked == None && now < table[i].absoluteExpiry
      ensures now >= table[i].lastSeen + cfg.idleTimeout
    {
      assert Finds(table, token, i);
    }
  }

  lemma AloneAccepted(cfg: Config, table: Table, after: Table, token: Token, now: int, session: Session)
    requires Usable(cfg, table, token, now) && Finds(table, token, session.id)
    requires after == table[session.id := table[session.id].(lastSeen := now)]
    ensures Alone(cfg, table, after, token, now, Ok(session))
  {}

  lemma NoOthers(cfg: Config, s: State, a: Action)
    ensures Then(cfg, s, a, []) == Step(cfg, s, a)
  {}

  /** Authenticate behind its first query: the touch and, if that changed no row, the second query. */
  method TouchOrLookAgain(store: SessionStore, cfg: Config, c: nat, token: Token, now: int, id: nat, row: Row,
                          faults: set<nat>, afterTouch: Table, ghost start: nat, ghost s: State,
                          ghost later: seq<Action>)
    returns (result: Result<Session, Error>, ghost tail: seq<Action>)
    requires Sound(cfg, s) && store.table == s.table && OthersOnly(later, c)
    requires c in s.calls && s.calls[c] == Looked(token, id, now, start, row)
    requires id in s.table && SameSession(row, s.table[id]) && row.token == token
    requires afterTouch == Then(cfg, s, Sessions.Touch(c, 1 in faults), later).table
    modifies store
    ensures store.table == Run(cfg, s, tail).table
    ensures tail == [Sessions.Touch(c, 1 in faults)] ||
            tail == [Sessions.Touch(c, 1 in faults)] + later + [LookAgain(c, 2 in faults)]
    ensures Answered(cfg, s, Run(cfg, s, tail), c, start, token, now, result)
    ensures 1 in faults ==> result.Err?
    ensures 1 !in faults && 2 !in faults && later == [] && Finds(s.table, token, id) &&
            !Expired(cfg, s.table[id], now) ==>
              result.Ok? && result.value.id == id && store.table == s.table[id := s.table[id].(lastSeen := now)]
  {
    ghost var touch, again := Sessions.Touch(c, 1 in faults), LookAgain(c, 2 in faults);
    var answer := TouchRow(store, cfg, c, token, now, id, row, 1 in faults, start, s);
    RunOne(cfg, s, touch);
    if answer.Some? {
      OutcomeAnswers(cfg, s, s, Step(cfg, s, touch), c, start, token, now, answer.value);
      return answer.value, [touch];
    }
    ghost var untouched := Then(cfg, s, touch, later);
    StillWaiting(cfg, s, touch, later, c);
    NoOthers(cfg, s, touch);
    store.Others(afterTouch);
    result := SecondLook(store, cfg, c, token, now, 2 in faults, start, untouched);
    tail := [touch] + later + [again];
    ThenStep(cfg, s, touch, later, again);
    OutcomeAnswers(cfg, s, untouched, Step(cfg, untouched, again), c, start, token, now, result);
    if later == [] && result.Ok? && Finds(s.table, token, id) {
      LookupIs(cfg, s, token, id);
      LookupIs(cfg, s, token, result.value.id);
    }
  }

  /** Authenticate: its first query, its touch and, if that changed no row, its second query, with other
      requests' steps between them. It returns a session exactly when the log says this request was let
      in, and the session is the row as it then stands. */
  method Authenticate(store: SessionStore, cfg: Config, c: nat, token: Token, now: int, faults: set<nat>,
                      afterLook: Table, afterTouch: Table, ghost s: State, ghost others: seq<Action>,
                      ghost later: seq<Action>)
    returns (result: Result<Session, Error>, ghost script: seq<Action>)
    requires Sound(cfg, s) && store.table == s.table && c !in s.calls && OthersOnly(others, c) && OthersOnly(later, c)
    requires afterLook == Then(cfg, s, Look(c, token, now, 0 in faults), others).table
    requires afterTouch ==
             Then(cfg, Then(cfg, s, Look(c, token, now, 0 in faults), others), Sessions.Touch(c, 1 in faults),
                  later).table
    modifies store
    ensures store.table == Run(cfg, s, script).table
    ensures Script(script, Look(c, token, now, 0 in faults), others, Sessions.Touch(c, 1 in faults), later,
                   LookAgain(c, 2 in faults))
    ensures Answered(cfg, s, Run(cfg, s, script), c, s.steps, token, now, result)
    ensures result.Ok? ==> result.value.id in store.table &&
                           Shows(cfg, result.value, result.value.id, store.table[result.value.id])
    ensures (0 in faults ==> result == Err(Store)) && (1 in faults ==> result.Err?)
    ensures faults == {} && others == [] && later == [] ==>
              Alone(cfg, s.table, store.table, token, now, result)
  {
    ghost var look := Look(c, token, now, 0 in faults);
    var error, id, row := FirstLook(store, cfg, c, token, now, 0 in faults, s);
    if error.Some? {
      RunOne(cfg, s, look);
      if 0 !in faults { AloneRefused(cfg, s.table, token, now, error.value); }
      return Err(error.value), [look];
    }
    NoOthers(cfg, s, look);
    ghost var found := Then(cfg, s, look, others);
    StillWaiting(cfg, s, look, others, c);
    store.Others(afterLook);
    ghost var tail;
    result, tail := TouchOrLookAgain(store, cfg, c, token, now, id, row, faults, afterTouch, s.steps, found, later);
    script := [look] + others + tail;
    ThenRun(cfg, s, look, others, tail);
    AnsweredLater(cfg, s, found, Run(cfg, found, tail), c, s.steps, token, now, result);
    if faults == {} && others == [] && later == [] {
      AloneAccepted(cfg, s.table, store.table, token, now, result.value);
    }
  }

  // ---------------------------------------------------------------- rotation, login and logout

  /** The session created for `admin`, as it stands whatever others have done since. */
  ghost predicate Created(cfg: Config, table: Table, id: nat, token: Token, admin: nat, csrf: string, now: int) {
    && id in table && table[id].token == token && table[id].admin == admin && table[id].csrf == csrf
    && table[id].created == now && table[id].absoluteExpiry == now + cfg.absoluteTimeout
  }

  /** What the client is told of it. */
  ghost predicate Told(cfg: Config, told: LoginResult, admin: nat, id: nat, token: Token, now: int) {
    && told.admin == admin && told.id == id && told.token == token && told.lastSeen == now
    && told.idleExpiry == now + cfg.idleTimeout && told.absoluteExpiry == now + cfg.absoluteTimeout
  }

  /** Login: `admin` is the account when the password is right. */
  method Login(store: SessionStore, cfg: Config, admin: Option<nat>, id: nat, token: Token, csrf: string, now: int,
               faults: set<nat>, ghost s: State)
    returns (result: Result<LoginResult, Error>)
    requires store.table == s.table
    modifies store
    ensures result.Ok? <==> admin.Some? && 0 !in faults && 1 !in faults && id !in s.table &&
                            forall k | k in s.table :: s.table[k].token != token
    ensures result.Ok? ==>
              && store.table == Step(cfg, s, Action.Login(id, token, admin.value, csrf, now, false)).table
              && store.table == s.table[id := Row(token, admin.value, csrf, now, now + cfg.absoluteTimeout, now, None)]
              && Told(cfg, result.value, admin.value, id, token, now)
    ensures result.Err? ==> store.table == s.table &&
                            result.error == if 0 !in faults && admin.None? then InvalidCredentials else Store
  {
    if 0 in faults { return Err(Store); }
    if admin.None? { return Err(InvalidCredentials); }
    if 1 in faults { return Err(Store); }
    var created := store.Create(cfg, id, token, admin.value, csrf, now);
    if !created { return Err(Store); }
    result := Ok(LoginResult(admin.value, id, token, now, now + cfg.idleTimeout, now + cfg.absoluteTimeout));
  }

  /** AuthenticateForReauth: one query; the idle timeout is not asked. */
  method AuthenticateForReauth(store: SessionStore, cfg: Config, c: nat, token: Token, now: int, fails: bool,
                               ghost s: State)
    returns (result: Result<Session, Error>)
    requires Sound(cfg, s) && store.table == s.table
    ensures var t := Step(cfg, s, LookForReauth(c, token, now, fails));
            && t.table == s.table
            && (if result.Ok? then
                  && Finds(s.table, token, result.value.id)
                  && result.value == SessionOf(cfg, result.value.id, s.table[result.value.id])
                  && t.log == s.log + [Admitted(c, result.value.id, s.steps, now, s.table[result.value.id])]
                else t.log == s.log)
    ensures result.Ok? <==> !fails && exists id | id in s.table ::
              s.table[id].token == token && s.table[id].revoked == None && now < s.table[id].absoluteExpiry
    ensures result.Ok? ==> Shows(cfg, result.value, result.value.id, s.table[result.value.id])
    ensures result.Err? ==>
              result.error ==
              if fails then Store
              else if exists id | id in s.table :: s.table[id].token == token && s.table[id].revoked == None
              then SessionExpired
              else InvalidSession
  {
    if fails { return Err(Store); }
    var found := store.GetByTokenHash(token);
    if found.None? { return Err(InvalidSession); }
    var id, row := found.value, store.table[found.value];
    LookupIs(cfg, s, token, id);
    if !(now < row.absoluteExpiry) {
      forall i | Finds(s.table, token, i) ensures i == id { LookupIs(cfg, s, token, i); }
      return Err(SessionExpired);
    }
    result := Ok(Session(id, row.admin, row.csrf, row.lastSeen, row.lastSeen + cfg.idleTimeout, row.absoluteExpiry));
  }

  method Logout(store: SessionStore, cfg: Config, id: nat, now: int, fails: bool, ghost s: State) returns (ok: bool)
    requires store.table == s.table
    modifies store
    ensures store.table == Step(cfg, s, Action.Logout(id, now, fails)).table && ok == !fails
    ensures if ok && id in s.table && s.table[id].revoked == None
            then store.table == s.table[id := s.table[id].(revoked := Some(now))]
            else store.table == s.table
  {
    if fails { return false; }
    var rows := store.Revoke(id, now);
    return true;
  }

  /** The creation that begins a rotation, and what others do behind it. */
  method StartRotation(store: SessionStore, cfg: Config, c: nat, current: nat, id: nat, token: Token, admin: nat,
                       csrf: string, now: int, fails: bool, afterCreate: Table, ghost s: State,
                       ghost others: seq<Action>)
    returns (error: Option<Error>)
    requires Sound(cfg, s) && store.table == s.table && c !in s.calls && OthersOnly(others, c)
    requires afterCreate == Then(cfg, s, Rotate(c, current, id, token, admin, csrf, now, fails), others).table
    modifies store
    ensures error.None? <==> !fails && Insertable(s.table, id, token)
    ensures error.Some? ==> store.table == s.table
    ensures var m := Then(cfg, s, Rotate(c, current, id, token, admin, csrf, now, fails), others);
            error.None? ==>
              store.table == m.table && c in m.calls && m.calls[c] == Rotating(current, id) && Quiet(s, m, c)
    ensures error.None? ==> Created(cfg, store.table, id, token, admin, csrf, now)
    ensures error.None? && others == [] ==>
              store.table == s.table[id := Row(token, admin, csrf, now, now + cfg.absoluteTimeout, now, None)]
    ensures error.Some? ==> error.value == Store
  {
    if fails { return Some(Store); }
    var created := store.Create(cfg, id, token, admin, csrf, now);
    if !created { return Some(Store); }
    StillWaiting(cfg, s, Rotate(c, current, id, token, admin, csrf, now, fails), others, c);
    store.Others(afterCreate);
    error := None;
  }

  /** The revocation that ends a rotation. */
  method RevokePrevious(store: SessionStore, cfg: Config, c: nat, current: nat, id: nat, now: int, fails: bool,
                        ghost m: State)
    returns (error: Option<Error>)
    requires store.table == m.table && c in m.calls && m.calls[c] == Rotating(current, id)
    modifies store
    ensures var t := Step(cfg, m, RevokeOld(c, now, fails));
            && store.table == t.table
            && t.log == (if error.None? then m.log + [Rotated(c, current, id, m.steps)] else m.log)
            && (error.None? ==> current in t.table && t.table[current].revoked == Some(now))
    ensures error.None? <==> !fails && RevokeChanges(old(store.table), current)
    ensures !fails && current in m.table && m.table[current].revoked == None <==> error.None?
    ensures store.table == if error.None? then m.table[current := m.table[current].(revoked := Some(now))] else m.table
    ensures error.Some? ==> error.value == if fails then Store else InvalidSession
  {
    if fails { return Some(Store); }
    var revokedRows := store.Revoke(current, now);
    if revokedRows == 0 { return Some(InvalidSession); }
    error := None;
  }

  /** Reauthenticate: the new session is created before the old one is revoked, and only a request whose
      own revocation changed the old row is told of the new session. `admin` is the account when the
      password is right. */
  method Reauthenticate(store: SessionStore, cfg: Config, c: nat, current: nat, admin: Option<nat>, id: nat,
                        token: Token, csrf: string, now: int, revokeTime: int, faults: set<nat>, afterCreate: Table,
                        ghost s: State, ghost others: seq<Action>)
    returns (result: Result<LoginResult, Error>, ghost script: seq<Action>)
    requires Sound(cfg, s) && store.table == s.table && c !in s.calls && OthersOnly(others, c)
    requires admin.Some? ==>
               afterCreate == Then(cfg, s, Rotate(c, current, id, token, admin.value, csrf, now, 1 in faults),
                                   others).table
    modifies store
    ensures store.table == Run(cfg, s, script).table
    ensures script == [] || (admin.Some? &&
              script == [Rotate(c, current, id, token, admin.value, csrf, now, 1 in faults)] + others +
                        [RevokeOld(c, revokeTime, 2 in faults)])
    ensures var t := Run(cfg, s, script);
            if result.Ok? then
              && result.value.id == id && result.value.token == token
              && current in t.table && t.table[current].revoked == Some(revokeTime)
              && exists i | |s.log| <= i < |t.log| ::
                   t.log[i].Rotated? && t.log[i].c == c && t.log[i].previous == current && t.log[i].successor == id
            else Quiet(s, t, c)
    ensures script != [] <==> admin.Some? && 0 !in faults && 1 !in faults && id !in s.table &&
                              forall k | k in s.table :: s.table[k].token != token
    ensures if script == [] then store.table == s.table
            else Created(cfg, store.table, id, token, admin.value, csrf, now)
    ensures result.Ok? ==> script != [] && Told(cfg, result.value, admin.value, id, token, now)
    ensures result.Err? ==>
              result.error ==
              if 0 !in faults && admin.None? then InvalidCredentials
              else if script != [] && 2 !in faults then InvalidSession
              else Store
    ensures others == [] && current != id ==>
              && (result.Ok? <==>
                  script != [] && 2 !in faults && current in s.table && s.table[current].revoked == None)
              && var row := Row(token, admin.GetOr(0), csrf, now, now + cfg.absoluteTimeout, now, None);
                 store.table == if script == [] then s.table
                                else if result.Err? then s.table[id := row]
                                else s.table[current := s.table[current].(revoked := Some(revokeTime))][id := row]
  {
    script := [];
    if 0 in faults { return Err(Store), script; }
    if admin.None? { return Err(InvalidCredentials), script; }
    ghost var rotate := Rotate(c, current, id, token, admin.value, csrf, now, 1 in faults);
    ghost var revoke := RevokeOld(c, revokeTime, 2 in faults);
    ghost var m := Then(cfg, s, rotate, others);
    var error := StartRotation(store, cfg, c, current, id, token, admin.value, csrf, now, 1 in faults, afterCreate, s,
                               others);
    if error.Some? { return Err(error.value), script; }
    error := RevokePrevious(store, cfg, c, current, id, revokeTime, 2 in faults, m);
    script := [rotate] + others + [revoke];
    ThenStep(cfg, s, rotate, others, revoke);
    if error.Some? { return Err(error.value), script; }
    assert Step(cfg, m, revoke).log[|m.log|] == Rotated(c, current, id, m.steps);
    result := Ok(LoginResult(admin.value, id, token, now, now + cfg.idleTimeout, now + cfg.absoluteTimeout));
  }
}
