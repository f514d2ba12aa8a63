/** The service layer of internal/project/project.go: an update or publication first looks at the
    project, asks GitHub about its address, and only then lets the repository write. */
module ProjectService {
  import opened Common
  import opened ProjectOrder

  /** validateOrderIDs: no id is zero and none is repeated. */
  method ValidateOrderIDs(ids: seq<Id>) returns (ok: bool)
    ensures ok <==> 0 !in ids && NoDuplicates(ids)
  {
    var seen: set<Id> := {};
    for i := 0 to |ids|
      invariant seen == Elements(ids[..i]) && 0 !in ids[..i] && NoDuplicates(ids[..i])
    {
      if ids[i] == 0 { return false; }
      if ids[i] in seen {
        var j :| 0 <= j < i && ids[j] == ids[i];
        return false;
      }
      assert ids[..i + 1] == ids[..i] + [ids[i]];
      seen := seen + {ids[i]};
    }
    assert ids[..|ids|] == ids;
    return true;
  }

  // ---------------------------------------------------------------- what the repository may change

  ghost predicate IdsBelow(db: Db) { forall id | id in db.projects :: id < db.nextId }

  /** Projects stay, versions grow, and a project whose version is unchanged kept its status and fields. */
  ghost predicate Follows(db: Db, next: Db) {
    forall id | id in db.projects ::
      && id in next.projects && db.projects[id].version <= next.projects[id].version
      && (db.projects[id].version == next.projects[id].version ==>
            next.projects[id].status == db.projects[id].status && next.projects[id].fields == db.projects[id].fields)
  }

  lemma HideFollows(c: Config, db: Db, id: Id, version: nat, orderVersion: nat)
    requires IdsBelow(db) && HideEffect(c, db, id, version, orderVersion).Some?
    ensures IdsBelow(HideEffect(c, db, id, version, orderVersion).value)
    ensures Follows(db, HideEffect(c, db, id, version, orderVersion).value)
  {}

  lemma EffectFollows(c: Config, db: Db, request: Request, faults: set<nat>)
    requires IdsBelow(db)
    ensures IdsBelow(Effect(c, db, request, faults)) && Follows(db, Effect(c, db, request, faults))
  {
    if request.HideOne? {
      if HideEffect(c, db, request.id, request.version, request.orderVersion).Some? {
        HideFollows(c, db, request.id, request.version, request.orderVersion);
      }
    }
  }

  /** Where the fields of a public project can come from. */
  lemma EffectPublic(c: Config, db: Db, request: Request, faults: set<nat>, id: Id)
    requires id in Effect(c, db, request, faults).projects
    requires Effect(c, db, request, faults).projects[id].status == Public
    ensures var row := Effect(c, db, request, faults).projects[id];
            || (id in db.projects && db.projects[id].status == Public && db.projects[id].fields == row.fields)
            || (request.Publish? && request.id == id && request.fields == row.fields)
            || (request.Update? && request.id == id && request.fields == row.fields &&
                Current(db, id, request.version, Public))
  {}

  // ---------------------------------------------------------------- interleaved service calls

  /** A call between its checks and its write; an update remembers the status it saw. */
  datatype Call =
    | Updating(id: Id, fields: Fields, version: nat, seen: Status)
    | Publishing(id: Id, fields: Fields, version: nat, orderVersion: nat)

  /** `verified` are the addresses GitHub confirmed. */
  datatype State = State(db: Db, verified: set<string>, calls: map<nat, Call>)

  datatype Action =
    | StartUpdate(c: nat, id: Id, fields: Fields, version: nat, confirms: bool)
    | StartPublish(c: nat, id: Id, fields: Fields, version: nat, orderVersion: nat, confirms: bool)
    | Write(c: nat, faults: set<nat>)
    | Other(request: Request, faults: set<nat>)

  /** The check of Service.Update: only a project seen public has its address confirmed. */
  function StartUpdateStep(s: State, a: Action): State
    requires a.StartUpdate?
  {
    if a.c in s.calls || a.id !in s.db.projects || s.db.projects[a.id].version != a.version then s
    else
      var call := Updating(a.id, a.fields, a.version, s.db.projects[a.id].status);
      if call.seen == Hidden then s.(calls := s.calls[a.c := call])
      else if !HasUrl(a.fields) || !a.confirms then s
      else s.(verified := s.verified + {a.fields.githubUrl.value}, calls := s.calls[a.c := call])
  }

  /** The check of Service.Publish: the address is always confirmed. */
  function StartPublishStep(s: State, a: Action): State
    requires a.StartPublish?
  {
    if a.c in s.calls || !HasUrl(a.fields) || !a.confirms then s
    else s.(verified := s.verified + {a.fields.githubUrl.value},
            calls := s.calls[a.c := Publishing(a.id, a.fields, a.version, a.orderVersion)])
  }

  function RequestOf(call: Call): Request {
    match call
    case Updating(id, fields, version, _) => Request.Update(id, fields, version)
    case Publishing(id, fields, version, orderVersion) => Request.Publish(id, fields, version, orderVersion)
  }

  function Step(cfg: Config, s: State, a: Action): State {
    match a
    case StartUpdate(_, _, _, _, _) => StartUpdateStep(s, a)
    case StartPublish(_, _, _, _, _, _) => StartPublishStep(s, a)
    case Write(c, faults) =>
      if c !in s.calls then s
      else s.(db := Effect(cfg, s.db, RequestOf(s.calls[c]), faults), calls := s.calls - {c})
    case Other(request, faults) =>
      if request.Update? || request.Publish? then s else s.(db := Effect(cfg, s.db, request, faults))
  }

  function Run(cfg: Config, s: State, actions: seq<Action>): State
    decreases |actions|
  {
    if actions == [] then s else Run(cfg, Step(cfg, s, actions[0]), actions[1..])
  }

  predicate Confirmed(s: State, fields: Fields) { HasUrl(fields) && fields.githubUrl.value in s.verified }

  ghost predicate CallSound(s: State, call: Call) {
    match call
    case Publishing(_, fields, _, _) => Confirmed(s, fields)
    case Updating(id, fields, version, seen) =>
      && id in s.db.projects && version <= s.db.projects[id].version
      && (version == s.db.projects[id].version ==> seen == s.db.projects[id].status)
      && (seen == Public ==> Confirmed(s, fields))
  }

  ghost predicate Sound(s: State) {
    && IdsBelow(s.db)
    && (forall id | id in s.db.projects && s.db.projects[id].status == Public :: Confirmed(s, s.db.projects[id].fields))
    && (forall c | c in s.calls :: CallSound(s, s.calls[c]))
  }

  lemma EffectSound(cfg: Config, s: State, request: Request, faults: set<nat>)
    requires Sound(s)
    requires request.Publish? ==> Confirmed(s, request.fields)
    requires request.Update? && Current(s.db, request.id, request.version, Public) ==> Confirmed(s, request.fields)
    ensures Sound(s.(db := Effect(cfg, s.db, request, faults)))
  {
    var t := s.(db := Effect(cfg, s.db, request, faults));
    EffectFollows(cfg, s.db, request, faults);
    forall id | id in t.db.projects && t.db.projects[id].status == Public
      ensures Confirmed(t, t.db.projects[id].fields)
    {
      EffectPublic(cfg, s.db, request, faults, id);
    }
    forall c | c in t.calls ensures CallSound(t, t.calls[c]) { assert CallSound(s, s.calls[c]); }
  }

  lemma StepSound(cfg: Config, s: State, a: Action)
    requires Sound(s)
    ensures Sound(Step(cfg, s, a))
  {
    match a
    case Write(c, faults) =>
      if c in s.calls {
        assert CallSound(s, s.calls[c]);
        EffectSound(cfg, s, RequestOf(s.calls[c]), faults);
      }
    case Other(request, faults) =>
      if !request.Update? && !request.Publish? { EffectSound(cfg, s, request, faults); }
    case _ =>
      var t := Step(cfg, s, a);
      assert t.db == s.db;
      forall c | c in t.calls ensures CallSound(t, t.calls[c]) { if c in s.calls { assert CallSound(s, s.calls[c]); } }
  }

  /** What a call does between whose check and write nobody else writes. */
  lemma UpdateAlone(cfg: Config, s: State, c: nat, id: Id, fields: Fields, version: nat, confirms: bool)
    requires c !in s.calls
    ensures var t := Run(cfg, s, [StartUpdate(c, id, fields, version, confirms), Write(c, {})]);
            if && id in s.db.projects && s.db.projects[id].version == version
               && (s.db.projects[id].status == Public ==>
                     fields.githubUrl.Some? && fields.githubUrl.value != "" && confirms)
            then t.db == s.db.(projects :=
                   s.db.projects[id := s.db.projects[id].(fields := fields, version := version + 1)])
            else t.db == s.db
  {
    RunTwo(cfg, s, StartUpdate(c, id, fields, version, confirms), Write(c, {}));
  }

  /** Publishing always asks GitHub, and appends. */
  lemma PublishAlone(cfg: Config, s: State, ids: seq<Id>, c: nat, id: Id, fields: Fields, version: nat,
                     orderVersion: nat, confirms: bool)
    requires c !in s.calls && ValidDb(s.db, ids)
    ensures var t := Run(cfg, s, [StartPublish(c, id, fields, version, orderVersion, confirms), Write(c, {})]);
            if && fields.githubUrl.Some? && fields.githubUrl.value != "" && confirms
               && s.db.orderVersion == orderVersion && id in s.db.projects && s.db.projects[id].version == version
               && s.db.projects[id].status == Hidden
            then t.db == s.db.(projects := s.db.projects[id := Row(fields, Public, Some(|ids| + 1), version + 1)],
                               orderVersion := orderVersion + 1)
            else t.db == s.db
  {
    RunTwo(cfg, s, StartPublish(c, id, fields, version, orderVersion, confirms), Write(c, {}));
    StoredOrderIsListed(s.db.projects, ids);
  }

  lemma RunTwo(cfg: Config, s: State, a: Action, b: Action)
    ensures Run(cfg, s, [a, b]) == Step(cfg, Step(cfg, s, a), b)
  {
    assert [a, b][1..] == [b] && [b][1..] == [];
    assert Run(cfg, Step(cfg, s, a), [b]) == Run(cfg, Step(cfg, Step(cfg, s, a), b), []);
  }

  /** However updates, publications, hidings and reorderings interleave between their checks and their
      writes, every public project carries an address that GitHub confirmed: an update checked while the
      project was hidden cannot slip its address onto a project published in the meantime. */
  lemma {:induction false} PublicAddressesConfirmed(cfg: Config, s: State, actions: seq<Action>, id: Id)
    requires Sound(s)
    ensures var t := Run(cfg, s, actions);
            id in t.db.projects && t.db.projects[id].status == Public ==> Confirmed(t, t.db.projects[id].fields)
    decreases |actions|
  {
    if actions != [] {
      StepSound(cfg, s, actions[0]);
      PublicAddressesConfirmed(cfg, Step(cfg, s, actions[0]), actions[1..], id);
    }
  }
}
