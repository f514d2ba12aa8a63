/** The transactions of internal/project/repository.go as they run, statement by statement,
    proved against the effects of module ProjectOrder. */
module ProjectRepository {
  import opened Common
  import opened ProjectOrder

  /** The generated queries bound to one transaction. Statement number `executed` fails by itself
      when `faults` says so. */
  class Transaction {
    const config: Config
    const faults: set<nat>
    var projects: Table
    var orderVersion: nat
    var executed: nat

    constructor (config: Config, faults: set<nat>, projects: Table, orderVersion: nat)
      ensures this.config == config && this.faults == faults
      ensures this.projects == projects && this.orderVersion == orderVersion && executed == 0
    {
      this.config, this.faults := config, faults;
      this.projects, this.orderVersion, this.executed := projects, orderVersion, 0;
    }

    /** One round trip to the server. */
    method Execute() returns (failed: bool)
      modifies this`executed
      ensures executed == old(executed) + 1 && failed == (old(executed) in faults)
    {
      failed := executed in faults;
      executed := executed + 1;
    }

    /** BEGIN, then the order state FOR UPDATE and its version check. */
    method Begin(orderVersion: nat) returns (result: Result<(), Error>)
      requires executed == 0
      modifies this`executed
      ensures result.Ok? <==> Clear(faults, 2) && this.orderVersion == orderVersion
      ensures result.Ok? ==> executed == 2
      ensures faults == {} && result.Err? ==> result.error == Conflict
    {
      var failed := Execute();
      if failed { return Err(Storage); }
      failed := Execute();
      if failed { return Err(Storage); }
      if this.orderVersion != orderVersion { return Err(Conflict); }
      result := Ok(());
    }

    /** The project FOR UPDATE and its version and status check. */
    method LockProject(id: Id, version: nat, status: Status) returns (result: Result<(), Error>)
      modifies this`executed
      ensures executed == old(executed) + 1
      ensures result.Ok? <==> old(executed) !in faults && id in projects &&
                              projects[id].version == version && projects[id].status == status
      ensures faults == {} && id !in projects ==> result == Err(NotFound)
    {
      var failed := Execute();
      if failed { return Err(Storage); }
      if id !in projects { return Err(NotFound); }
      var current := projects[id];
      if current.version != version || current.status != status { return Err(Conflict); }
      result := Ok(());
    }

    /** The order state is bumped, the row read back if the caller returns it, and the
        transaction committed. */
    method Finish(orderVersion: nat, readBack: bool) returns (result: Result<nat, Error>)
      requires this.orderVersion == orderVersion
      modifies this`executed, this`orderVersion
      ensures result.Ok? <==> Undisturbed(faults, old(executed), if readBack then 3 else 2)
      ensures result.Ok? ==> result.value == this.orderVersion == orderVersion + 1
    {
      var updated := UpdateOrderState(orderVersion);
      if updated.Err? { return Err(updated.error); }
      if readBack {
        var unread := Execute();
        if unread { return Err(Storage); }
      }
      var failed := Execute();
      if failed { return Err(Storage); }
      result := Ok(orderVersion + 1);
    }

    /** SET sort_order = ? WHERE id = ? AND status = 'public': no such row, a duplicate key, a row found
        as it was, or a row changed. */
    method SetSort(id: Id, value: nat) returns (result: Exec)
      modifies this`executed, this`projects
      ensures executed == old(executed) + 1
      ensures if old(executed) in faults then result == Failed && projects == old(projects)
              else (result, projects) == SetSortOrder(config, old(projects), id, value)
      ensures projects.Keys == old(projects).Keys
      ensures forall k | k in projects && k != id :: projects[k] == old(projects)[k]
      ensures old(executed) !in faults ==>
                if id !in projects || projects[id].status != Public
                then result == Affected(0) && projects == old(projects)
                else if config.uniqueKey && exists k | k in projects :: k != id && projects[k].sortOrder == Some(value)
                then result == Failed && projects == old(projects)
                else projects[id] == old(projects)[id].(sortOrder := Some(value)) &&
                     result == Affected(if !config.foundRows && projects[id] == old(projects)[id] then 0 else 1)
    {
      var failed := Execute();
      if failed { return Failed; }
      if id !in projects || projects[id].status != Public { return Affected(0); }
      if config.uniqueKey && Taken(projects, id, value) { return Failed; }
      var same := projects[id].sortOrder == Some(value);
      projects := projects[id := projects[id].(sortOrder := Some(value))];
      result := Affected(if same && !config.foundRows then 0 else 1);
    }

    method UpdateOrderState(version: nat) returns (result: Result<(), Error>)
      modifies this`executed, this`orderVersion
      ensures executed == old(executed) + 1
      ensures result.Ok? <==> old(executed) !in faults && old(orderVersion) == version
      ensures orderVersion == if result.Ok? then version + 1 else old(orderVersion)
      ensures old(executed) !in faults && result.Err? ==> result.error == Conflict
    {
      var failed := Execute();
      if failed { return Err(Storage); }
      if orderVersion != version { return Err(Conflict); }
      orderVersion := version + 1;
      result := Ok(());
    }
  }

  function ExecError(e: Exec): Error { if e.Failed? then Storage else Conflict }

  method SetTemporaryOrder(tx: Transaction, ids: seq<Id>) returns (result: Result<(), Error>)
    modifies tx`projects, tx`executed
    ensures result.Ok? <==> Pass(tx.config, old(tx.projects), ids, |ids| + 1).Some? &&
                            Undisturbed(tx.faults, old(tx.executed), |ids|)
    ensures result.Ok? ==> Pass(tx.config, old(tx.projects), ids, |ids| + 1) == Some(tx.projects)
    ensures result.Ok? ==> tx.executed == old(tx.executed) + |ids|
  {
    var n := |ids|;
    ghost var start := tx.executed;
    for index := 0 to n
      invariant Pass(tx.config, old(tx.projects), ids[..index], n + 1) == Some(tx.projects)
      invariant tx.executed == start + index && Undisturbed(tx.faults, start, index)
    {
      assert ids[..index + 1] == ids[..index] + [ids[index]];
      PassAppend(tx.config, old(tx.projects), ids[..index], n + 1, ids[index]);
      var e := tx.SetSort(ids[index], n + index + 1);
      if e != Affected(1) {
        if start + index !in tx.faults { PassPrefix(tx.config, old(tx.projects), ids, n + 1, index + 1); }
        return Err(ExecError(e));
      }
    }
    assert ids[..n] == ids;
    result := Ok(());
  }

  method SetFinalOrder(tx: Transaction, ids: seq<Id>) returns (result: Result<(), Error>)
    modifies tx`projects, tx`executed
    ensures result.Ok? <==> Pass(tx.config, old(tx.projects), ids, 1).Some? &&
                            Undisturbed(tx.faults, old(tx.executed), |ids|)
    ensures result.Ok? ==> Pass(tx.config, old(tx.projects), ids, 1) == Some(tx.projects)
    ensures result.Ok? ==> tx.executed == old(tx.executed) + |ids|
  {
    ghost var start := tx.executed;
    for index := 0 to |ids|
      invariant Pass(tx.config, old(tx.projects), ids[..index], 1) == Some(tx.projects)
      invariant tx.executed == start + index && Undisturbed(tx.faults, start, index)
    {
      assert ids[..index + 1] == ids[..index] + [ids[index]];
      PassAppend(tx.config, old(tx.projects), ids[..index], 1, ids[index]);
      var e := tx.SetSort(ids[index], index + 1);
      if e != Affected(1) {
        if start + index !in tx.faults { PassPrefix(tx.config, old(tx.projects), ids, 1, index + 1); }
        return Err(ExecError(e));
      }
    }
    assert ids[..|ids|] == ids;
    result := Ok(());
  }

  /** compactProjectOrder. */
  method CompactProjectOrder(tx: Transaction, ids: seq<Id>) returns (result: Result<(), Error>)
    modifies tx`projects, tx`executed
    ensures var mid := Pass(tx.config, old(tx.projects), ids, |ids| + 1);
            && (result.Ok? <==> mid.Some? && Pass(tx.config, mid.value, ids, 1).Some? &&
                                Undisturbed(tx.faults, old(tx.executed), 2 * |ids|))
            && (result.Ok? ==> Pass(tx.config, mid.value, ids, 1) == Some(tx.projects) &&
                               tx.executed == old(tx.executed) + 2 * |ids|)
  {
    result := SetTemporaryOrder(tx, ids);
    if result.Err? { return; }
    result := SetFinalOrder(tx, ids);
  }

  /** The HideProject statement, the remaining ids FOR UPDATE, and their renumbering. */
  method RemoveFromOrder(tx: Transaction, id: Id) returns (result: Result<(), Error>)
    requires id in tx.projects && tx.projects[id].status == Public
    modifies tx`projects, tx`executed
    ensures var h := Hide(old(tx.projects), id); var rest := ListPublic(h);
            var mid := Pass(tx.config, h, rest, |rest| + 1);
            && (result.Ok? <==> mid.Some? && Pass(tx.config, mid.value, rest, 1).Some? &&
                                Undisturbed(tx.faults, old(tx.executed), 2 + 2 * |rest|))
            && (result.Ok? ==> Pass(tx.config, mid.value, rest, 1) == Some(tx.projects) &&
                               tx.executed == old(tx.executed) + 2 + 2 * |rest|)
  {
    var failed := tx.Execute();
    if failed { return Err(Storage); }
    tx.projects := Hide(tx.projects, id);
    failed := tx.Execute();
    if failed { return Err(Storage); }
    var remaining := ListPublic(tx.projects);
    result := CompactProjectOrder(tx, remaining);
  }

  /** sameIDSet: a set filled from the stored ids and emptied by the requested ones. */
  method SameIdSet(current: seq<Id>, requested: seq<Id>) returns (same: bool)
    ensures same <==> SameIds(current, requested)
  {
    if |current| != |requested| {
      ElementsSize(current);
      ElementsSize(requested);
      return false;
    }
    var seen: set<Id> := {};
    for i := 0 to |current|
      invariant seen == Elements(current[..i])
    {
      assert current[..i + 1] == current[..i] + [current[i]];
      seen := seen + {current[i]};
    }
    assert current[..|current|] == current;
    for i := 0 to |requested|
      invariant seen == Elements(current) - Elements(requested[..i])
      invariant NoDuplicates(requested[..i]) && 0 !in requested[..i] && Elements(requested[..i]) <= Elements(current)
    {
      if requested[i] == 0 { return false; }
      if requested[i] !in seen {
        NotRemaining(current, requested, i);
        return false;
      }
      assert requested[..i + 1] == requested[..i] + [requested[i]];
      seen := seen - {requested[i]};
    }
    assert requested[..|requested|] == requested;
    EmptiedIffSame(current, requested);
    return |seen| == 0;
  }

  /** A requested id that is no longer among the remaining ones is foreign or repeated. */
  lemma NotRemaining(current: seq<Id>, requested: seq<Id>, i: nat)
    requires i < |requested| && requested[i] !in Elements(current) - Elements(requested[..i])
    ensures !SameIds(current, requested)
  {
    assert requested[i] in Elements(requested);
    if requested[i] in Elements(requested[..i]) {
      var j :| 0 <= j < i && requested[..i][j] == requested[i];
      assert requested[j] == requested[i];
    }
  }

  lemma EmptiedIffSame(current: seq<Id>, requested: seq<Id>)
    requires |current| == |requested| && NoDuplicates(requested) && 0 !in requested &&
             Elements(requested) <= Elements(current)
    ensures |Elements(current) - Elements(requested)| == 0 <==> SameIds(current, requested)
  {
    ElementsSize(current);
    ElementsSize(requested);
    if |Elements(current) - Elements(requested)| == 0 {
      assert Elements(current) == Elements(requested);
    }
  }

  // ---------------------------------------------------------------- what a request writes

  ghost predicate Linked(fields: Fields) { fields.githubUrl.Some? && fields.githubUrl.value != "" }

  /** The row at `version` with `status`. */
  ghost predicate Locked(before: Table, id: Id, version: nat, status: Status) {
    id in before && before[id].version == version && before[id].status == status
  }

  /** No row but `id` differs, apart from its rank. */
  ghost predicate OthersRanked(before: Table, after: Table, id: Option<Id>) {
    && after.Keys == before.Keys
    && forall k | k in before && Some(k) != id ::
         && after[k].fields == before[k].fields && after[k].status == before[k].status
         && after[k].version == before[k].version
  }

  ghost predicate OthersKept(before: Table, after: Table, id: Id) {
    after.Keys == before.Keys && forall k | k in before && k != id :: after[k] == before[k]
  }

  lemma PublishMeans(db: Db, ids: seq<Id>, id: Id, fields: Fields, version: nat, orderVersion: nat)
    requires ValidDb(db, ids)
    ensures var effect := PublishEffect(db, id, fields, version, orderVersion);
            && (effect.Some? <==> db.orderVersion == orderVersion && Locked(db.projects, id, version, Hidden) &&
                                  Linked(fields))
            && (effect.Some? ==>
                  effect.value == Db(db.projects[id := Row(fields, Public, Some(|ids| + 1), version + 1)],
                                     orderVersion + 1, db.nextId))
  {
    StoredOrderIsListed(db.projects, ids);
  }

  lemma HideMeans(c: Config, db: Db, id: Id, version: nat, orderVersion: nat)
    requires HideEffect(c, db, id, version, orderVersion).Some?
    ensures var next := HideEffect(c, db, id, version, orderVersion).value;
            && Locked(db.projects, id, version, Public) && OthersRanked(db.projects, next.projects, Some(id))
            && next.projects[id] == Row(db.projects[id].fields, Hidden, None, version + 1)
            && next.orderVersion == db.orderVersion + 1 && next.nextId == db.nextId
  {
    var h := Hide(db.projects, id);
    assert id !in PublicIds(h) && id !in Elements(ListPublic(h));
  }

  /** SQLRepository over the two tables it writes. */
  class Repository {
    const config: Config
    var projects: Table
    var orderVersion: nat
    var nextId: Id
    ghost var order: seq<Id>

    ghost function State(): Db
      reads this
    {
      Db(projects, orderVersion, nextId)
    }

    ghost predicate Valid()
      reads this
    {
      ValidDb(State(), order)
    }

    constructor (config: Config)
      ensures Valid() && this.config == config && order == []
    {
      this.config := config;
      projects, orderVersion, nextId, order := map[], 1, 1, [];
    }

    /** Records the plain sequence after `request`. */
    ghost method Follow(before: Db, request: Request, faults: set<nat>)
      requires ValidDb(before, order) && State() == Effect(config, before, request, faults)
      modifies this`order
      ensures Valid() && order == PlainStep(old(order), request, State() == before)
    {
      StepRefines(config, before, order, request, faults);
      order := PlainStep(order, request, State() == before);
    }

    /** The insert commits on its own; the read that follows can still fail the call. */
    method CreateProject(name: string, faults: set<nat>) returns (result: Result<Id, Error>)
      requires Valid()
      modifies this
      ensures Valid() && State() == Effect(config, old(State()), Create(name), faults)
      ensures order == old(order)
      ensures result == if Clear(faults, 2) then Ok(old(nextId)) else Err(Storage)
      ensures orderVersion == old(orderVersion)
      ensures nextId == if 0 in faults then old(nextId) else old(nextId) + 1
      ensures projects == if 0 in faults then old(projects)
                          else old(projects)[old(nextId) := Row(Fields(name, None, None), Hidden, None, 1)]
    {
      if 0 !in faults {
        projects := projects[nextId := Row(Fields(name, None, None), Hidden, None, 1)];
        nextId := nextId + 1;
        result := if 1 in faults then Err(Storage) else Ok(nextId - 1);
      } else {
        result := Err(Storage);
      }
      Follow(old(State()), Create(name), faults);
    }

    method UpdateProject(id: Id, fields: Fields, version: nat, faults: set<nat>) returns (result: Result<Row, Error>)
      requires Valid()
      modifies this
      ensures Valid() && State() == Effect(config, old(State()), Update(id, fields, version), faults)
      ensures order == old(order)
      ensures result.Ok? <==> Clear(faults, 2) && UpdateEffect(old(State()), id, fields, version).Some?
      ensures result.Ok? ==> id in projects && result.value == projects[id]
      ensures OthersKept(old(projects), projects, id) && orderVersion == old(orderVersion) && nextId == old(nextId)
      ensures if 0 !in faults && id in projects && old(projects)[id].version == version &&
                 (old(projects)[id].status == Hidden || Linked(fields))
              then projects[id].fields == fields && projects[id].version == version + 1 &&
                   projects[id].status == old(projects)[id].status &&
                   projects[id].sortOrder == old(projects)[id].sortOrder && result.Ok? == (1 !in faults)
              else projects == old(projects) && result.Err?
      ensures faults == {} && (id !in old(projects) || old(projects)[id].version != version) ==> result == Err(Conflict)
    {
      if 0 in faults {
        result := Err(Storage);
      } else if id !in projects || projects[id].version != version {
        result := Err(Conflict);
      } else if projects[id].status == Public && !HasUrl(fields) {
        result := Err(Storage);
      } else {
        projects := projects[id := projects[id].(fields := fields, version := version + 1)];
        result := if 1 in faults then Err(Storage) else Ok(projects[id]);
      }
      Follow(old(State()), Update(id, fields, version), faults);
    }

    method PublishProject(id: Id, fields: Fields, version: nat, orderVersion: nat, faults: set<nat>)
      returns (result: Result<nat, Error>)
      requires Valid()
      modifies this
      ensures Valid() && State() == Effect(config, old(State()), Publish(id, fields, version, orderVersion), faults)
      ensures order == if result.Ok? then old(order) + [id] else old(order)
      ensures result.Ok? <==> Clear(faults, 8) && PublishEffect(old(State()), id, fields, version, orderVersion).Some?
      ensures result.Ok? ==> result.value == this.orderVersion == orderVersion + 1
      ensures faults == {} && old(this.orderVersion) != orderVersion ==> result == Err(Conflict)
      ensures faults == {} && old(this.orderVersion) == orderVersion && id !in old(projects) ==> result == Err(NotFound)
      ensures result.Ok? <==> (forall f | f in faults :: f >= 8) && old(this.orderVersion) == orderVersion &&
                              Locked(old(projects), id, version, Hidden) && Linked(fields)
      ensures result.Ok? ==>
                projects == old(projects)[id := Row(fields, Public, Some(|old(order)| + 1), version + 1)] &&
                nextId == old(nextId)
      ensures result.Err? ==> State() == old(State())
    {
      PublishMeans(State(), order, id, fields, version, orderVersion);
      result := TryPublish(id, fields, version, orderVersion, faults);
      Follow(old(State()), Publish(id, fields, version, orderVersion), faults);
    }

    method TryPublish(id: Id, fields: Fields, version: nat, orderVersion: nat, faults: set<nat>)
      returns (result: Result<nat, Error>)
      requires Valid()
      modifies this`projects, this`orderVersion
      ensures State() == Effect(config, old(State()), Publish(id, fields, version, orderVersion), faults)
      ensures result.Ok? <==> Clear(faults, 8) && PublishEffect(old(State()), id, fields, version, orderVersion).Some?
      ensures result.Ok? ==> result.value == this.orderVersion == orderVersion + 1
      ensures faults == {} && old(this.orderVersion) != orderVersion ==> result == Err(Conflict)
      ensures faults == {} && old(this.orderVersion) == orderVersion && id !in old(projects) ==> result == Err(NotFound)
    {
      var tx := new Transaction(config, faults, projects, this.orderVersion);
      var begun := tx.Begin(orderVersion);
      if begun.Err? { return Err(begun.error); }
      var locked := tx.LockProject(id, version, Hidden);
      if locked.Err? { return Err(locked.error); }
      var failed := tx.Execute();                                // highest public rank
      if failed { return Err(Storage); }
      var nextSort := 1;
      var maxSort := MaxSortOrder(tx.projects);
      if maxSort.Some? { nextSort := maxSort.value + 1; }
      PublishAppends(projects, order, id, fields, version + 1);
      failed := tx.Execute();                                // UPDATE ... SET status = 'public'
      if failed || !HasUrl(fields) || (config.uniqueKey && Taken(tx.projects, id, nextSort)) { return Err(Storage); }
      tx.projects := tx.projects[id := Row(fields, Public, Some(nextSort), version + 1)];
      result := tx.Finish(orderVersion, true);
      if result.Ok? {
        projects, this.orderVersion := tx.projects, tx.orderVersion;
      }
    }

    /** Removes one project from the public order, or changes nothing. */
    method HideProject(id: Id, version: nat, orderVersion: nat, faults: set<nat>)
      returns (result: Result<nat, Error>)
      requires Valid()
      modifies this
      ensures Valid() && State() == Effect(config, old(State()), HideOne(id, version, orderVersion), faults)
      ensures result.Ok? <==> Clear(faults, HideStatements(old(projects))) && old(this.orderVersion) == orderVersion &&
                              Current(old(State()), id, version, Public) &&
                              id in old(order) && Compacts(config, |old(order)| - 1, IndexOf(old(order), id))
      ensures order == if result.Ok? then Without(old(order), IndexOf(old(order), id)) else old(order)
      ensures result.Ok? ==> result.value == this.orderVersion == orderVersion + 1
      ensures result.Ok? ==>
                Locked(old(projects), id, version, Public) && OthersRanked(old(projects), projects, Some(id)) &&
                projects[id] == Row(old(projects)[id].fields, Hidden, None, version + 1) && nextId == old(nextId)
      ensures result.Err? ==> State() == old(State())
    {
      HideTakesEffect(config, State(), order, id, version, orderVersion);
      result := TryHide(id, version, orderVersion, faults);
      if result.Ok? { HideMeans(config, old(State()), id, version, orderVersion); }
      Follow(old(State()), HideOne(id, version, orderVersion), faults);
    }

    method TryHide(id: Id, version: nat, orderVersion: nat, faults: set<nat>) returns (result: Result<nat, Error>)
      requires Valid()
      modifies this`projects, this`orderVersion
      ensures State() == Effect(config, old(State()), HideOne(id, version, orderVersion), faults)
      ensures result.Ok? <==> Clear(faults, HideStatements(old(projects))) &&
                              HideEffect(config, old(State()), id, version, orderVersion).Some?
      ensures result.Ok? ==> result.value == this.orderVersion == orderVersion + 1
    {
      var tx := new Transaction(config, faults, projects, this.orderVersion);
      var begun := tx.Begin(orderVersion);
      if begun.Err? { return Err(begun.error); }
      var locked := tx.LockProject(id, version, Public);
      if locked.Err? { return Err(locked.error); }
      HideCommit(config, State(), order, id, version);
      HideCount(projects, id);
      HideFaults(faults, |ListPublic(Hide(projects, id))|);
      var removed := RemoveFromOrder(tx, id);
      if removed.Err? { return Err(removed.error); }
      result := tx.Finish(orderVersion, true);
      if result.Ok? {
        projects, this.orderVersion := tx.projects, tx.orderVersion;
      }
    }

    /** Installs exactly the requested permutation of the public projects, or changes nothing. */
    method ReorderProjects(ids: seq<Id>, orderVersion: nat, faults: set<nat>) returns (result: Result<nat, Error>)
      requires Valid()
      modifies this
      ensures Valid() && State() == Effect(config, old(State()), Reorder(ids, orderVersion), faults)
      ensures result.Ok? <==> Clear(faults, ReorderStatements(ids)) && old(this.orderVersion) == orderVersion &&
                              SameIds(old(order), ids)
      ensures order == if result.Ok? then ids else old(order)
      ensures result.Ok? ==> result.value == this.orderVersion == orderVersion + 1
      ensures faults == {} && old(this.orderVersion) == orderVersion && !SameIds(old(order), ids)
              ==> result == Err(ValidationFailed)
      ensures result.Ok? <==> (forall f | f in faults :: f >= 5 + 2 * |ids|) &&
                              old(this.orderVersion) == orderVersion && NoDuplicates(ids) &&
                              forall id :: id in ids <==> id in old(order)
      ensures OthersRanked(old(projects), projects, None) && nextId == old(nextId)
      ensures result.Err? ==> State() == old(State())
    {
      StoredOrderIsListed(projects, order);
      SameIdsAre(State(), order, ids);
      result := TryReorder(ids, orderVersion, faults);
      Follow(old(State()), Reorder(ids, orderVersion), faults);
    }

    method TryReorder(ids: seq<Id>, orderVersion: nat, faults: set<nat>) returns (result: Result<nat, Error>)
      requires Valid()
      modifies this`projects, this`orderVersion
      ensures State() == Effect(config, old(State()), Reorder(ids, orderVersion), faults)
      ensures result.Ok? <==> Clear(faults, ReorderStatements(ids)) &&
                              ReorderEffect(old(State()), ids, orderVersion).Some?
      ensures result.Ok? ==> result.value == this.orderVersion == orderVersion + 1
      ensures faults == {} && old(this.orderVersion) == orderVersion && !SameIds(ListPublic(old(projects)), ids)
              ==> result == Err(ValidationFailed)
    {
      ReorderFaults(faults, |ids|);
      var tx := new Transaction(config, faults, projects, this.orderVersion);
      var begun := tx.Begin(orderVersion);
      if begun.Err? { return Err(begun.error); }
      var failed := tx.Execute();                                // public ids FOR UPDATE
      if failed { return Err(Storage); }
      var currentIds := ListPublic(tx.projects);
      var same := SameIdSet(currentIds, ids);
      if !same { return Err(ValidationFailed); }
      ReorderCommit(config, State(), order, ids);
      var written := SetTemporaryOrder(tx, ids);
      if written.Err? { return Err(written.error); }
      written := SetFinalOrder(tx, ids);
      if written.Err? { return Err(written.error); }
      result := tx.Finish(orderVersion, false);
      if result.Ok? {
        projects, this.orderVersion := tx.projects, tx.orderVersion;
      }
    }
  }

  /** Stored ids are not zero, so only membership and repetition count. */
  lemma SameIdsAre(db: Db, current: seq<Id>, ids: seq<Id>)
    requires ValidDb(db, current)
    ensures SameIds(current, ids) <==> NoDuplicates(ids) && forall id :: id in ids <==> id in current
  {
    assert 0 !in PublicIds(db.projects) && 0 !in Elements(current);
    assert SameIds(current, ids) ==> forall id :: id in ids <==> id in Elements(current);
  }

  /** The statements of a hide that leaves m projects public, call by call. */
  lemma HideFaults(faults: set<nat>, m: nat)
    ensures Clear(faults, 8 + 2 * m) <==>
            Clear(faults, 2) && 2 !in faults && Undisturbed(faults, 3, 2 + 2 * m) && Undisturbed(faults, 5 + 2 * m, 3)
  {}

  lemma HideIsCompacted(c: Config, db: Db, ids: seq<Id>, id: Id) returns (rest: seq<Id>, k: nat)
    requires ValidDb(db, ids) && id in db.projects && db.projects[id].status == Public
    ensures Compaction(c, Hide(db.projects, id), rest, k)
  {
    assert id in PublicIds(db.projects) && id in Elements(ids);
    k := IndexOf(ids, id);
    rest := Without(ids, k);
    HidePasses(c, db.projects, ids, k);
  }

  lemma CompactionPasses(c: Config, h: Table, rest: seq<Id>, k: nat)
    requires Compaction(c, h, rest, k)
    ensures ListPublic(h) == rest && Pass(c, Ranked(h, rest, |rest| + 1), rest, 1) == Some(Ranked(h, rest, 1))
    ensures var mid := Pass(c, h, rest, |rest| + 1); mid == None || mid == Some(Ranked(h, rest, |rest| + 1))
  {}

  /** A hide whose versions are current commits exactly when both passes complete, with the ranks they
      leave. */
  lemma HideCommit(c: Config, db: Db, ids: seq<Id>, id: Id, version: nat)
    requires ValidDb(db, ids) && Current(db, id, version, Public)
    ensures var h := Hide(db.projects, id); var rest := ListPublic(h);
            var mid := Pass(c, h, rest, |rest| + 1); var effect := HideEffect(c, db, id, version, db.orderVersion);
            && (effect.Some? <==> mid.Some? && Pass(c, mid.value, rest, 1).Some?)
            && (effect.Some? ==> effect.value.projects == Pass(c, mid.value, rest, 1).value &&
                                 effect.value == Db(effect.value.projects, db.orderVersion + 1, db.nextId))
  {
    var rest, k := HideIsCompacted(c, db, ids, id);
    CompactionPasses(c, Hide(db.projects, id), rest, k);
  }

  /** The rows a hide renumbers, counted before it. */
  lemma HideCount(t: Table, id: Id)
    requires id in t && t[id].status == Public
    ensures HideStatements(t) == 8 + 2 * |ListPublic(Hide(t, id))|
  {
    var rest := ListPublic(Hide(t, id));
    ElementsSize(rest);
    assert PublicIds(Hide(t, id)) == PublicIds(t) - {id};
  }

  /** The statements of a reorder of n projects, call by call. */
  lemma ReorderFaults(faults: set<nat>, n: nat)
    ensures Clear(faults, 5 + 2 * n) <==>
            Clear(faults, 2) && 2 !in faults && Undisturbed(faults, 3, n) && Undisturbed(faults, 3 + n, n) &&
            Undisturbed(faults, 3 + 2 * n, 2)
  {}

  /** A reorder of the stored set commits with the ranks both passes leave. */
  lemma ReorderCommit(c: Config, db: Db, current: seq<Id>, ids: seq<Id>)
    requires ValidDb(db, current) && SameIds(ListPublic(db.projects), ids)
    ensures var mid := Pass(c, db.projects, ids, |ids| + 1); var effect := ReorderEffect(db, ids, db.orderVersion);
            && effect.Some? && mid.Some? && Pass(c, mid.value, ids, 1) == Some(effect.value.projects)
            && effect.value == Db(effect.value.projects, db.orderVersion + 1, db.nextId)
  {
    StoredOrderIsListed(db.projects, current);
    ReorderPasses(c, db.projects, current, ids);
  }
}
