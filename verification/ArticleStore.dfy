/** The transactions of internal/article/sqlstore.go, the service calls of internal/article/service.go
    and Open of internal/media/media.go as they run, proved against module Articles. */
module ArticleStore {
  import opened Common
  import opened MediaReferences
  import opened Articles
  import opened ArticleEffects

  /** A connection to the database. Round trip number `executed` fails by itself when `faults` says so. */
  class SQLStore {
    const faults: set<nat>
    var db: Database
    var executed: nat

    constructor (faults: set<nat>, db: Database)
      ensures this.faults == faults && this.db == db && executed == 0
    {
      this.faults, this.db, this.executed := faults, db, 0;
    }

    /** Others leave the database as `next`. */
    method Others(next: Database)
      modifies this`db
      ensures db == next
    {
      db := next;
    }

    method Execute() returns (failed: bool)
      modifies this`executed
      ensures executed == old(executed) + 1 && failed == (old(executed) in faults)
    {
      failed := executed in faults;
      executed := executed + 1;
    }

    method GetArticleByID(id: nat) returns (result: Result<Row, Error>)
      modifies this`executed
      ensures executed == old(executed) + 1
      ensures result == if old(executed) in faults then Err(Storage)
                        else if id in db.articles then Ok(db.articles[id]) else Err(NotFound)
    {
      var failed := Execute();
      if failed { return Err(Storage); }
      if id !in db.articles { return Err(NotFound); }
      result := Ok(db.articles[id]);
    }

    /** UPDATE articles ... WHERE id = ? AND version = ?, and the number of rows it changed. */
    method UpdateArticle(id: nat, version: nat, content: Content) returns (result: Result<nat, Error>)
      modifies this`executed, this`db
      ensures executed == old(executed) + 1
      ensures var matches := id in old(db).articles && old(db).articles[id].version == version;
              result == if old(executed) in faults then Err(Storage) else if !matches then Ok(0)
                        else if AddressFree(old(db), id, content.address) then Ok(1) else Err(Storage)
      ensures db == if result == Ok(1) then old(db).(articles := old(db).articles[id := Row(content, version + 1)])
              else old(db)
    {
      var failed := Execute();
      if failed { return Err(Storage); }
      if id !in db.articles || db.articles[id].version != version { return Ok(0); }
      if !AddressFree(db, id, content.address) { return Err(Storage); }
      db := db.(articles := db.articles[id := Row(content, db.articles[id].version + 1)]);
      result := Ok(1);
    }

    method InsertArticleMedia(id: nat, reference: Reference) returns (ok: bool)
      modifies this`executed, this`db
      ensures executed == old(executed) + 1
      ensures ok <==> old(executed) !in faults && reference.asset in old(db).assets &&
                      reference.asset !in MediaOf(old(db), id)
      ensures var rows := MediaOf(old(db), id)[reference.asset := reference.alt];
              db == if ok then old(db).(media := old(db).media[id := rows]) else old(db)
    {
      var failed := Execute();
      if failed || reference.asset !in db.assets || reference.asset in MediaOf(db, id) { return false; }
      db := db.(media := db.media[id := MediaOf(db, id)[reference.asset := reference.alt]]);
      ok := true;
    }

    /** validateMediaReferences: every referenced asset is looked up. */
    method ValidateMediaReferences(references: seq<Reference>) returns (result: Result<(), Error>)
      modifies this`executed
      ensures result.Ok? <==> Undisturbed(faults, old(executed), |references|) && AllStored(db, references)
      ensures result.Ok? ==> executed == old(executed) + |references|
      ensures result.Err? && Undisturbed(faults, old(executed), |references|) ==> result.error == MediaNotFound
    {
      ghost var start := executed;
      for k := 0 to |references|
        invariant executed == start + k && Undisturbed(faults, start, k) && AllStored(db, references[..k])
      {
        var failed := Execute();
        if failed { return Err(Storage); }
        if references[k].asset !in db.assets { return Err(MediaNotFound); }
        assert references[..k + 1] == references[..k] + [references[k]];
      }
      assert references[..|references|] == references;
      result := Ok(());
    }

    /** The loop of INSERTs, into an article that has no media rows. */
    method InsertReferences(id: nat, references: seq<Reference>) returns (ok: bool)
      requires AllStored(db, references) && MediaOf(db, id) == map[] && id in db.media
      modifies this`executed, this`db
      ensures ok <==> Undisturbed(faults, old(executed), |references|) && DistinctAssets(references)
      ensures ok ==> db == old(db).(media := old(db).media[id := AltTexts(references)])
      ensures ok ==> executed == old(executed) + |references|
    {
      ghost var start, before := executed, db;
      for k := 0 to |references|
        invariant executed == start + k && Undisturbed(faults, start, k)
        invariant Inserted(before, id, references, k, db)
      {
        InsertOn(before, id, references, k, db);
        var inserted := InsertArticleMedia(id, references[k]);
        if !inserted { return false; }
      }
      assert references[..|references|] == references;
      ok := true;
    }

    /** The asset check, the DELETE and the INSERTs. */
    method ReplaceMedia(id: nat, references: seq<Reference>) returns (result: Result<(), Error>)
      modifies this`executed, this`db
      ensures result.Ok? <==> Undisturbed(faults, old(executed), 2 * |references| + 1) &&
                              AllStored(old(db), references) && DistinctAssets(references)
      ensures result.Ok? ==> db == old(db).(media := old(db).media[id := AltTexts(references)]) &&
                             executed == old(executed) + 2 * |references| + 1
      ensures faults == {} && result.Err? ==>
                result.error == if AllStored(old(db), references) then Storage else MediaNotFound
    {
      ghost var start, n := executed, |references|;
      UndisturbedSplit(faults, start, n, n + 1);
      UndisturbedSplit(faults, start + n, 1, n);
      var valid := ValidateMediaReferences(references);
      if valid.Err? { return Err(valid.error); }
      var failed := Execute();
      if failed { return Err(Storage); }
      ghost var before := db;
      db := db.(media := db.media[id := map[]]);
      var inserted := InsertReferences(id, references);
      if !inserted { return Err(Storage); }
      assert db.media == before.media[id := AltTexts(references)];
      result := Ok(());
    }

    /** UpdateArticleWithMedia: the guarded UPDATE and the replacement of the media rows commit together
        or leave nothing behind. */
    method UpdateArticleWithMedia(id: nat, version: nat, content: Content, references: seq<Reference>)
      returns (result: Result<(), Error>)
      modifies this
      ensures var outcome := Commit(old(db), id, version, Update(content, references));
              && (result.Ok? <==> outcome.Ok? && Undisturbed(faults, old(executed), 2 * |references| + 4))
              && db == (if result.Ok? then outcome.value else old(db))
              && (faults == {} && result.Err? ==> outcome == Err(result.error))
    {
      var before := db;
      var failed := Execute();
      if failed { return Err(Storage); }
      var updated := UpdateArticle(id, version, content);
      if updated.Err? { return Err(updated.error); }
      if updated.value != 1 {
        db := before;
        return Err(Conflict);
      }
      var replaced := ReplaceMedia(id, references);
      if replaced.Err? {
        db := before;
        return Err(replaced.error);
      }
      failed := Execute();
      if failed {
        db := before;
        return Err(Storage);
      }
      result := Ok(());
    }

    method InsertArticle(id: nat, title: string, body: Option<string>, columns: Option<Columns>) returns (ok: bool)
      modifies this`executed, this`db
      ensures executed == old(executed) + 1
      ensures ok <==> old(executed) !in faults && id !in old(db).articles && id !in old(db).media
      ensures db == if ok then
                      old(db).(articles := old(db).articles[id := NewRow(title, body, columns)],
                               media := old(db).media[id := map[]])
                    else old(db)
    {
      var failed := Execute();
      if failed || id in db.articles || id in db.media { return false; }
      db := db.(articles := db.articles[id := NewRow(title, body, columns)],
                media := db.media[id := map[]]);
      ok := true;
    }

    /** The asset check and the INSERTs for a new article. */
    method FirstMedia(id: nat, references: seq<Reference>) returns (result: Result<(), Error>)
      requires MediaOf(db, id) == map[] && id in db.media
      modifies this`executed, this`db
      ensures result.Ok? <==> Undisturbed(faults, old(executed), 2 * |references|) &&
                              AllStored(old(db), references) && DistinctAssets(references)
      ensures result.Ok? ==> db == old(db).(media := old(db).media[id := AltTexts(references)]) &&
                             executed == old(executed) + 2 * |references|
      ensures faults == {} && result.Err? ==>
                result.error == if AllStored(old(db), references) then Storage else MediaNotFound
    {
      var valid := ValidateMediaReferences(references);
      if valid.Err? { return Err(valid.error); }
      var inserted := InsertReferences(id, references);
      if !inserted { return Err(Storage); }
      result := Ok(());
    }

    /** The INSERT of the article and what follows it, before the commit. */
    method InsertWithMedia(id: nat, title: string, body: Option<string>, derived: Derived)
      returns (result: Result<(), Error>)
      modifies this`executed, this`db
      ensures var outcome := Insert(old(db), id, title, body, derived);
              && (result.Ok? <==> outcome.Ok? && Undisturbed(faults, old(executed), 2 * |derived.references| + 1))
              && (result.Ok? ==> db == outcome.value && executed == old(executed) + 2 * |derived.references| + 1)
              && (faults == {} && result.Err? ==> outcome == Err(result.error))
    {
      ghost var start, before := executed, db;
      var created := InsertArticle(id, title, body, derived.columns);
      UndisturbedSplit(faults, start, 1, 2 * |derived.references|);
      if !created { return Err(Storage); }
      result := FirstMedia(id, derived.references);
      assert before.media[id := map[]][id := AltTexts(derived.references)] ==
        before.media[id := AltTexts(derived.references)];
    }

    /** CreateArticleWithMedia, with the id the INSERT is given. */
    method CreateArticleWithMedia(id: nat, title: string, body: Option<string>, derived: Derived)
      returns (result: Result<(), Error>)
      modifies this
      ensures var outcome := Insert(old(db), id, title, body, derived);
              && (result.Ok? <==> outcome.Ok? && Undisturbed(faults, old(executed), 2 * |derived.references| + 3))
              && db == (if result.Ok? then outcome.value else old(db))
              && (faults == {} && result.Err? ==> outcome == Err(result.error))
    {
      ghost var start := executed;
      var before := db;
      var failed := Execute();
      UndisturbedSplit(faults, start, 1, 2 * |derived.references| + 2);
      UndisturbedSplit(faults, start + 1, 2 * |derived.references| + 1, 1);
      if failed { return Err(Storage); }
      result := InsertWithMedia(id, title, body, derived);
      if result.Err? {
        db := before;
        return;
      }
      failed := Execute();
      if failed {
        db := before;
        return Err(Storage);
      }
    }

    /** UPDATE ... SET status = 'draft' ... AND version = ? AND status = 'published'. */
    method WithdrawArticle(id: nat, version: nat) returns (result: Result<(), Error>)
      modifies this`executed, this`db
      ensures var outcome := Commit(old(db), id, version, ToDraft);
              && (result.Ok? <==> outcome.Ok? && old(executed) !in faults)
              && db == (if result.Ok? then outcome.value else old(db))
              && (faults == {} && result.Err? ==> outcome == Err(result.error))
      ensures executed == old(executed) + 1
      ensures result.Ok? ==>
                && id in old(db).articles && old(db).articles[id].version == version
                && old(db).articles[id].content.status == Published && OnlyArticle(old(db), db, id)
                && db.articles[id] == Row(old(db).articles[id].content.(status := Draft), version + 1)
    {
      var failed := Execute();
      if failed { return Err(Storage); }
      if id !in db.articles || db.articles[id].version != version || db.articles[id].content.status.Draft? {
        return Err(Conflict);
      }
      var row := db.articles[id];
      db := db.(articles := db.articles[id := Row(row.content.(status := Draft), row.version + 1)]);
      result := Ok(());
    }
  }

  lemma DistinctAppend(refs: seq<Reference>, r: Reference)
    requires DistinctAssets(refs)
    ensures DistinctAssets(refs + [r]) <==> r.asset !in AltTexts(refs)
    ensures AltTexts(refs + [r]) == AltTexts(refs)[r.asset := r.alt]
  {
    var all := refs + [r];
    assert all[..|refs|] == refs && all[|refs|] == r;
    if DistinctAssets(all) { DistinctSplit(refs, r); }
  }

  /** The database after the first `k` INSERTs. */
  ghost predicate Inserted(before: Database, id: nat, refs: seq<Reference>, k: nat, db: Database)
    requires k <= |refs|
  {
    DistinctAssets(refs[..k]) && db == before.(media := before.media[id := AltTexts(refs[..k])])
  }

  /** The next INSERT breaks the primary key, or goes one further. */
  lemma InsertOn(before: Database, id: nat, refs: seq<Reference>, k: nat, db: Database)
    requires k < |refs| && Inserted(before, id, refs, k, db)
    ensures var rows := MediaOf(db, id);
            if refs[k].asset in rows then !DistinctAssets(refs)
            else Inserted(before, id, refs, k + 1, db.(media := db.media[id := rows[refs[k].asset := refs[k].alt]]))
    ensures AllStored(before, refs) ==> refs[k].asset in db.assets
  {
    assert refs[..k + 1] == refs[..k] + [refs[k]];
    DistinctAppend(refs[..k], refs[k]);
    if refs[k].asset in MediaOf(db, id) {
      DistinctPrefix(refs, k + 1);
    } else {
      var next := db.(media := db.media[id := MediaOf(db, id)[refs[k].asset := refs[k].alt]]);
      assert next.media == before.media[id := AltTexts(refs[..k + 1])];
    }
  }

  lemma DistinctPrefix(refs: seq<Reference>, n: nat)
    requires n <= |refs| && !DistinctAssets(refs[..n])
    ensures !DistinctAssets(refs)
  {
    var i, j :| 0 <= i < j < n && refs[..n][i].asset == refs[..n][j].asset;
    assert refs[i].asset == refs[j].asset;
  }

  // ---------------------------------------------------------------- interference

  predicate By(a: Action, c: nat) { (a.Read? || a.WriteBack?) && a.c == c }

  /** Steps of requests other than `c`. */
  ghost predicate OthersOnly(actions: seq<Action>, c: nat) { forall a | a in actions :: !By(a, c) }

  ghost predicate SameCall(s: State, t: State, c: nat) {
    (c in t.calls <==> c in s.calls) && (c in s.calls ==> t.calls[c] == s.calls[c])
  }

  lemma StepOfOther(render: Renderer, s: State, a: Action, c: nat)
    requires !By(a, c)
    ensures SameCall(s, Step(render, s, a), c)
  {}

  /** Others neither move request `c` on nor lose track of what it saw. */
  lemma {:induction false} OthersKeep(render: Renderer, s: State, actions: seq<Action>, c: nat)
    requires OthersOnly(actions, c) && Tracked(s)
    ensures SameCall(s, Run(render, s, actions), c) && Tracked(Run(render, s, actions))
    decreases |actions|
  {
    if actions != [] {
      StepTracked(render, s, actions[0]);
      StepOfOther(render, s, actions[0], c);
      OthersKeep(render, Step(render, s, actions[0]), actions[1..], c);
    }
  }

  /** One step of the request, then those of others. */
  ghost function Then(render: Renderer, s: State, a: Action, others: seq<Action>): State {
    Run(render, Step(render, s, a), others)
  }

  lemma {:induction false} RunJoin(render: Renderer, s: State, a: seq<Action>, b: seq<Action>)
    ensures Run(render, s, a + b) == Run(render, Run(render, s, a), b)
    decreases |a|
  {
    if a == [] {
      assert a + b == b;
    } else {
      assert (a + b)[1..] == a[1..] + b;
      RunJoin(render, Step(render, s, a[0]), a[1..], b);
    }
  }

  lemma ThenRuns(render: Renderer, s: State, before: seq<Action>, a: Action, others: seq<Action>)
    ensures Run(render, s, before + ([a] + others)) == Then(render, Run(render, s, before), a, others)
  {
    RunJoin(render, s, before, [a] + others);
    RunJoin(render, Run(render, s, before), [a], others);
    assert [a][1..] == [] && Run(render, Run(render, s, before), [a]) == Step(render, Run(render, s, before), a);
  }

  // ---------------------------------------------------------------- one request between the others

  /** A request for an article, and what it generates. */
  datatype Job = Job(c: nat, article: nat, request: Request, ulid: string, now: int)

  function ReadOf(j: Job): Action { Read(j.c, j.article, j.request, j.ulid, j.now) }

  /** What others do between its read and its write, and between its write and its last read. */
  datatype Between = Between(read: seq<Action>, write: seq<Action>)

  function Statements(w: Write): nat { if w.Update? then 2 * |w.references| + 4 else 1 }

  /** Whether one of the statements of the write fails, from statement number `from` on. */
  ghost predicate WriteFails(render: Renderer, faults: set<nat>, from: nat, s: State, j: Job) {
    && j.article in s.db.articles
    && var write := Prepare(render, j.request, s.db.articles[j.article], j.ulid, j.now);
       write.Ok? && !Undisturbed(faults, from, Statements(write.value))
  }

  ghost function AfterRead(render: Renderer, s: State, j: Job, b: Between): State { Then(render, s, ReadOf(j), b.read) }

  ghost function AfterWrite(render: Renderer, s: State, j: Job, fails: bool, b: Between): State {
    Then(render, AfterRead(render, s, j, b), WriteBack(j.c, fails), b.write)
  }

  /** How far a request came: it wrote nothing, its write did not commit, or it did. */
  datatype Reached = Nothing | Refused | Committed

  ghost function End(render: Renderer, s: State, j: Job, fails: bool, b: Between, reached: Reached): State {
    match reached
    case Nothing => s
    case Refused => Step(render, AfterRead(render, s, j, b), WriteBack(j.c, fails))
    case Committed => AfterWrite(render, s, j, fails, b)
  }

  /** Every end is reached by a run of the protocol. */
  lemma EndIsReached(render: Renderer, s: State, j: Job, fails: bool, b: Between, reached: Reached)
    ensures var script := match reached
                          case Nothing => []
                          case Refused => [] + ([ReadOf(j)] + b.read) + ([WriteBack(j.c, fails)] + [])
                          case Committed => [] + ([ReadOf(j)] + b.read) + ([WriteBack(j.c, fails)] + b.write);
            End(render, s, j, fails, b, reached) == Run(render, s, script)
  {
    ThenRuns(render, s, [], ReadOf(j), b.read);
    ThenRuns(render, s, [] + ([ReadOf(j)] + b.read), WriteBack(j.c, fails), []);
    ThenRuns(render, s, [] + ([ReadOf(j)] + b.read), WriteBack(j.c, fails), b.write);
  }

  /** What a request may report. It reached its commit only if its write did commit, as one indivisible
      operation on the database others had left, which still held the row it had read; a result is the row
      as it stands at the last read; a refusal leaves the database to the others. */
  ghost predicate Reports(render: Renderer, s: State, j: Job, fails: bool, b: Between, reached: Reached,
                          result: Result<Row, Error>)
  {
    var m := AfterRead(render, s, j, b);
    var w := Step(render, m, WriteBack(j.c, fails));
    && (result.Ok? ==> reached.Committed?)
    && (reached.Committed? ==>
          && j.article in s.db.articles && j.article in m.db.articles &&
             m.db.articles[j.article] == s.db.articles[j.article]
          && var entry := Applied(Call(j.article, j.request, s.db.articles[j.article], j.ulid, j.now));
             && w.log == m.log + [entry] && Atomic(render, m.db, entry) == Ok(w.db)
             && Effected(render, m.db, w.db, entry.call))
    && (reached.Refused? ==> w.db == m.db && w.log == m.log)
    && var t := End(render, s, j, fails, b, reached);
       result.Ok? ==> j.article in t.db.articles && result.value == t.db.articles[j.article]
  }

  lemma ReadWaits(render: Renderer, s: State, j: Job, b: Between)
    requires Tracked(s) && j.c !in s.calls && OthersOnly(b.read, j.c) && j.article in s.db.articles
    requires Prepare(render, j.request, s.db.articles[j.article], j.ulid, j.now).Ok?
    ensures var m := AfterRead(render, s, j, b);
            && Tracked(m) && j.c in m.calls
            && m.calls[j.c] == Call(j.article, j.request, s.db.articles[j.article], j.ulid, j.now)
  {
    StepTracked(render, s, ReadOf(j));
    OthersKeep(render, Step(render, s, ReadOf(j)), b.read, j.c);
  }

  lemma WriteLands(render: Renderer, m: State, c: nat, fails: bool)
    requires Tracked(m) && c in m.calls
    requires var call := m.calls[c]; Prepare(render, call.request, call.seen, call.ulid, call.now).Ok?
    ensures var call := m.calls[c];
            var write := Prepare(render, call.request, call.seen, call.ulid, call.now).value;
            var outcome := Commit(m.db, call.article, call.seen.version, write);
            var w := Step(render, m, WriteBack(c, fails));
            if outcome.Ok? && !fails then
              && w.db == outcome.value && w.log == m.log + [Applied(call)]
              && m.db.articles[call.article] == call.seen && Atomic(render, m.db, Applied(call)) == Ok(w.db)
              && Effected(render, m.db, w.db, call)
            else w.db == m.db && w.log == m.log
  {
    assert SeenOrOvertaken(m.db, m.calls[c]);
    if Atomic(render, m.db, Applied(m.calls[c])).Ok? { CommittedMeans(render, m.db, m.calls[c]); }
  }

  // ---------------------------------------------------------------- the service

  class Service {
    const store: SQLStore
    const render: Renderer

    constructor (store: SQLStore, render: Renderer)
      ensures this.store == store && this.render == render
    {
      this.store, this.render := store, render;
    }

    /** CreateDraft; `id` is what the INSERT hands out. */
    method CreateDraft(id: nat, title: string, body: Option<string>) returns (result: Result<Row, Error>)
      modifies store
      ensures store.db == old(store.db) || Atomic(render, old(store.db), Created(id, title, body)) == Ok(store.db)
      ensures result.Ok? ==> id !in old(store.db).articles
      ensures result.Ok? ==>
                && result.value.version == 1 && result.value.content.status == Draft
                && result.value.content.title == title && result.value.content.body == body
                && result.value.content.address == None
                && result.value.content.firstPublished == None
                && OfBody(render, body, result.value.content.columns, MediaOf(store.db, id))
      ensures result.Ok? ==> id in store.db.articles && result.value == store.db.articles[id]
      ensures store.faults == {} ==> (result.Ok? <==> Atomic(render, old(store.db), Created(id, title, body)).Ok?)
    {
      CreatedMeans(render, store.db, id, title, body);
      if !ValidTitle(title) { return Err(InvalidTitle); }
      if !ValidBody(body) { return Err(BodyTooLarge); }
      var derived := Derive(render, body, false);
      if derived.Err? { return Err(derived.error); }
      var created := store.CreateArticleWithMedia(id, title, body, derived.value);
      if created.Err? { return Err(created.error); }
      result := store.GetArticleByID(id);
    }

    /** What every call starts from: the database of state `s`, and what others leave behind its read and
        behind its write. */
    ghost predicate Meets(s: State, j: Job, b: Between, afterRead: Database, afterWrite: Database)
      reads this, store
    {
      && store.db == s.db && Tracked(s) && j.c !in s.calls && OthersOnly(b.read, j.c) && OthersOnly(b.write, j.c)
      && afterRead == AfterRead(render, s, j, b).db
      && afterWrite == AfterWrite(render, s, j, WriteFails(render, store.faults, store.executed + 1, s, j), b).db
    }

    /** One of the two guarded writes. */
    method Apply(id: nat, base: nat, write: Write) returns (written: Result<(), Error>)
      modifies store
      ensures var outcome := Commit(old(store.db), id, base, write);
              && (written.Ok? <==> outcome.Ok? && Undisturbed(store.faults, old(store.executed), Statements(write)))
              && store.db == if written.Ok? then outcome.value else old(store.db)
    {
      match write {
        case Update(content, references) =>
          written := store.UpdateArticleWithMedia(id, base, content, references);
        case ToDraft =>
          UndisturbedSplit(store.faults, store.executed, 0, 1);
          written := store.WithdrawArticle(id, base);
      }
    }

    /** The guarded write of a request that read `current`, and the read that follows it. */
    method Complete(current: Row, write: Write, afterRead: Database, afterWrite: Database,
                    ghost s: State, j: Job, ghost b: Between, ghost fails: bool)
      returns (result: Result<Row, Error>, ghost reached: Reached)
      requires Tracked(s) && j.c !in s.calls && OthersOnly(b.read, j.c) && OthersOnly(b.write, j.c)
      requires j.article in s.db.articles && s.db.articles[j.article] == current
      requires Prepare(render, j.request, current, j.ulid, j.now) == Ok(write)
      requires fails == !Undisturbed(store.faults, store.executed, Statements(write))
      requires afterRead == AfterRead(render, s, j, b).db && afterWrite == AfterWrite(render, s, j, fails, b).db
      modifies store
      ensures store.db == End(render, s, j, fails, b, reached).db && Reports(render, s, j, fails, b, reached, result)
      ensures store.faults == {} ==> (result.Ok? <==> reached.Committed?)
      ensures store.faults == {} && AfterRead(render, s, j, b).db == s.db ==>
                (result.Ok? <==> Commit(s.db, j.article, current.version, write).Ok?)
    {
      ghost var m := AfterRead(render, s, j, b);
      ReadWaits(render, s, j, b);
      WriteLands(render, m, j.c, fails);
      store.Others(afterRead);
      var written := Apply(j.article, current.version, write);
      if written.Err? {
        result, reached := Err(written.error), Refused;
        return;
      }
      ghost var w := Step(render, m, WriteBack(j.c, fails));
      StepTracked(render, m, WriteBack(j.c, fails));
      OthersFollow(render, w, b.write);
      store.Others(afterWrite);
      result := store.GetArticleByID(j.article);
      reached := Committed;
    }

    /** The checks of Save on the row it read, and the write it asks for. */
    method PrepareSave(current: Row, title: string, body: Option<string>, version: nat)
      returns (prepared: Result<Write, Error>)
      ensures prepared == Prepare(render, Request.Save(title, body, version), current, "", 0)
    {
      if current.version != version { return Err(Conflict); }
      if !ValidTitle(title) { return Err(InvalidTitle); }
      if !ValidBody(body) { return Err(BodyTooLarge); }
      if current.content.status.Published? && (body.None? || Trim(body.value) == "") { return Err(BodyRequired); }
      var derived := Derive(render, body, false);
      if derived.Err? { return Err(derived.error); }
      var content := current.content.(title := title, body := body, columns := derived.value.columns);
      prepared := Ok(Update(content, derived.value.references));
    }

    /** Save, with other requests' steps behind its read and behind its write. */
    method Save(c: nat, id: nat, title: string, body: Option<string>, version: nat,
                afterRead: Database, afterWrite: Database, ghost s: State, ghost b: Between)
      returns (result: Result<Row, Error>, ghost reached: Reached)
      requires Meets(s, Job(c, id, Request.Save(title, body, version), "", 0), b, afterRead, afterWrite)
      modifies store
      ensures var j := Job(c, id, Request.Save(title, body, version), "", 0);
              var fails := WriteFails(render, store.faults, old(store.executed) + 1, s, j);
              && store.db == End(render, s, j, fails, b, reached).db && Reports(render, s, j, fails, b, reached, result)
              && Undelayed(render, store.faults, s, j, b, result)
              && (result.Ok? ==>
                    id in s.db.articles &&
                    WritesSave(s.db.articles[id], RowWritten(render, s, j, fails, b), title, body, version))
    {
      var j := Job(c, id, Request.Save(title, body, version), "", 0);
      reached := Nothing;
      var found := store.GetArticleByID(id);
      if found.Err? { return Err(found.error), reached; }
      var prepared := PrepareSave(found.value, title, body, version);
      if prepared.Err? { return Err(prepared.error), reached; }
      ghost var fails := WriteFails(render, store.faults, store.executed, s, j);
      result, reached := Complete(found.value, prepared.value, afterRead, afterWrite, s, j, b, fails);
    }

    /** The checks of Publish on the row it read, and the write it asks for: the address and time there are,
        or generated ones for an article that lacks one. */
    method PreparePublish(current: Row, title: string, body: Option<string>, version: nat, newULID: Option<string>,
                          now: int)
      returns (prepared: Result<Write, Error>)
      ensures prepared.Ok? ==>
                prepared == Prepare(render, Request.Publish(title, body, version), current, newULID.GetOr(""), now)
      ensures prepared.Ok? && newULID.None? ==>
                current.content.address.Some? && current.content.firstPublished.Some?
      ensures newULID.Some? ==>
                prepared == Prepare(render, Request.Publish(title, body, version), current, newULID.value, now)
    {
      if current.version != version { return Err(Conflict); }
      if !ValidTitle(title) { return Err(InvalidTitle); }
      if !ValidBody(body) { return Err(BodyTooLarge); }
      if body.None? || Trim(body.value) == "" { return Err(BodyRequired); }
      var derived := Derive(render, body, true);
      if derived.Err? { return Err(derived.error); }
      var address, firstPublished := current.content.address, current.content.firstPublished;
      if address.None? || firstPublished.None? {
        if newULID.None? { return Err(Storage); }
        address, firstPublished := newULID, Some(now);
      }
      var content := Content(title, body, derived.value.columns, Published, address, firstPublished);
      prepared := Ok(Update(content, derived.value.references));
    }

    /** Publish, with other requests' steps behind its read and behind its write. */
    method Publish(c: nat, id: nat, title: string, body: Option<string>, version: nat, newULID: Option<string>,
                   now: int, afterRead: Database, afterWrite: Database, ghost s: State, ghost b: Between)
      returns (result: Result<Row, Error>, ghost reached: Reached)
      requires Meets(s, Job(c, id, Request.Publish(title, body, version), newULID.GetOr(""), now), b, afterRead,
                     afterWrite)
      modifies store
      ensures var j := Job(c, id, Request.Publish(title, body, version), newULID.GetOr(""), now);
              var fails := WriteFails(render, store.faults, old(store.executed) + 1, s, j);
              && store.db == End(render, s, j, fails, b, reached).db && Reports(render, s, j, fails, b, reached, result)
              && (newULID.Some? ==> Undelayed(render, store.faults, s, j, b, result))
              && (result.Ok? ==>
                    id in s.db.articles &&
                    WritesPublication(s.db.articles[id], RowWritten(render, s, j, fails, b), title, body, version,
                                      newULID, now))
    {
      var j := Job(c, id, Request.Publish(title, body, version), newULID.GetOr(""), now);
      reached := Nothing;
      var found := store.GetArticleByID(id);
      if found.Err? { return Err(found.error), reached; }
      var prepared := PreparePublish(found.value, title, body, version, newULID, now);
      if prepared.Err? { return Err(prepared.error), reached; }
      ghost var fails := WriteFails(render, store.faults, store.executed, s, j);
      result, reached := Complete(found.value, prepared.value, afterRead, afterWrite, s, j, b, fails);
    }

    method Withdraw(c: nat, id: nat, version: nat,
                    afterRead: Database, afterWrite: Database, ghost s: State, ghost b: Between)
      returns (result: Result<Row, Error>, ghost reached: Reached)
      requires Meets(s, Job(c, id, Request.Withdraw(version), "", 0), b, afterRead, afterWrite)
      modifies store
      ensures var j := Job(c, id, Request.Withdraw(version), "", 0);
              var fails := WriteFails(render, store.faults, old(store.executed) + 1, s, j);
              && store.db == End(render, s, j, fails, b, reached).db && Reports(render, s, j, fails, b, reached, result)
              && Undelayed(render, store.faults, s, j, b, result)
              && (result.Ok? ==>
                    id in s.db.articles &&
                    WritesWithdrawal(s.db.articles[id], RowWritten(render, s, j, fails, b), version))
    {
      var j := Job(c, id, Request.Withdraw(version), "", 0);
      reached := Nothing;
      var found := store.GetArticleByID(id);
      if found.Err? { return Err(found.error), reached; }
      var current := found.value;
      if current.version != version { return Err(Conflict), reached; }
      if current.content.status != Published { return Err(NotPublished), reached; }
      ghost var fails := WriteFails(render, store.faults, store.executed, s, j);
      result, reached := Complete(current, ToDraft, afterRead, afterWrite, s, j, b, fails);
    }
  }

  /** With no failing statement and nobody in between, a request succeeds exactly when it can be applied. */
  ghost predicate Undelayed(render: Renderer, faults: set<nat>, s: State, j: Job, b: Between,
                            result: Result<Row, Error>)
  {
    faults == {} && b.read == [] && j.article in s.db.articles ==>
      var call := Call(j.article, j.request, s.db.articles[j.article], j.ulid, j.now);
      result.Ok? <==> Atomic(render, s.db, Applied(call)).Ok?
  }

  /** The row as a save leaves it: the text that was sent, one version more, all else as it was read. */
  ghost predicate WritesSave(was: Row, now: Option<Row>, title: string, body: Option<string>, version: nat) {
    && was.version == version && now.Some? && now.value.version == version + 1
    && var c := now.value.content;
       && c.title == title && c.body == body && c.status == was.content.status
       && c.address == was.content.address && c.firstPublished == was.content.firstPublished
  }

  /** The row as a publication leaves it: published, with the text that was sent, one version more, under the
      address and time it had, or else the generated ones. */
  ghost predicate WritesPublication(was: Row, now: Option<Row>, title: string, body: Option<string>, version: nat,
                                    newULID: Option<string>, time: int)
  {
    && was.version == version && now.Some? && now.value.version == version + 1
    && var c := now.value.content;
       && c.status == Published && c.title == title && c.body == body
       && (if was.content.address.Some? && was.content.firstPublished.Some? then
             c.address == was.content.address && c.firstPublished == was.content.firstPublished
           else newULID.Some? && c.address == newULID && c.firstPublished == Some(time))
  }

  /** The row as a withdrawal leaves it: a draft, one version more, all else as it was. */
  ghost predicate WritesWithdrawal(was: Row, now: Option<Row>, version: nat) {
    && was.version == version && was.content.status == Published && now.Some? && now.value.version == version + 1
    && var c := now.value.content;
       && c.status == Draft && c.title == was.content.title && c.body == was.content.body
       && c.columns == was.content.columns && c.address == was.content.address
       && c.firstPublished == was.content.firstPublished
  }

  /** The row a committed write left. */
  ghost function RowWritten(render: Renderer, s: State, j: Job, fails: bool, b: Between): Option<Row> {
    var w := Step(render, AfterRead(render, s, j, b), WriteBack(j.c, fails));
    if j.article in w.db.articles then Some(w.db.articles[j.article]) else None
  }

  /** No article disappears while others take their steps. */
  lemma OthersFollow(render: Renderer, s: State, actions: seq<Action>)
    requires Tracked(s)
    ensures Follows(s.db, Run(render, s, actions).db)
  {
    LogGrows(render, s, actions);
  }

  // ---------------------------------------------------------------- who may open a media file

  /** Open of a media file: an administrator gets the path of every stored asset, a visitor that of the
      referenced ones; `pathOf` is the storage path an asset's key resolves to, if it stays in place. */
  method Open(store: SQLStore, pathOf: string -> Option<string>, asset: string, administrator: bool)
    returns (result: Result<string, Error>)
    modifies store`executed
    ensures store.faults == {} ==>
              (result.Ok? <==> asset != "" && asset in store.db.assets && pathOf(asset).Some? &&
                               (administrator || Referenced(store.db, asset)))
    ensures result.Ok? ==> asset in store.db.assets && pathOf(asset) == Some(result.value)
    ensures result.Ok? ==>
              || administrator
              || (exists id | id in store.db.articles ::
                    store.db.articles[id].content.status == Published && asset in MediaOf(store.db, id))
              || (exists p | p in store.db.projects ::
                    store.db.projects[p].visible && store.db.projects[p].image == Some(asset))
    ensures store.faults == {} && asset != "" && asset in store.db.assets && pathOf(asset).Some? && result.Err? ==>
              && !administrator
              && (forall id | id in store.db.articles && store.db.articles[id].content.status == Published ::
                    asset !in MediaOf(store.db, id))
              && (forall p | p in store.db.projects && store.db.projects[p].image == Some(asset) ::
                    !store.db.projects[p].visible)
    ensures result.Err? && store.faults == {} ==> result.error == NotFound
  {
    if asset == "" { return Err(NotFound); }
    var failed := store.Execute();
    if failed { return Err(Storage); }
    if asset !in store.db.assets { return Err(NotFound); }
    if !administrator {
      failed := store.Execute();
      if failed { return Err(Storage); }
      var articleReferenced := ReferencedByArticle(store.db, asset);
      if !articleReferenced {
        failed := store.Execute();
        if failed { return Err(Storage); }
        if !ReferencedByProject(store.db, asset) { return Err(NotFound); }
      }
    }
    var path := pathOf(asset);
    if path.None? { return Err(NotFound); }
    result := Ok(path.value);
  }
}
