/** Articles of internal/article: drafts, saves, publication and withdrawal, each of which reads a row,
    prepares its write, and commits it later under a guard on the version it read. */
module Articles {
  import opened Common
  import opened MediaReferences

  const MAX_TITLE := 200
  const MAX_BODY := 2 * 1024 * 1024

  datatype Status = Draft | Published

  datatype Error =
    | NotFound | Conflict | InvalidTitle | BodyTooLarge | BodyRequired | Unrenderable | NotPublished
    | MediaNotFound | Storage

  /** What a body is rendered to: HTML, table of contents, preview text and renderer version. */
  datatype Columns = Columns(html: string, toc: string, preview: string, renderer: string)

  /** The renderer's answer: the columns, and the images of the body in document order. */
  datatype Rendered = Rendered(columns: Columns, images: seq<Reference>)

  type Renderer = string -> Option<Rendered>

  datatype Content = Content(title: string, body: Option<string>, columns: Option<Columns>, status: Status,
                             address: Option<string>, firstPublished: Option<int>)

  datatype Row = Row(content: Content, version: nat)

  datatype Project = Project(image: Option<string>, visible: bool)

  /** The tables articles, article_media (by article), media_assets and projects. */
  datatype Database = Database(articles: map<nat, Row>, media: map<nat, map<string, string>>,
                               assets: set<string>, projects: map<nat, Project>)

  function MediaOf(db: Database, id: nat): map<string, string> { if id in db.media then db.media[id] else map[] }

  // ---------------------------------------------------------------- requests

  datatype Request =
    | Save(title: string, body: Option<string>, version: nat)
    | Publish(title: string, body: Option<string>, version: nat)
    | Withdraw(version: nat)

  predicate ValidTitle(title: string) { title != "" && Trim(title) == title && |title| <= MAX_TITLE }

  function CharSize(c: char): nat {
    if c < '\U{80}' then 1 else if c < '\U{800}' then 2 else if c < '\U{10000}' then 3 else 4
  }

  function Utf8Size(s: string): nat {
    if s == [] then 0 else CharSize(s[0]) + Utf8Size(s[1..])
  }

  predicate ValidBody(body: Option<string>) { body.Some? ==> Utf8Size(body.value) <= MAX_BODY }

  predicate Blank(body: Option<string>) { body.None? || Trim(body.value) == "" }

  datatype Derived = Derived(columns: Option<Columns>, references: seq<Reference>)

  function Derive(render: Renderer, body: Option<string>, requireNonEmpty: bool): Result<Derived, Error> {
    if body.None? || body.value == "" then
      if requireNonEmpty then Err(BodyRequired) else Ok(Derived(None, []))
    else
      match render(body.value)
      case None => Err(Unrenderable)
      case Some(r) =>
        if Consistent(r.images) then Ok(Derived(Some(r.columns), FirstAppearances(r.images))) else Err(Unrenderable)
  }

  /** The statement a request is about to run, with its parameters. */
  datatype Write = Update(content: Content, references: seq<Reference>) | ToDraft

  /** From the row as read to the write, or a refusal; `ulid` and `now` are the generated address and the clock. */
  function Prepare(render: Renderer, request: Request, current: Row, ulid: string, now: int): Result<Write, Error> {
    var c := current.content;
    if current.version != request.version then Err(Conflict)
    else if request.Withdraw? then
      if c.status.Published? then Ok(ToDraft) else Err(NotPublished)
    else if !ValidTitle(request.title) then Err(InvalidTitle)
    else if !ValidBody(request.body) then Err(BodyTooLarge)
    else if (request.Publish? || c.status.Published?) && Blank(request.body) then Err(BodyRequired)
    else
      var derived := Derive(render, request.body, request.Publish?);
      if derived.Err? then Err(derived.error)
      else if request.Save? then
        Ok(Update(c.(title := request.title, body := request.body, columns := derived.value.columns),
                  derived.value.references))
      else
        var unaddressed := c.address.None? || c.firstPublished.None?;
        Ok(Update(Content(request.title, request.body, derived.value.columns, Published,
                          if unaddressed then Some(ulid) else c.address,
                          if unaddressed then Some(now) else c.firstPublished),
                  derived.value.references))
  }

  // ---------------------------------------------------------------- the guarded writes

  /** The unique key on the public address, against the other rows. */
  predicate AddressFree(db: Database, id: nat, address: Option<string>) {
    address.Some? ==> forall a | a in db.articles && a != id :: db.articles[a].content.address != address
  }

  predicate AllStored(db: Database, refs: seq<Reference>) { forall r | r in refs :: r.asset in db.assets }

  /** The whole transaction of a write guarded on version `base`. */
  function Commit(db: Database, id: nat, base: nat, write: Write): Result<Database, Error> {
    if id !in db.articles || db.articles[id].version != base then Err(Conflict)
    else
      match write
      case Update(content, references) =>
        if !AddressFree(db, id, content.address) then Err(Storage)
        else if !AllStored(db, references) then Err(MediaNotFound)
        else if !DistinctAssets(references) then Err(Storage)
        else Ok(db.(articles := db.articles[id := Row(content, base + 1)],
                    media := db.media[id := AltTexts(references)]))
      case ToDraft =>
        if db.articles[id].content.status.Draft? then Err(Conflict)
        else Ok(db.(articles := db.articles[id := Row(db.articles[id].content.(status := Draft), base + 1)]))
  }

  function NewRow(title: string, body: Option<string>, columns: Option<Columns>): Row {
    Row(Content(title, body, columns, Draft, None, None), 1)
  }

  /** The whole transaction that inserts a draft under an id the table hands out. */
  function Insert(db: Database, id: nat, title: string, body: Option<string>, derived: Derived): Result<Database, Error>
  {
    if id in db.articles || id in db.media then Err(Storage)
    else if !AllStored(db, derived.references) then Err(MediaNotFound)
    else if !DistinctAssets(derived.references) then Err(Storage)
    else Ok(db.(articles := db.articles[id := NewRow(title, body, derived.columns)],
                media := db.media[id := AltTexts(derived.references)]))
  }

  function Create(render: Renderer, db: Database, id: nat, title: string, body: Option<string>): Result<Database, Error>
  {
    if !ValidTitle(title) then Err(InvalidTitle)
    else if !ValidBody(body) then Err(BodyTooLarge)
    else
      var derived := Derive(render, body, false);
      if derived.Err? then Err(derived.error) else Insert(db, id, title, body, derived.value)
  }

  // ---------------------------------------------------------------- the concurrent server

  /** A request between its read and its write: the row it saw, and what it generated. */
  datatype Call = Call(article: nat, request: Request, seen: Row, ulid: string, now: int)

  /** What committed. */
  datatype Entry =
    | Created(id: nat, title: string, body: Option<string>)
    | Applied(call: Call)
    | Uploaded(asset: string)
    | Shown(project: nat, value: Project)

  datatype State = State(db: Database, calls: map<nat, Call>, log: seq<Entry>)

  datatype Action =
    | CreateDraft(id: nat, title: string, body: Option<string>, fails: bool)
    | Read(c: nat, article: nat, request: Request, ulid: string, now: int)
    | WriteBack(c: nat, fails: bool)
    | Upload(asset: string)
    | SetProject(project: nat, value: Project)

  function Proceed(s: State, result: Result<Database, Error>, entry: Entry): State {
    if result.Ok? then s.(db := result.value, log := s.log + [entry]) else s
  }

  function ReadStep(render: Renderer, s: State, a: Action): State
    requires a.Read?
  {
    if a.c in s.calls || a.article !in s.db.articles then s
    else
      var seen := s.db.articles[a.article];
      if Prepare(render, a.request, seen, a.ulid, a.now).Err? then s
      else s.(calls := s.calls[a.c := Call(a.article, a.request, seen, a.ulid, a.now)])
  }

  /** The write guarded on the version read; it may also fail by itself. */
  function WriteStep(render: Renderer, s: State, a: Action): State
    requires a.WriteBack?
  {
    if a.c !in s.calls then s
    else
      var call := s.calls[a.c];
      var t := s.(calls := s.calls - {a.c});
      var write := Prepare(render, call.request, call.seen, call.ulid, call.now);
      if a.fails || write.Err? then t
      else Proceed(t, Commit(s.db, call.article, call.seen.version, write.value), Applied(call))
  }

  function Step(render: Renderer, s: State, a: Action): State {
    match a
    case CreateDraft(id, title, body, fails) =>
      if fails then s else Proceed(s, Create(render, s.db, id, title, body), Created(id, title, body))
    case Read(_, _, _, _, _) => ReadStep(render, s, a)
    case WriteBack(_, _) => WriteStep(render, s, a)
    case Upload(asset) => Proceed(s, Ok(s.db.(assets := s.db.assets + {asset})), Uploaded(asset))
    case SetProject(project, value) => Proceed(s, PutProject(s.db, project, value), Shown(project, value))
  }

  function PutProject(db: Database, project: nat, value: Project): Result<Database, Error> {
    if value.image.Some? && value.image.value !in db.assets then Err(Storage)
    else Ok(db.(projects := db.projects[project := value]))
  }

  function Run(render: Renderer, s: State, actions: seq<Action>): State
    decreases |actions|
  {
    if actions == [] then s else Run(render, Step(render, s, actions[0]), actions[1..])
  }

  // ---------------------------------------------------------------- the atomic reference

  /** The same entry as one indivisible read-modify-write on the database as it stands. */
  function Atomic(render: Renderer, db: Database, e: Entry): Result<Database, Error> {
    match e
    case Created(id, title, body) => Create(render, db, id, title, body)
    case Applied(call) =>
      if call.article !in db.articles then Err(NotFound)
      else
        var row := db.articles[call.article];
        var write := Prepare(render, call.request, row, call.ulid, call.now);
        if write.Err? then Err(write.error) else Commit(db, call.article, row.version, write.value)
    case Uploaded(asset) => Ok(db.(assets := db.assets + {asset}))
    case Shown(project, value) => PutProject(db, project, value)
  }

  /** The log replayed, one indivisible operation after another. */
  function Replay(render: Renderer, db: Database, log: seq<Entry>): Result<Database, Error>
    decreases |log|
  {
    if log == [] then Ok(db)
    else
      var before := Replay(render, db, log[..|log| - 1]);
      if before.Err? then before else Atomic(render, before.value, log[|log| - 1])
  }

  /** A waiting request saw the row as it still is, or the row has moved on. */
  predicate SeenOrOvertaken(db: Database, call: Call) {
    && call.article in db.articles && call.seen.version == call.request.version
    && call.seen.version <= db.articles[call.article].version
    && (call.seen.version == db.articles[call.article].version ==> call.seen == db.articles[call.article])
  }

  ghost predicate Tracked(s: State) { forall c | c in s.calls :: SeenOrOvertaken(s.db, s.calls[c]) }

  /** A database follows another: rows keep their content or gain versions, none disappears. */
  ghost predicate Follows(db: Database, next: Database) {
    forall id | id in db.articles ::
      && id in next.articles && db.articles[id].version <= next.articles[id].version
      && (db.articles[id].version == next.articles[id].version ==> next.articles[id] == db.articles[id])
  }

  lemma AtomicFollows(render: Renderer, db: Database, e: Entry)
    requires Atomic(render, db, e).Ok?
    ensures Follows(db, Atomic(render, db, e).value)
  {}

  lemma TrackedFollows(s: State, next: Database)
    requires Tracked(s) && Follows(s.db, next)
    ensures Tracked(s.(db := next))
  {
    forall c | c in s.calls ensures SeenOrOvertaken(next, s.calls[c]) {
      assert SeenOrOvertaken(s.db, s.calls[c]);
    }
  }

  /** At the moment a write commits, the row it was prepared from is the row it replaces: the two
      separate steps did together what one indivisible operation would have done. */
  lemma WriteIsAtomic(render: Renderer, s: State, a: Action)
    requires Tracked(s) && a.WriteBack?
    ensures var t := Step(render, s, a);
            || (t.log == s.log && t.db == s.db)
            || (exists e :: t.log == s.log + [e] && Atomic(render, s.db, e) == Ok(t.db))
  {
    if a.c in s.calls {
      var call := s.calls[a.c];
      assert SeenOrOvertaken(s.db, call);
      var t := Step(render, s, a);
      if t.log != s.log {
        assert t.log == s.log + [Applied(call)];
        assert Atomic(render, s.db, Applied(call)) == Ok(t.db);
      }
    }
  }

  lemma StepIsAtomic(render: Renderer, s: State, a: Action)
    requires Tracked(s)
    ensures var t := Step(render, s, a);
            || (t.log == s.log && t.db == s.db)
            || (exists e :: t.log == s.log + [e] && Atomic(render, s.db, e) == Ok(t.db))
  {
    match a
    case CreateDraft(id, title, body, fails) =>
      var t := Step(render, s, a);
      if !fails && Create(render, s.db, id, title, body).Ok? {
        assert t.log == s.log + [Created(id, title, body)] &&
          Atomic(render, s.db, Created(id, title, body)) == Ok(t.db);
      }
    case Read(_, _, _, _, _) =>
    case WriteBack(_, _) => WriteIsAtomic(render, s, a);
    case Upload(asset) =>
      assert Step(render, s, a).log == s.log + [Uploaded(asset)];
      assert Atomic(render, s.db, Uploaded(asset)) == Ok(Step(render, s, a).db);
    case SetProject(project, value) =>
      var t := Step(render, s, a);
      if PutProject(s.db, project, value).Ok? {
        assert t.log == s.log + [Shown(project, value)] && Atomic(render, s.db, Shown(project, value)) == Ok(t.db);
      }
  }

  lemma StepTracked(render: Renderer, s: State, a: Action)
    requires Tracked(s)
    ensures Tracked(Step(render, s, a)) && Follows(s.db, Step(render, s, a).db)
  {
    StepIsAtomic(render, s, a);
    var t := Step(render, s, a);
    if t.db != s.db {
      var e :| t.log == s.log + [e] && Atomic(render, s.db, e) == Ok(t.db);
      AtomicFollows(render, s.db, e);
    }
    TrackedFollows(s, t.db);
    forall c | c in t.calls ensures SeenOrOvertaken(t.db, t.calls[c]) {
      if c in s.calls && t.calls[c] == s.calls[c] {
        assert SeenOrOvertaken(s.(db := t.db).db, s.(db := t.db).calls[c]);
      }
    }
  }

  /** Every interleaving of reads and guarded writes leaves the database that its committed
      operations, run one at a time in commit order, would have left. */
  lemma {:induction false} RunLinearizes(render: Renderer, start: Database, s: State, actions: seq<Action>)
    requires Tracked(s) && Replay(render, start, s.log) == Ok(s.db)
    ensures Tracked(Run(render, s, actions))
    ensures Replay(render, start, Run(render, s, actions).log) == Ok(Run(render, s, actions).db)
    decreases |actions|
  {
    if actions != [] {
      var t := Step(render, s, actions[0]);
      StepIsAtomic(render, s, actions[0]);
      StepTracked(render, s, actions[0]);
      if t.log != s.log { assert t.log[..|t.log| - 1] == s.log; }
      RunLinearizes(render, start, t, actions[1..]);
    }
  }

  // ---------------------------------------------------------------- one chain of versions

  /** The versions on which the commits to one article were based, in commit order. */
  function Bases(log: seq<Entry>, id: nat): seq<nat>
    decreases |log|
  {
    if log == [] then []
    else
      var e, before := log[|log| - 1], Bases(log[..|log| - 1], id);
      if e.Applied? && e.call.article == id then before + [e.call.request.version] else before
  }

  function Chain(from: nat, n: nat): seq<nat> { seq(n, i => from + i) }

  lemma ChainGrows(from: nat, n: nat)
    ensures Chain(from, n + 1) == Chain(from, n) + [from + n]
  {}

  function VersionOf(db: Database, id: nat): Option<nat> {
    if id in db.articles then Some(db.articles[id].version) else None
  }

  /** What one committed operation does to the version of an article. */
  predicate Moves(before: Option<nat>, e: Entry, id: nat, after: Option<nat>) {
    if e.Applied? && e.call.article == id then
      before == Some(e.call.request.version) && after == Some(e.call.request.version + 1)
    else after == before || (before.None? && after == Some(1))
  }

  /** The bases from the version an article had, or was created with, up to the one it has now. */
  predicate IsChain(first: Option<nat>, bases: seq<nat>, now: Option<nat>) {
    if now.None? then first.None? && bases == []
    else
      var from := if first.Some? then first.value else 1;
      from <= now.value && bases == Chain(from, now.value - from)
  }

  lemma CommitMoves(db: Database, id: nat, base: nat, write: Write, k: nat)
    requires Commit(db, id, base, write).Ok?
    ensures id in db.articles && db.articles[id].version == base
    ensures VersionOf(Commit(db, id, base, write).value, k) == if k == id then Some(base + 1) else VersionOf(db, k)
  {}

  lemma PreparedVersion(render: Renderer, request: Request, current: Row, ulid: string, now: int)
    requires Prepare(render, request, current, ulid, now).Ok?
    ensures current.version == request.version
  {}

  lemma AppliedMoves(render: Renderer, db: Database, call: Call, id: nat)
    requires Atomic(render, db, Applied(call)).Ok?
    ensures Moves(VersionOf(db, id), Applied(call), id, VersionOf(Atomic(render, db, Applied(call)).value, id))
  {
    var row := db.articles[call.article];
    PreparedVersion(render, call.request, row, call.ulid, call.now);
    var write := Prepare(render, call.request, row, call.ulid, call.now).value;
    CommitMoves(db, call.article, row.version, write, id);
  }

  lemma AtomicMoves(render: Renderer, db: Database, e: Entry, id: nat)
    requires Atomic(render, db, e).Ok?
    ensures Moves(VersionOf(db, id), e, id, VersionOf(Atomic(render, db, e).value, id))
  {
    if e.Applied? { AppliedMoves(render, db, e.call, id); }
  }

  lemma ChainMoves(first: Option<nat>, front: seq<Entry>, e: Entry, id: nat, before: Option<nat>, after: Option<nat>)
    requires IsChain(first, Bases(front, id), before) && Moves(before, e, id, after)
    ensures IsChain(first, Bases(front + [e], id), after)
  {
    assert (front + [e])[..|front|] == front;
    if e.Applied? && e.call.article == id {
      var from := if first.Some? then first.value else 1;
      ChainGrows(from, before.value - from);
    }
  }

  /** The commits to an article form one chain v, v+1, ... up to its current version, from the version
      it had at the start or from 1 when it was created on the way: no version is skipped, and no two
      commits were based on the same one. */
  lemma {:induction false} CommitsFormAChain(render: Renderer, db: Database, log: seq<Entry>, id: nat)
    requires Replay(render, db, log).Ok?
    ensures IsChain(VersionOf(db, id), Bases(log, id), VersionOf(Replay(render, db, log).value, id))
    decreases |log|
  {
    if log == [] {
      assert Chain(0, 0) == [];
    } else {
      var front, e := log[..|log| - 1], log[|log| - 1];
      var before := Replay(render, db, front).value;
      CommitsFormAChain(render, db, front, id);
      AtomicMoves(render, before, e, id);
      ChainMoves(VersionOf(db, id), front, e, id, VersionOf(before, id),
                 VersionOf(Atomic(render, before, e).value, id));
      assert log == front + [e];
    }
  }

  // ---------------------------------------------------------------- what every committed state keeps

  /** One article: an address and a first publication time together or not at all, a published one has
      both and a body with text, the derived columns and the media rows are those of its body. */
  ghost predicate ArticleOk(render: Renderer, row: Row, media: map<string, string>, assets: set<string>) {
    var c := row.content;
    && row.version >= 1 && ValidTitle(c.title) && (c.address.Some? <==> c.firstPublished.Some?)
    && (c.status.Published? ==> c.address.Some? && !Blank(c.body))
    && Derive(render, c.body, false).Ok?
    && c.columns == Derive(render, c.body, false).value.columns
    && media == AltTexts(Derive(render, c.body, false).value.references) && media.Keys <= assets
  }

  ghost predicate Sound(render: Renderer, db: Database) {
    && (forall id | id in db.articles :: ArticleOk(render, db.articles[id], MediaOf(db, id), db.assets))
    && (forall a, b | a in db.articles && b in db.articles && a != b && db.articles[a].content.address.Some? ::
          db.articles[a].content.address != db.articles[b].content.address)
    && (forall p | p in db.projects && db.projects[p].image.Some? :: db.projects[p].image.value in db.assets)
  }

  /** A write that turns a sound row into a sound row, provided the assets it needs are stored. */
  ghost predicate WriteOk(render: Renderer, current: Row, media: map<string, string>, assets: set<string>, write: Write)
  {
    match write
    case ToDraft => ArticleOk(render, Row(current.content.(status := Draft), current.version + 1), media, assets)
    case Update(content, references) =>
      DistinctAssets(references) &&
      (AltTexts(references).Keys <= assets ==>
         ArticleOk(render, Row(content, current.version + 1), AltTexts(references), assets))
  }

  lemma PreparedOk(render: Renderer, request: Request, current: Row, media: map<string, string>, assets: set<string>,
                   ulid: string, now: int)
    requires ArticleOk(render, current, media, assets)
    requires Prepare(render, request, current, ulid, now).Ok?
    ensures WriteOk(render, current, media, assets, Prepare(render, request, current, ulid, now).value)
  {
    if !request.Withdraw? { DerivedDistinct(render, request.body, request.Publish?); }
  }

  /** The renderer's references never break the primary key of article_media. */
  lemma DerivedDistinct(render: Renderer, body: Option<string>, requireNonEmpty: bool)
    ensures var derived := Derive(render, body, requireNonEmpty);
            derived.Ok? ==> DistinctAssets(derived.value.references) && derived == Derive(render, body, false)
  {
    if body.Some? && render(body.value).Some? { FirstAppearancesOrder(render(body.value).value.images); }
  }

  lemma StoredKeys(refs: seq<Reference>, db: Database)
    requires AllStored(db, refs)
    ensures AltTexts(refs).Keys <= db.assets
  {}

  /** One row and its media replaced by sound ones. */
  lemma ReplacedSound(render: Renderer, db: Database, next: Database, id: nat, row: Row)
    requires Sound(render, db) && next.articles == db.articles[id := row]
    requires next.assets == db.assets && next.projects == db.projects
    requires ArticleOk(render, row, MediaOf(next, id), db.assets) && AddressFree(db, id, row.content.address)
    requires forall k | k != id :: MediaOf(next, k) == MediaOf(db, k)
    ensures Sound(render, next)
  {
    forall k | k in next.articles ensures ArticleOk(render, next.articles[k], MediaOf(next, k), next.assets) {
      if k != id { assert ArticleOk(render, db.articles[k], MediaOf(db, k), db.assets); }
    }
    forall a, b | a in next.articles && b in next.articles && a != b && next.articles[a].content.address.Some?
      ensures next.articles[a].content.address != next.articles[b].content.address
    {
      if a == id { assert b in db.articles; } else { assert a in db.articles; }
    }
  }

  lemma CommitSound(render: Renderer, db: Database, id: nat, base: nat, write: Write)
    requires Sound(render, db) && Commit(db, id, base, write).Ok?
    requires WriteOk(render, db.articles[id], MediaOf(db, id), db.assets, write)
    ensures Sound(render, Commit(db, id, base, write).value)
  {
    var next := Commit(db, id, base, write).value;
    if write.Update? { StoredKeys(write.references, db); }
    forall k | k != id ensures MediaOf(next, k) == MediaOf(db, k) {}
    ReplacedSound(render, db, next, id, next.articles[id]);
  }

  lemma AppliedSound(render: Renderer, db: Database, call: Call)
    requires Sound(render, db) && Atomic(render, db, Applied(call)).Ok?
    ensures Sound(render, Atomic(render, db, Applied(call)).value)
  {
    var id := call.article;
    var row := db.articles[id];
    assert ArticleOk(render, row, MediaOf(db, id), db.assets);
    PreparedOk(render, call.request, row, MediaOf(db, id), db.assets, call.ulid, call.now);
    CommitSound(render, db, id, row.version, Prepare(render, call.request, row, call.ulid, call.now).value);
  }

  lemma CreatedSound(render: Renderer, db: Database, id: nat, title: string, body: Option<string>)
    requires Sound(render, db) && Create(render, db, id, title, body).Ok?
    ensures Sound(render, Create(render, db, id, title, body).value)
  {
    var next := Create(render, db, id, title, body).value;
    StoredKeys(Derive(render, body, false).value.references, db);
    forall k | k != id ensures MediaOf(next, k) == MediaOf(db, k) {}
    ReplacedSound(render, db, next, id, next.articles[id]);
  }

  lemma AtomicSound(render: Renderer, db: Database, e: Entry)
    requires Sound(render, db) && Atomic(render, db, e).Ok?
    ensures Sound(render, Atomic(render, db, e).value)
  {
    match e
    case Created(id, title, body) => CreatedSound(render, db, id, title, body);
    case Applied(call) => AppliedSound(render, db, call);
    case Uploaded(asset) =>
      var next := Atomic(render, db, e).value;
      forall k | k in next.articles ensures ArticleOk(render, next.articles[k], MediaOf(next, k), next.assets) {
        assert ArticleOk(render, db.articles[k], MediaOf(db, k), db.assets) && MediaOf(next, k) == MediaOf(db, k);
      }
    case Shown(project, value) =>
      var next := Atomic(render, db, e).value;
      forall k | k in next.articles ensures ArticleOk(render, next.articles[k], MediaOf(next, k), next.assets) {
        assert ArticleOk(render, db.articles[k], MediaOf(db, k), db.assets) && MediaOf(next, k) == MediaOf(db, k);
      }
  }

  /** In every state any interleaving reaches, all articles are sound. */
  lemma {:induction false} RunSound(render: Renderer, s: State, actions: seq<Action>)
    requires Tracked(s) && Sound(render, s.db)
    ensures Sound(render, Run(render, s, actions).db)
    decreases |actions|
  {
    if actions != [] {
      var t := Step(render, s, actions[0]);
      StepIsAtomic(render, s, actions[0]);
      StepTracked(render, s, actions[0]);
      if t.db != s.db {
        var e :| t.log == s.log + [e] && Atomic(render, s.db, e) == Ok(t.db);
        AtomicSound(render, s.db, e);
      }
      RunSound(render, t, actions[1..]);
    }
  }

  // ---------------------------------------------------------------- addresses are permanent

  ghost predicate KeepsAddress(db: Database, next: Database, id: nat) {
    id in db.articles && db.articles[id].content.address.Some? ==>
      && id in next.articles && next.articles[id].content.address == db.articles[id].content.address
      && next.articles[id].content.firstPublished == db.articles[id].content.firstPublished
  }

  lemma PreparedKeepsAddress(render: Renderer, request: Request, current: Row, ulid: string, now: int)
    requires current.content.address.Some? && current.content.firstPublished.Some?
    requires Prepare(render, request, current, ulid, now).Ok?
    ensures var write := Prepare(render, request, current, ulid, now).value;
            write.Update? ==> write.content.address == current.content.address &&
                              write.content.firstPublished == current.content.firstPublished
  {}

  lemma CommitKeepsAddress(db: Database, id: nat, base: nat, write: Write, k: nat)
    requires Commit(db, id, base, write).Ok?
    requires id == k && write.Update? ==> write.content.address == db.articles[k].content.address &&
                                          write.content.firstPublished == db.articles[k].content.firstPublished
    ensures KeepsAddress(db, Commit(db, id, base, write).value, k)
  {}

  lemma AppliedKeepsAddress(render: Renderer, db: Database, call: Call, id: nat)
    requires Sound(render, db) && Atomic(render, db, Applied(call)).Ok?
    requires id in db.articles && db.articles[id].content.address.Some?
    ensures KeepsAddress(db, Atomic(render, db, Applied(call)).value, id)
  {
    var row := db.articles[call.article];
    var write := Prepare(render, call.request, row, call.ulid, call.now).value;
    assert ArticleOk(render, row, MediaOf(db, call.article), db.assets);
    if call.article == id { PreparedKeepsAddress(render, call.request, row, call.ulid, call.now); }
    CommitKeepsAddress(db, call.article, row.version, write, id);
  }

  lemma CreatedKeepsAddress(render: Renderer, db: Database, e: Entry, id: nat)
    requires e.Created? && Atomic(render, db, e).Ok?
    ensures KeepsAddress(db, Atomic(render, db, e).value, id)
  {}

  lemma AtomicKeepsAddress(render: Renderer, db: Database, e: Entry, id: nat)
    requires Sound(render, db) && Atomic(render, db, e).Ok?
    ensures KeepsAddress(db, Atomic(render, db, e).value, id)
  {
    if id in db.articles && db.articles[id].content.address.Some? {
      match e
      case Applied(call) => AppliedKeepsAddress(render, db, call, id);
      case Created(_, _, _) => CreatedKeepsAddress(render, db, e, id);
      case _ => assert Atomic(render, db, e).value.articles == db.articles;
    }
  }

  /** Once an article has an address and a first publication time, no edit, withdrawal or later
      publication, however interleaved, changes either. */
  lemma {:induction false} AddressIsPermanent(render: Renderer, s: State, actions: seq<Action>, id: nat)
    requires Tracked(s) && Sound(render, s.db)
    ensures KeepsAddress(s.db, Run(render, s, actions).db, id)
    decreases |actions|
  {
    if actions != [] {
      var t := Step(render, s, actions[0]);
      StepIsAtomic(render, s, actions[0]);
      StepTracked(render, s, actions[0]);
      RunSound(render, s, [actions[0]]);
      assert [actions[0]][1..] == [] && Run(render, s, [actions[0]]) == t;
      if t.db != s.db {
        var e :| t.log == s.log + [e] && Atomic(render, s.db, e) == Ok(t.db);
        AtomicKeepsAddress(render, s.db, e, id);
      }
      AddressIsPermanent(render, t, actions[1..], id);
    }
  }

  // ---------------------------------------------------------------- a withdrawal is not undone

  ghost predicate PublishedSince(log: seq<Entry>, from: nat, id: nat, version: nat) {
    exists i | from <= i < |log| ::
      log[i].Applied? && log[i].call.article == id && log[i].call.request.Publish? &&
        log[i].call.request.version >= version
  }

  lemma AtomicPublication(render: Renderer, db: Database, e: Entry, id: nat)
    requires Atomic(render, db, e).Ok? && id in db.articles && db.articles[id].content.status.Draft?
    ensures var next := Atomic(render, db, e).value;
            id in next.articles && (next.articles[id].content.status.Draft? ||
              (e.Applied? && e.call.article == id && e.call.request.Publish? &&
               e.call.request.version == db.articles[id].version))
  {}

  /** One step of the server: a draft stays a draft, or a publication that read this version commits. */
  lemma DraftStep(render: Renderer, s: State, a: Action, id: nat)
    requires Tracked(s) && id in s.db.articles && s.db.articles[id].content.status.Draft?
    ensures var t := Step(render, s, a);
            && id in t.db.articles && s.db.articles[id].version <= t.db.articles[id].version && |s.log| <= |t.log|
            && (t.db.articles[id].content.status.Published? ==>
                PublishedSince(t.log, |s.log|, id, s.db.articles[id].version))
  {
    var t := Step(render, s, a);
    StepIsAtomic(render, s, a);
    StepTracked(render, s, a);
    if t.log != s.log {
      var e :| t.log == s.log + [e] && Atomic(render, s.db, e) == Ok(t.db);
      AtomicPublication(render, s.db, e, id);
      assert t.log[|s.log|] == e;
    }
  }

  lemma PublishedSincePrefix(log: seq<Entry>, longer: seq<Entry>, from: nat, id: nat, version: nat)
    requires |log| <= |longer| && longer[..|log|] == log && PublishedSince(log, from, id, version)
    ensures PublishedSince(longer, from, id, version)
  {
    var i :| from <= i < |log| && log[i].Applied? && log[i].call.article == id && log[i].call.request.Publish? &&
             log[i].call.request.version >= version;
    assert longer[i] == longer[..|log|][i];
  }

  /** Once an article is a draft at some version, only a publication that read it at that version or a
      later one makes it public: saves and publications that read it before its withdrawal cannot. */
  lemma {:induction false} DraftUntilPublished(render: Renderer, s: State, actions: seq<Action>, id: nat)
    requires Tracked(s) && id in s.db.articles && s.db.articles[id].content.status.Draft?
    ensures var t := Run(render, s, actions);
            id in t.db.articles &&
            (t.db.articles[id].content.status.Published? ==>
             PublishedSince(t.log, |s.log|, id, s.db.articles[id].version))
    decreases |actions|
  {
    if actions != [] {
      var t, u := Step(render, s, actions[0]), Run(render, s, actions);
      DraftStep(render, s, actions[0], id);
      StepTracked(render, s, actions[0]);
      LogGrows(render, t, actions[1..]);
      if t.db.articles[id].content.status.Draft? {
        DraftUntilPublished(render, t, actions[1..], id);
      } else {
        PublishedSincePrefix(t.log, u.log, |s.log|, id, s.db.articles[id].version);
      }
    }
  }

  lemma {:induction false} LogGrows(render: Renderer, s: State, actions: seq<Action>)
    requires Tracked(s)
    ensures var t := Run(render, s, actions);
            |s.log| <= |t.log| && t.log[..|s.log|] == s.log && Follows(s.db, t.db)
    decreases |actions|
  {
    if actions != [] {
      var t := Step(render, s, actions[0]);
      StepIsAtomic(render, s, actions[0]);
      StepTracked(render, s, actions[0]);
      LogGrows(render, t, actions[1..]);
      var u := Run(render, t, actions[1..]);
      assert s.log == t.log[..|s.log|];
      assert u.log[..|t.log|][..|s.log|] == u.log[..|s.log|];
    }
  }

  // ---------------------------------------------------------------- who may see a media file

  /** The two queries behind an anonymous request for an asset. */
  predicate ReferencedByArticle(db: Database, asset: string) {
    exists id | id in db.articles :: db.articles[id].content.status.Published? && asset in MediaOf(db, id)
  }

  predicate ReferencedByProject(db: Database, asset: string) {
    exists p | p in db.projects :: db.projects[p].visible && db.projects[p].image == Some(asset)
  }

  predicate Referenced(db: Database, asset: string) {
    ReferencedByArticle(db, asset) || ReferencedByProject(db, asset)
  }

  predicate BodyShows(render: Renderer, body: Option<string>, asset: string) {
    body.Some? && render(body.value).Some? && Mentions(render(body.value).value.images, asset)
  }

  lemma MediaIsBody(render: Renderer, row: Row, media: map<string, string>, assets: set<string>, asset: string)
    requires ArticleOk(render, row, media, assets) && row.content.status.Published?
    ensures asset in media <==> BodyShows(render, row.content.body, asset)
  {
    var body := row.content.body.value;
    assert Trim("") == "";
    var images := render(body).value.images;
    FirstAppearancesMembers(images);
    assert asset in media <==> Mentions(FirstAppearances(images), asset);
  }

  /** An anonymous visitor gets exactly the assets that some published body shows or some public
      project carries, and every such asset is stored. */
  lemma VisibleIffShown(render: Renderer, db: Database, asset: string)
    requires Sound(render, db)
    ensures ReferencedByArticle(db, asset) <==>
            exists id | id in db.articles ::
              db.articles[id].content.status.Published? && BodyShows(render, db.articles[id].content.body, asset)
    ensures Referenced(db, asset) ==> asset in db.assets
  {
    forall id | id in db.articles && db.articles[id].content.status.Published?
      ensures asset in MediaOf(db, id) <==> BodyShows(render, db.articles[id].content.body, asset)
      ensures asset in MediaOf(db, id) ==> asset in db.assets
    {
      assert ArticleOk(render, db.articles[id], MediaOf(db, id), db.assets);
      MediaIsBody(render, db.articles[id], MediaOf(db, id), db.assets, asset);
    }
  }

  /** The alternative text stored with a published body's image is the one the body gives it. */
  lemma StoredTextIsShown(render: Renderer, db: Database, id: nat, r: Reference)
    requires Sound(render, db) && id in db.articles && db.articles[id].content.status.Published?
    requires r in render(db.articles[id].content.body.value).value.images
    ensures r.asset in MediaOf(db, id) && MediaOf(db, id)[r.asset] == r.alt
  {
    var row := db.articles[id];
    assert ArticleOk(render, row, MediaOf(db, id), db.assets);
    var body := row.content.body.value;
    assert Trim("") == "";
    RowsAreTheImages(render(body).value.images);
  }
}
