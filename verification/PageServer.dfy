/** RedisStore and Middleware of internal/cache as they run, while other requests, administrators and
    Redis itself take steps between any two of their commands. */
module PageServer {
  import opened Common
  import opened PageTags
  import opened PageCache

  /** What a request finds after others have taken their steps. */
  datatype World = World(redis: Redis, now: int)

  class RedisStore {
    const cfg: Config
    var version: Option<Version>
    var pages: map<(Version, Target), Entry>
    var now: int

    constructor (cfg: Config, now: int)
      ensures this.cfg == cfg && this.now == now && Contents() == Redis(None, map[])
    {
      this.cfg, this.now, version, pages := cfg, now, None, map[];
    }

    function Contents(): Redis
      reads this
    {
      Redis(version, pages)
    }

    /** Others leave the store as `world`. */
    method Others(world: World)
      modifies this
      ensures Contents() == world.redis && now == world.now
    {
      version, pages, now := world.redis.version, world.redis.pages, world.now;
    }

    /** GET, and SET to "1" when the key was missing, whatever others did in between. */
    method CurrentVersion(getFails: bool, setFails: bool, afterGet: World) returns (value: Option<Version>)
      modifies this
      ensures value == if getFails then None else if old(version).Some? then old(version)
                       else if setFails then None else Some(1)
      ensures now == afterGet.now
      ensures Contents() == if !getFails && !setFails && old(version).None? then afterGet.redis.(version := Some(1))
                            else afterGet.redis
    {
      var found := version;
      Others(afterGet);
      if getFails { return None; }
      if found.None? {
        if setFails { return None; }
        version := Some(1);
        return Some(1);
      }
      value := found;
    }

    /** A page is stored under this version and target, its time to live has not passed, and it has a
        body, a tag and a content type that is stored. */
    predicate Hit(v: Version, target: Target, fails: bool)
      reads this
    {
      && !fails && (v, target) in pages
      && var e := pages[(v, target)];
         && now < e.storedAt + cfg.ttl
         && |e.page.body| > 0 && e.page.etag != "" && cfg.storable(e.page.contentType)
    }

    method Get(v: Version, target: Target, fails: bool) returns (found: Option<Entry>)
      ensures found == if fails then None else Fetch(cfg, Contents(), now, v, target)
      ensures found.Some? <==> Hit(v, target, fails)
      ensures found.Some? ==> found.value == pages[(v, target)]
    {
      if fails || (v, target) !in pages { return None; }
      var e := pages[(v, target)];
      if !Live(cfg, e, now) || !ValidPage(cfg, e.page) { return None; }
      found := Some(e);
    }

    method Set(v: Version, target: Target, page: Page, asOf: nat, fails: bool)
      modifies this`pages
      ensures Contents() == if fails then old(Contents())
                            else Put(cfg, old(Contents()), v, target, Entry(page, asOf, now))
      ensures pages == if !fails && |page.body| > 0 && page.etag != "" && cfg.storable(page.contentType)
                       then old(pages)[(v, target) := Entry(page, asOf, now)] else old(pages)
    {
      if !ValidPage(cfg, page) || fails { return; }
      pages := pages[(v, target) := Entry(page, asOf, now)];
    }

    method Invalidate(fails: bool)
      modifies this`version
      ensures Contents() == if fails then old(Contents()) else Increment(old(Contents()))
      ensures pages == old(pages)
      ensures version == if fails then old(version)
                         else if old(version).Some? then Some(old(version).value + 1)
                         else Some(1)
    {
      if fails { return; }
      version := Some(if version.Some? then version.value + 1 else 1);
    }
  }

  /** The version a request works with, from what its GET found. */
  function VersionGiven(found: Option<Version>, getFails: bool, setFails: bool): Option<Version> {
    if getFails then None else if found.Some? then found else if setFails then None else Some(1)
  }

  // ---------------------------------------------------------------- steps of others

  predicate By(a: Action, c: nat) { !ServerStep(a) && a.c == c }

  /** Steps of anyone but request `c`. */
  ghost predicate OthersOnly(actions: seq<Action>, c: nat) { forall a | a in actions :: !By(a, c) }

  ghost predicate SameCall(s: State, t: State, c: nat) {
    (c in t.calls <==> c in s.calls) && (c in s.calls ==> t.calls[c] == s.calls[c])
  }

  /** Nothing was answered to request `c`. */
  ghost predicate Quiet(s: State, t: State, c: nat) {
    |s.log| <= |t.log| && t.log[..|s.log|] == s.log && forall i | |s.log| <= i < |t.log| :: t.log[i].c != c
  }

  lemma QuietJoin(s: State, t: State, u: State, c: nat)
    requires Quiet(s, t, c) && Quiet(t, u, c)
    ensures Quiet(s, u, c)
  {
    assert u.log[..|s.log|] == u.log[..|t.log|][..|s.log|];
    forall i | |s.log| <= i < |u.log| ensures u.log[i].c != c {
      if i < |t.log| { assert u.log[i] == u.log[..|t.log|][i]; }
    }
  }

  lemma StepOfOther(cfg: Config, s: State, a: Action, c: nat)
    requires !By(a, c)
    ensures SameCall(s, Step(cfg, s, a), c) && Quiet(s, Step(cfg, s, a), c)
  {}

  /** Others neither move request `c` on nor answer it. */
  lemma {:induction false} OthersKeep(cfg: Config, s: State, actions: seq<Action>, c: nat)
    requires OthersOnly(actions, c)
    ensures SameCall(s, Run(cfg, s, actions), c) && Quiet(s, Run(cfg, s, actions), c)
    decreases |actions|
  {
    if actions != [] {
      var t := Step(cfg, s, actions[0]);
      StepOfOther(cfg, s, actions[0], c);
      OthersKeep(cfg, t, actions[1..], c);
      QuietJoin(s, t, Run(cfg, s, actions), c);
    }
  }

  // ---------------------------------------------------------------- one request

  /** Which Redis commands of one request fail. */
  datatype Faults = Faults(readVersion: bool, initVersion: bool, get: bool, store: bool)

  /** What others do behind each step of the request but its last. */
  datatype Between = Between(begin: seq<Action>, read: seq<Action>, init: seq<Action>, lookup: seq<Action>,
                             render: seq<Action>)

  datatype Request = Request(c: nat, target: Target, header: string, outcome: Outcome, faults: Faults)

  /** What the client is sent. */
  datatype Response = Response(version: Option<Version>, page: Page, source: Source, status: nat, notModified: bool)

  ghost predicate AllOthers(b: Between, c: nat) {
    && OthersOnly(b.begin, c) && OthersOnly(b.read, c) && OthersOnly(b.init, c) && OthersOnly(b.lookup, c)
    && OthersOnly(b.render, c)
  }

  /** One step of the request, then those of others. */
  ghost function Take(cfg: Config, s: State, a: Action, others: seq<Action>): State {
    Run(cfg, Step(cfg, s, a), others)
  }

  /** Where the request's own steps, in the source's order, and those of others lead. */
  ghost function Began(cfg: Config, s: State, r: Request, b: Between): State {
    Take(cfg, s, Begin(r.c, r.target, r.header), b.begin)
  }

  ghost function GotVersion(cfg: Config, s: State, r: Request, b: Between): State {
    Take(cfg, Began(cfg, s, r, b), ReadVersion(r.c, r.faults.readVersion), b.read)
  }

  ghost function KnowsVersion(cfg: Config, s: State, r: Request, b: Between): State {
    Take(cfg, GotVersion(cfg, s, r, b), InitVersion(r.c, r.faults.initVersion), b.init)
  }

  ghost function Looked(cfg: Config, s: State, r: Request, b: Between): State {
    Take(cfg, KnowsVersion(cfg, s, r, b), Lookup(r.c, r.faults.get), b.lookup)
  }

  ghost function Responded(cfg: Config, s: State, r: Request, b: Between): State {
    Take(cfg, Looked(cfg, s, r, b), Render(r.c, r.outcome), b.render)
  }

  /** Where a request may have ended: with a replayed page, with an answer that is not stored, or with
      its store. */
  ghost predicate Ends(cfg: Config, s: State, r: Request, b: Between, end: State) {
    || end == Step(cfg, KnowsVersion(cfg, s, r, b), Lookup(r.c, r.faults.get))
    || end == Step(cfg, Looked(cfg, s, r, b), Render(r.c, r.outcome))
    || end == Step(cfg, Responded(cfg, s, r, b), Store(r.c, r.faults.store))
  }

  function UpToLookup(r: Request, b: Between): seq<Action> {
    [Begin(r.c, r.target, r.header)] + b.begin + ([ReadVersion(r.c, r.faults.readVersion)] + b.read)
    + ([InitVersion(r.c, r.faults.initVersion)] + b.init)
  }

  /** Every end is reached by a run of the protocol: the request's steps in order and those of others. */
  lemma EndIsReached(cfg: Config, s: State, r: Request, b: Between, end: State)
    requires Ends(cfg, s, r, b, end)
    ensures var looked := UpToLookup(r, b) + ([Lookup(r.c, r.faults.get)] + b.lookup);
            var responded := looked + ([Render(r.c, r.outcome)] + b.render);
            || end == Run(cfg, s, UpToLookup(r, b) + ([Lookup(r.c, r.faults.get)] + []))
            || end == Run(cfg, s, looked + ([Render(r.c, r.outcome)] + []))
            || end == Run(cfg, s, responded + ([Store(r.c, r.faults.store)] + []))
  {
    var first := [Begin(r.c, r.target, r.header)] + b.begin;
    TakeRuns(cfg, s, [], Begin(r.c, r.target, r.header), b.begin);
    assert [] + first == first;
    TakeRuns(cfg, s, first, ReadVersion(r.c, r.faults.readVersion), b.read);
    TakeRuns(cfg, s, first + ([ReadVersion(r.c, r.faults.readVersion)] + b.read),
             InitVersion(r.c, r.faults.initVersion), b.init);
    var ready := UpToLookup(r, b);
    TakeRuns(cfg, s, ready, Lookup(r.c, r.faults.get), []);
    TakeRuns(cfg, s, ready, Lookup(r.c, r.faults.get), b.lookup);
    var looked := ready + ([Lookup(r.c, r.faults.get)] + b.lookup);
    TakeRuns(cfg, s, looked, Render(r.c, r.outcome), []);
    TakeRuns(cfg, s, looked, Render(r.c, r.outcome), b.render);
    TakeRuns(cfg, s, looked + ([Render(r.c, r.outcome)] + b.render), Store(r.c, r.faults.store), []);
  }

  lemma TakeRuns(cfg: Config, s: State, before: seq<Action>, a: Action, others: seq<Action>)
    ensures Run(cfg, s, before + ([a] + others)) == Take(cfg, Run(cfg, s, before), a, others)
  {
    RunAppend(cfg, s, before, [a] + others);
    RunAppend(cfg, Run(cfg, s, before), [a], others);
    assert [a][1..] == [] && Run(cfg, Run(cfg, s, before), [a]) == Step(cfg, Run(cfg, s, before), a);
  }

  ghost predicate Shows(world: World, s: State) { world.redis == s.redis && world.now == s.now }

  ghost predicate Stands(store: RedisStore, s: State)
    reads store
  {
    store.Contents() == s.redis && store.now == s.now
  }

  /** The one entry the log gained for request `c` is `response`. */
  ghost predicate Answered(s: State, t: State, c: nat, target: Target, header: string, response: Response) {
    && |s.log| <= |t.log| && t.log[..|s.log|] == s.log
    && exists i | |s.log| <= i < |t.log| ::
         Sent(t.log[i], c, target, header, response) && forall j | |s.log| <= j < |t.log| && j != i :: t.log[j].c != c
  }

  predicate Sent(r: Served, c: nat, target: Target, header: string, response: Response) {
    && r.c == c && r.target == target && r.header == header && r.version == response.version
    && r.page == response.page && r.source == response.source && r.status == response.status
    && r.notModified == response.notModified
  }

  lemma AnsweredNow(s: State, m: State, t: State, c: nat, target: Target, header: string, response: Response)
    requires Quiet(s, m, c) && |t.log| == |m.log| + 1 && t.log[..|m.log|] == m.log
    requires Sent(t.log[|m.log|], c, target, header, response)
    ensures Answered(s, t, c, target, header, response)
  {
    assert t.log[..|s.log|] == t.log[..|m.log|][..|s.log|];
    forall j | |s.log| <= j < |m.log| ensures t.log[j].c != c { assert t.log[j] == t.log[..|m.log|][j]; }
  }

  lemma AnsweredBefore(s: State, m: State, t: State, c: nat, target: Target, header: string, response: Response)
    requires Answered(s, m, c, target, header, response) && Quiet(m, t, c)
    ensures Answered(s, t, c, target, header, response)
  {
    assert t.log[..|s.log|] == t.log[..|m.log|][..|s.log|];
    var i :| |s.log| <= i < |m.log| && Sent(m.log[i], c, target, header, response) &&
             forall j | |s.log| <= j < |m.log| && j != i :: m.log[j].c != c;
    assert t.log[i] == t.log[..|m.log|][i];
    forall j | |s.log| <= j < |t.log| && j != i ensures t.log[j].c != c {
      if j < |m.log| { assert t.log[j] == t.log[..|m.log|][j]; }
    }
  }

  /** The request waits to look up a page of `version`, or to render. */
  ghost predicate Knows(s: State, c: nat, target: Target, header: string, version: Option<Version>) {
    && c in s.calls && s.calls[c].target == target && s.calls[c].header == header
    && match s.calls[c].stage
       case Looking(v, _) => version == Some(v)
       case Rendering(v, _) => v.None? && version.None?
       case _ => false
  }

  lemma VersionRead(cfg: Config, s: State, c: nat, target: Target, header: string, getFails: bool, setFails: bool,
                    others: seq<Action>)
    requires c in s.calls && s.calls[c].target == target && s.calls[c].header == header && s.calls[c].stage == Started
    requires OthersOnly(others, c)
    ensures var m := Take(cfg, s, ReadVersion(c, getFails), others);
            var t := Step(cfg, m, InitVersion(c, setFails));
            && Knows(t, c, target, header, VersionGiven(s.redis.version, getFails, setFails))
            && t.redis == (if !getFails && !setFails && s.redis.version.None? then m.redis.(version := Some(1))
                           else m.redis)
            && t.now == m.now && Quiet(s, t, c)
  {
    OthersKeep(cfg, Step(cfg, s, ReadVersion(c, getFails)), others, c);
  }

  /** The request waits to render, with the version it will tag and store under. */
  ghost predicate WillRender(s: State, c: nat, target: Target, header: string, version: Option<Version>) {
    && c in s.calls && s.calls[c].target == target && s.calls[c].header == header
    && s.calls[c].stage.Rendering? && s.calls[c].stage.version == version
  }

  /** Looking for a stored page: a replayed response, or the request goes on to render. */
  method TryReplay(store: RedisStore, c: nat, target: Target, header: string, version: Option<Version>, fails: bool,
                   ghost s: State)
    returns (response: Option<Response>)
    requires Stands(store, s) && Knows(s, c, target, header, version)
    ensures var t := Step(store.cfg, s, Lookup(c, fails));
            && t.redis == s.redis && t.now == s.now && t.commits == s.commits
            && (if response.Some? then
                  && |t.log| == |s.log| + 1 && t.log[..|s.log|] == s.log && At(t, c, Done)
                  && Sent(t.log[|s.log|], c, target, header, response.value)
                else t.log == s.log && WillRender(t, c, target, header, version))
    ensures response.Some? <==> version.Some? && store.Hit(version.value, target, fails) &&
                                store.cfg.accepts(target, store.pages[(version.value, target)].page.contentType)
    ensures response.Some? ==> response.value.source == Cached && response.value.status == 200 &&
                               response.value.page == store.pages[(version.value, target)].page &&
                               (response.value.notModified <==> MatchesETag(header, response.value.page.etag))
  {
    if version.None? { return None; }
    var found := store.Get(version.value, target, fails);
    if found.None? || !store.cfg.accepts(target, found.value.page.contentType) { return None; }
    var page := found.value.page;
    response := Some(Response(version, page, Cached, 200, MatchesETag(header, page.etag)));
  }

  /** The answer to a rendered request. */
  function RenderedResponse(cfg: Config, target: Target, header: string, version: Option<Version>,
                            outcome: Outcome): Response
  {
    var page := MakePage(cfg, version, outcome);
    if Cacheable(cfg, target, outcome)
    then Response(version, page, Rendered, outcome.status, MatchesETag(header, page.etag))
    else Response(version, page, Passed, outcome.status, false)
  }

  lemma RenderAnswers(cfg: Config, s: State, c: nat, target: Target, header: string, version: Option<Version>,
                      outcome: Outcome)
    requires WillRender(s, c, target, header, version)
    ensures var t := Step(cfg, s, Render(c, outcome));
            && t.redis == s.redis && t.now == s.now && |t.log| == |s.log| + 1 && t.log[..|s.log|] == s.log
            && Sent(t.log[|s.log|], c, target, header, RenderedResponse(cfg, target, header, version, outcome))
            && c in t.calls && t.calls[c].target == target
            && (if Cacheable(cfg, target, outcome) && version.Some? then
                  && t.calls[c].stage.Storing? && t.calls[c].stage.v == version.value
                  && t.calls[c].stage.page == MakePage(cfg, version, outcome) && t.calls[c].stage.asOf == |s.commits|
                else t.calls[c].stage == Done)
  {}

  /** The first three steps, others in between: the request knows its version and is not answered. */
  method ReadSteps(store: RedisStore, r: Request, worlds: seq<World>, ghost s: State, ghost b: Between)
    returns (version: Option<Version>)
    requires Stands(store, s) && r.c !in s.calls && AllOthers(b, r.c) && |worlds| >= 3
    requires Shows(worlds[0], Began(store.cfg, s, r, b)) && Shows(worlds[1], GotVersion(store.cfg, s, r, b))
    requires Shows(worlds[2], KnowsVersion(store.cfg, s, r, b))
    modifies store
    ensures var t := KnowsVersion(store.cfg, s, r, b);
            Stands(store, t) && Knows(t, r.c, r.target, r.header, version) && Quiet(s, t, r.c)
  {
    ghost var cfg := store.cfg;
    ghost var s1, s2 := Began(cfg, s, r, b), GotVersion(cfg, s, r, b);
    ghost var s3 := Step(cfg, s2, InitVersion(r.c, r.faults.initVersion));
    OthersKeep(cfg, Step(cfg, s, Begin(r.c, r.target, r.header)), b.begin, r.c);
    store.Others(worlds[0]);
    VersionRead(cfg, s1, r.c, r.target, r.header, r.faults.readVersion, r.faults.initVersion, b.read);
    version := store.CurrentVersion(r.faults.readVersion, r.faults.initVersion, worlds[1]);
    OthersKeep(cfg, s3, b.init, r.c);
    QuietJoin(s, s1, s3, r.c);
    QuietJoin(s, s3, KnowsVersion(cfg, s, r, b), r.c);
    store.Others(worlds[2]);
  }

  /** The store behind an answer, others in between. `t` is where the answer was given. */
  method StorePage(store: RedisStore, r: Request, version: Version, page: Page, committed: nat, afterRender: World,
                   ghost s: State, ghost t: State, ghost others: seq<Action>, ghost response: Response)
    requires OthersOnly(others, r.c) && Shows(afterRender, Run(store.cfg, t, others))
    requires r.c in t.calls && t.calls[r.c].target == r.target && t.calls[r.c].stage.Storing?
    requires var stage := t.calls[r.c].stage; stage.v == version && stage.page == page && stage.asOf == committed
    requires Answered(s, t, r.c, r.target, r.header, response)
    modifies store
    ensures var end := Step(store.cfg, Run(store.cfg, t, others), Store(r.c, r.faults.store));
            Stands(store, end) && At(end, r.c, Done) && Answered(s, end, r.c, r.target, r.header, response)
    ensures store.version == afterRender.redis.version
    ensures store.pages == if r.faults.store || |page.body| == 0 || page.etag == "" ||
                              !store.cfg.storable(page.contentType)
                           then afterRender.redis.pages
                           else afterRender.redis.pages[(version, r.target) := Entry(page, committed, afterRender.now)]
  {
    ghost var u := Run(store.cfg, t, others);
    OthersKeep(store.cfg, t, others, r.c);
    AnsweredBefore(s, t, u, r.c, r.target, r.header, response);
    store.Others(afterRender);
    store.Set(version, r.target, page, committed, r.faults.store);
    AnsweredBefore(s, u, Step(store.cfg, u, Store(r.c, r.faults.store)), r.c, r.target, r.header, response);
  }

  /** What a request that was not answered from the cache sends and stores: the handler's status, body and
      content type; rendered exactly for status 200, a content type that belongs to the target and no
      cookie, and only then stored, under the version read and behind what others left. */
  ghost predicate Fresh(cfg: Config, r: Request, before: Redis, after: World, committed: nat, response: Response,
                        pages: map<(Version, Target), Entry>)
  {
    && (response.source == Rendered <==>
        r.outcome.status == 200 && cfg.accepts(r.target, r.outcome.contentType) && !r.outcome.setsCookie)
    && (response.source != Rendered ==> response.source == Passed && !response.notModified)
    && response.page.etag == ETag(cfg.hash, VersionText(response.version), r.outcome.body)
    && (response.source == Rendered ==> (response.notModified <==> MatchesETag(r.header, response.page.etag)))
    && response.status == r.outcome.status && response.page.body == r.outcome.body
    && response.page.contentType == r.outcome.contentType
    && pages == if response.source != Rendered || response.version.None? then before.pages
                else if r.faults.store || |r.outcome.body| == 0 || !cfg.storable(r.outcome.contentType)
                then after.redis.pages
                else after.redis.pages[(response.version.value, r.target) := Entry(response.page, committed, after.now)]
  }

  /** What a request answered from the cache sends: the page stored for this version and target. */
  ghost predicate Replayed(cfg: Config, r: Request, before: Redis, response: Response,
                           pages: map<(Version, Target), Entry>)
  {
    && response.source == Cached && response.status == 200 && response.version.Some?
    && pages == before.pages && (response.version.value, r.target) in pages
    && response.page == pages[(response.version.value, r.target)].page
    && cfg.accepts(r.target, response.page.contentType)
    && (response.notModified <==> MatchesETag(r.header, response.page.etag))
  }

  /** From rendering to the end of the request. `s` is where it began, `m` where it renders. */
  method RenderSteps(store: RedisStore, r: Request, version: Option<Version>, committed: nat, afterRender: World,
                     ghost s: State, ghost m: State, ghost others: seq<Action>)
    returns (response: Response, ghost end: State)
    requires Stands(store, m) && WillRender(m, r.c, r.target, r.header, version) && Quiet(s, m, r.c)
    requires OthersOnly(others, r.c) && committed == |m.commits|
    requires Shows(afterRender, Take(store.cfg, m, Render(r.c, r.outcome), others))
    modifies store
    ensures || end == Step(store.cfg, m, Render(r.c, r.outcome))
            || end == Step(store.cfg, Take(store.cfg, m, Render(r.c, r.outcome), others), Store(r.c, r.faults.store))
    ensures Stands(store, end) && At(end, r.c, Done) && Answered(s, end, r.c, r.target, r.header, response)
    ensures response.version == version
    ensures Fresh(store.cfg, r, m.redis, afterRender, committed, response, store.pages)
  {
    end := Step(store.cfg, m, Render(r.c, r.outcome));
    RenderAnswers(store.cfg, m, r.c, r.target, r.header, version, r.outcome);
    var page := MakePage(store.cfg, version, r.outcome);
    if !Cacheable(store.cfg, r.target, r.outcome) {
      response := Response(version, page, Passed, r.outcome.status, false);
      AnsweredNow(s, m, end, r.c, r.target, r.header, response);
      return;
    }
    response := Response(version, page, Rendered, r.outcome.status, MatchesETag(r.header, page.etag));
    AnsweredNow(s, m, end, r.c, r.target, r.header, response);
    if version.Some? {
      StorePage(store, r, version.value, page, committed, afterRender, s, end, others, response);
      end := Step(store.cfg, Run(store.cfg, end, others), Store(r.c, r.faults.store));
    }
  }

  /** From the version on: a replayed page, or rendering and what follows it. */
  method LookAndRender(store: RedisStore, r: Request, version: Option<Version>, worlds: seq<World>, committed: nat,
                       ghost s: State, ghost b: Between)
    returns (response: Response, ghost end: State)
    requires AllOthers(b, r.c) && |worlds| == 5
    requires var known := KnowsVersion(store.cfg, s, r, b);
             && Stands(store, known) && Knows(known, r.c, r.target, r.header, version) && Quiet(s, known, r.c)
             && Shows(worlds[2], known)
    requires Shows(worlds[3], Looked(store.cfg, s, r, b)) && Shows(worlds[4], Responded(store.cfg, s, r, b))
    requires committed == |Looked(store.cfg, s, r, b).commits|
    modifies store
    ensures Ends(store.cfg, s, r, b, end)
    ensures Stands(store, end) && At(end, r.c, Done) && Answered(s, end, r.c, r.target, r.header, response)
    ensures if response.source == Cached then Replayed(store.cfg, r, worlds[2].redis, response, store.pages)
            else Fresh(store.cfg, r, worlds[3].redis, worlds[4], committed, response, store.pages)
  {
    ghost var known, m := KnowsVersion(store.cfg, s, r, b), Looked(store.cfg, s, r, b);
    var replayed := TryReplay(store, r.c, r.target, r.header, version, r.faults.get, known);
    end := Step(store.cfg, known, Lookup(r.c, r.faults.get));
    if replayed.Some? {
      AnsweredNow(s, known, end, r.c, r.target, r.header, replayed.value);
      return replayed.value, end;
    }
    OthersKeep(store.cfg, end, b.lookup, r.c);
    QuietJoin(s, end, m, r.c);
    store.Others(worlds[3]);
    response, end := RenderSteps(store, r, version, committed, worlds[4], s, m, b.render);
  }

  /** One request, with the steps of others between any two of its commands. `s` is the protocol state it
      starts from; it ends where its own steps in the source's order lead, leaves what they leave in Redis,
      and is answered exactly once, with the response returned. `worlds` is what others leave behind each
      of its steps, `committed` the number of commits its rendering sees. */
  method Middleware(store: RedisStore, r: Request, worlds: seq<World>, committed: nat, ghost s: State, ghost b: Between)
    returns (response: Response, ghost end: State)
    requires Stands(store, s) && r.c !in s.calls && AllOthers(b, r.c) && |worlds| == 5
    requires Shows(worlds[0], Began(store.cfg, s, r, b)) && Shows(worlds[1], GotVersion(store.cfg, s, r, b))
    requires Shows(worlds[2], KnowsVersion(store.cfg, s, r, b)) && Shows(worlds[3], Looked(store.cfg, s, r, b))
    requires Shows(worlds[4], Responded(store.cfg, s, r, b)) && committed == |Looked(store.cfg, s, r, b).commits|
    modifies store
    ensures Ends(store.cfg, s, r, b, end)
    ensures Stands(store, end) && At(end, r.c, Done) && Answered(s, end, r.c, r.target, r.header, response)
    ensures if response.source == Cached then Replayed(store.cfg, r, worlds[2].redis, response, store.pages)
            else Fresh(store.cfg, r, worlds[3].redis, worlds[4], committed, response, store.pages)
  {
    var version := ReadSteps(store, r, worlds, s, b);
    response, end := LookAndRender(store, r, version, worlds, committed, s, b);
  }
}
