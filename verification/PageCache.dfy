/** The versioned page cache of internal/cache as a protocol: requests, administrators and Redis
    take atomic steps in any order, and any Redis command may fail. */
module PageCache {
  import opened Common
  import opened PageTags

  type Version = nat

  type Target = seq<Byte>

  datatype Page = Page(body: seq<Byte>, etag: string, contentType: string)

  /** Time to live, digest, and the content types accepted for a target and for storage. */
  datatype Config = Config(ttl: nat, hash: Digest, accepts: (Target, string) -> bool, storable: string -> bool)

  /** A stored page; `asOf` counts the commits its content is known to include. */
  datatype Entry = Entry(page: Page, asOf: nat, storedAt: int)

  datatype Redis = Redis(version: Option<Version>, pages: map<(Version, Target), Entry>)

  // ---------------------------------------------------------------- Redis commands

  /** ValidatePage. */
  predicate ValidPage(cfg: Config, p: Page) { p.body != [] && p.etag != "" && cfg.storable(p.contentType) }

  predicate Live(cfg: Config, e: Entry, now: int) { now < e.storedAt + cfg.ttl }

  function Fetch(cfg: Config, r: Redis, now: int, v: Version, t: Target): Option<Entry> {
    if (v, t) in r.pages && Live(cfg, r.pages[(v, t)], now) && ValidPage(cfg, r.pages[(v, t)].page)
    then Some(r.pages[(v, t)]) else None
  }

  function Put(cfg: Config, r: Redis, v: Version, t: Target, e: Entry): Redis {
    if ValidPage(cfg, e.page) then r.(pages := r.pages[(v, t) := e]) else r
  }

  /** INCR: an absent key counts as zero. */
  function Increment(r: Redis): Redis {
    r.(version := Some(if r.version.Some? then r.version.value + 1 else 1))
  }

  // ---------------------------------------------------------------- the protocol

  datatype Stage =
    | Started
    | Initialising                                               // saw no version key
    | Looking(v: Version, readAt: int)
    | Rendering(version: Option<Version>, readAt: int)
    | Storing(v: Version, readAt: int, page: Page, asOf: nat)
    | Done

  /** `need` counts the commits covered by an invalidation that completed before the request began. */
  datatype Call = Call(target: Target, header: string, need: nat, stage: Stage)

  datatype Source = Cached | Rendered | Passed

  /** A response to request c; `status` is the handler's, and 200 for a replayed page. */
  datatype Served = Served(c: nat, target: Target, header: string, version: Option<Version>, page: Page,
                           source: Source, status: nat, notModified: bool, asOf: nat, need: nat, at: int)

  /** What the wrapped handler produced. */
  datatype Outcome = Outcome(status: nat, body: seq<Byte>, contentType: string, setsCookie: bool)

  datatype State = State(
    redis: Redis, now: int, calls: map<nat, Call>,
    commits: seq<int>,                       // the time of each commit
    covered: nat,                            // commits made before the last completed invalidation
    created: map<Version, nat>,              // commits made when a version became current
    lag: nat,                                // longest time from reading a version to storing under it
    log: seq<Served>)

  datatype Action =
    | Tick(d: nat)
    | Commit
    | Invalidate
    | Evict(v: Version, t: Target)
    | LoseVersion                                                // eviction or a restart takes the version key
    | Begin(c: nat, target: Target, header: string)
    | ReadVersion(c: nat, fails: bool)
    | InitVersion(c: nat, fails: bool)
    | Lookup(c: nat, fails: bool)
    | Render(c: nat, outcome: Outcome)
    | Store(c: nat, fails: bool)

  function VersionText(v: Option<Version>): string { if v.Some? then Decimal(v.value) else "" }

  predicate Cacheable(cfg: Config, t: Target, o: Outcome) {
    o.status == 200 && cfg.accepts(t, o.contentType) && !o.setsCookie
  }

  function MakePage(cfg: Config, v: Option<Version>, o: Outcome): Page {
    Page(o.body, ETag(cfg.hash, VersionText(v), o.body), o.contentType)
  }

  function Move(s: State, c: nat, stage: Stage): State
    requires c in s.calls
  {
    s.(calls := s.calls[c := s.calls[c].(stage := stage)])
  }

  function Reply(s: State, c: nat, v: Option<Version>, p: Page, source: Source, status: nat, asOf: nat): Served
    requires c in s.calls
  {
    var call := s.calls[c];
    var notModified := source != Passed && MatchesETag(call.header, p.etag);
    Served(c, call.target, call.header, v, p, source, status, notModified, asOf, call.need, s.now)
  }

  predicate At(s: State, c: nat, stage: Stage) { c in s.calls && s.calls[c].stage == stage }

  /** One atomic step; a step that is not enabled changes nothing. */
  function Step(cfg: Config, s: State, a: Action): State {
    match a
    case Tick(d) => s.(now := s.now + d)
    case Commit => s.(commits := s.commits + [s.now])
    case Invalidate =>
      var r := Increment(s.redis);
      s.(redis := r, created := s.created[r.version.value := |s.commits|], covered := |s.commits|)
    case Evict(v, t) => s.(redis := s.redis.(pages := s.redis.pages - {(v, t)}))
    case LoseVersion => s.(redis := s.redis.(version := None))
    case Begin(c, target, header) =>
      if c in s.calls then s else s.(calls := s.calls[c := Call(target, header, s.covered, Started)])
    case ReadVersion(c, fails) =>
      if !At(s, c, Started) then s
      else if fails then Move(s, c, Rendering(None, s.now))
      else if s.redis.version.None? then Move(s, c, Initialising)
      else Move(s, c, Looking(s.redis.version.value, s.now))
    case InitVersion(c, fails) =>
      if !At(s, c, Initialising) then s
      else if fails then Move(s, c, Rendering(None, s.now))
      else Move(s, c, Looking(1, s.now)).(redis := s.redis.(version := Some(1)), created := s.created[1 := |s.commits|])
    case Lookup(c, fails) =>
      if c !in s.calls || !s.calls[c].stage.Looking? then s
      else
        var call := s.calls[c];
        var found := if fails then None else Fetch(cfg, s.redis, s.now, call.stage.v, call.target);
        if found.Some? && cfg.accepts(call.target, found.value.page.contentType) then
          var reply := Reply(s, c, Some(call.stage.v), found.value.page, Cached, 200, found.value.asOf);
          Move(s, c, Done).(log := s.log + [reply])
        else Move(s, c, Rendering(Some(call.stage.v), call.stage.readAt))
    case Render(c, outcome) =>
      if c !in s.calls || !s.calls[c].stage.Rendering? then s
      else
        var call := s.calls[c];
        var v := call.stage.version;
        var page := MakePage(cfg, v, outcome);
        if !Cacheable(cfg, call.target, outcome) then
          Move(s, c, Done).(log := s.log + [Reply(s, c, v, page, Passed, outcome.status, |s.commits|)])
        else
          Move(s, c, if v.Some? then Storing(v.value, call.stage.readAt, page, |s.commits|) else Done)
          .(log := s.log + [Reply(s, c, v, page, Rendered, outcome.status, |s.commits|)])
    case Store(c, fails) =>
      if c !in s.calls || !s.calls[c].stage.Storing? then s
      else
        var call, stage := s.calls[c], s.calls[c].stage;
        var s' := Move(s, c, Done);
        if fails then s'
        else s'.(redis := Put(cfg, s.redis, stage.v, call.target, Entry(stage.page, stage.asOf, s.now)),
                 lag := Max(s.lag, s.now - stage.readAt))
  }

  function Run(cfg: Config, s: State, actions: seq<Action>): State
    decreases |actions|
  {
    if actions == [] then s else Run(cfg, Step(cfg, s, actions[0]), actions[1..])
  }

  lemma {:induction false} RunAppend(cfg: Config, s: State, a: seq<Action>, b: seq<Action>)
    ensures Run(cfg, s, a + b) == Run(cfg, Run(cfg, s, a), b)
    decreases |a|
  {
    if a == [] {
      assert a + b == b;
    } else {
      assert (a + b)[1..] == a[1..] + b;
      RunAppend(cfg, Step(cfg, s, a[0]), a[1..], b);
    }
  }

  /** A start: nothing committed yet, no request in flight, whatever Redis holds is live. */
  ghost predicate Initial(cfg: Config, s: State) {
    && s.calls == map[] && s.commits == [] && s.covered == 0 && s.lag == 0 && s.log == []
    && (forall k | k in s.redis.pages :: Good(cfg, s, k))
    && s.created == map v | v in Known(s.redis) :: 0
  }

  ghost predicate Good(cfg: Config, s: State, k: (Version, Target))
    requires k in s.redis.pages
  {
    var e := s.redis.pages[k];
    e.asOf == 0 && Live(cfg, e, s.now) && ValidPage(cfg, e.page) && cfg.accepts(k.1, e.page.contentType)
  }

  function Known(r: Redis): set<Version> {
    (set k | k in r.pages :: k.0) + if r.version.Some? then {r.version.value} else {}
  }

  // ---------------------------------------------------------------- freshness

  /** No response, cached or rendered, is older than the invalidations completed before its request. */
  ghost predicate AllFresh(s: State) { forall i | 0 <= i < |s.log| :: s.log[i].need <= s.log[i].asOf }

  ghost predicate FreshCall(s: State, call: Call) {
    && call.need <= |s.commits|
    && match call.stage
       case Started => call.need <= s.covered
       case Initialising => false
       case Looking(v, _) => v in s.created && call.need <= s.created[v]
       case Rendering(v, _) => v.Some? ==> v.value in s.created && call.need <= s.created[v.value]
       case Storing(v, _, _, asOf) => v in s.created && s.created[v] <= asOf
       case Done => true
  }

  /** Every entry under version v was rendered after v became current. */
  ghost predicate FreshInv(s: State) {
    && s.redis.version.Some?
    && s.redis.version.value in s.created
    && (forall v | v in s.created :: v <= s.redis.version.value && s.created[v] <= |s.commits|)
    && s.covered <= s.created[s.redis.version.value]
    && (forall k | k in s.redis.pages :: k.0 in s.created && s.created[k.0] <= s.redis.pages[k].asOf)
    && (forall c | c in s.calls :: FreshCall(s, s.calls[c]))
    && AllFresh(s)
  }

  /** What a request knows stays true while the history grows. */
  lemma FreshCallsKept(s: State, s': State)
    requires forall c | c in s.calls :: FreshCall(s, s.calls[c])
    requires |s.commits| <= |s'.commits| && s.covered <= s'.covered
    requires forall v | v in s.created :: v in s'.created && s'.created[v] == s.created[v]
    ensures forall c | c in s.calls :: FreshCall(s', s.calls[c])
  {
    forall c | c in s.calls ensures FreshCall(s', s.calls[c]) { assert FreshCall(s, s.calls[c]); }
  }

  predicate ServerStep(a: Action) { a.Tick? || a.Commit? || a.Invalidate? || a.Evict? || a.LoseVersion? }

  /** A run in which Redis never loses the version key. */
  ghost predicate KeepsVersion(actions: seq<Action>) { forall a | a in actions :: !a.LoseVersion? }

  lemma FreshServerStep(cfg: Config, s: State, a: Action)
    requires FreshInv(s) && ServerStep(a) && !a.LoseVersion?
    ensures FreshInv(Step(cfg, s, a))
  {
    FreshCallsKept(s, Step(cfg, s, a));
  }

  lemma FreshReadStep(cfg: Config, s: State, a: Action)
    requires FreshInv(s) && (a.Begin? || a.ReadVersion? || a.InitVersion?)
    ensures FreshInv(Step(cfg, s, a))
  {
    var s' := Step(cfg, s, a);
    if s' != s {
      if a.c in s.calls { assert FreshCall(s, s.calls[a.c]); }
      FreshCallsKept(s, s');
    }
  }

  lemma FreshLookup(cfg: Config, s: State, a: Action)
    requires FreshInv(s) && a.Lookup?
    ensures FreshInv(Step(cfg, s, a))
  {
    var s' := Step(cfg, s, a);
    if s' != s {
      assert FreshCall(s, s.calls[a.c]);
      FreshCallsKept(s, s');
    }
  }

  lemma FreshRender(cfg: Config, s: State, a: Action)
    requires FreshInv(s) && a.Render?
    ensures FreshInv(Step(cfg, s, a))
  {
    var s' := Step(cfg, s, a);
    if s' != s {
      assert FreshCall(s, s.calls[a.c]);
      FreshCallsKept(s, s');
    }
  }

  lemma FreshStore(cfg: Config, s: State, a: Action)
    requires FreshInv(s) && a.Store?
    ensures FreshInv(Step(cfg, s, a))
  {
    var s' := Step(cfg, s, a);
    if s' != s {
      assert FreshCall(s, s.calls[a.c]);
      FreshCallsKept(s, s');
    }
  }

  lemma FreshStep(cfg: Config, s: State, a: Action)
    requires FreshInv(s) && !a.LoseVersion?
    ensures FreshInv(Step(cfg, s, a))
  {
    if ServerStep(a) { FreshServerStep(cfg, s, a); }
    else if a.Lookup? { FreshLookup(cfg, s, a); }
    else if a.Render? { FreshRender(cfg, s, a); }
    else if a.Store? { FreshStore(cfg, s, a); }
    else { FreshReadStep(cfg, s, a); }
  }

  lemma {:induction false} FreshRun(cfg: Config, s: State, actions: seq<Action>)
    requires FreshInv(s) && KeepsVersion(actions)
    ensures FreshInv(Run(cfg, s, actions))
    decreases |actions|
  {
    if actions != [] {
      FreshStep(cfg, s, actions[0]);
      FreshRun(cfg, Step(cfg, s, actions[0]), actions[1..]);
    }
  }

  /** The version key exists and no page is stored under a version still to come. */
  ghost predicate VersionLeads(r: Redis) {
    r.version.Some? && forall k | k in r.pages :: k.0 <= r.version.value
  }

  /** The claim of the PageCache comment, for every interleaving and every failing command, as long as
      Redis keeps the version key. */
  lemma FreshWhenVersionLeads(cfg: Config, s: State, actions: seq<Action>)
    requires Initial(cfg, s) && VersionLeads(s.redis) && KeepsVersion(actions)
    ensures AllFresh(Run(cfg, s, actions))
  {
    forall k | k in s.redis.pages ensures k.0 in s.created && Good(cfg, s, k) { assert k.0 in Known(s.redis); }
    FreshRun(cfg, s, actions);
  }

  /** No request has begun and nothing was committed. */
  predicate Unused(s: State) { s.calls == map[] && s.commits == [] && s.covered == 0 && s.log == [] }

  /** A page that some target accepts and that is stored when rendered for it. */
  predicate Storable(cfg: Config, t: Target, page: Outcome) {
    Cacheable(cfg, t, page) && page.body != [] && cfg.storable(page.contentType)
  }

  /** Without a version key two requests initialise it, one of them late: the first finds no key and
      pauses, the second initialises the key and stores its page, an administrator commits and
      invalidates, and only then does the first initialise the key as well. */
  function BothFindNoKey(t: Target): seq<Action> {
    [Begin(0, t, ""), ReadVersion(0, false), Begin(1, t, ""), ReadVersion(1, false), InitVersion(1, false)]
  }

  function SecondStores(page: Outcome): seq<Action> {
    [Lookup(1, true), Render(1, page), Store(1, false), Commit, Invalidate]
  }

  function FirstInitialisesLate(t: Target): seq<Action> {
    [InitVersion(0, false), Begin(2, t, ""), ReadVersion(2, false), Lookup(2, false)]
  }

  function LateInitialisation(t: Target, page: Outcome): seq<Action> {
    BothFindNoKey(t) + (SecondStores(page) + FirstInitialisesLate(t))
  }

  lemma AfterBothFindNoKey(cfg: Config, s: State, t: Target)
    requires Unused(s) && s.redis.version == None
    ensures var s' := Run(cfg, s, BothFindNoKey(t));
            && s'.redis == s.redis.(version := Some(1)) && s'.now == s.now && s'.commits == [] && s'.log == []
            && s'.calls == map[0 := Call(t, "", 0, Initialising), 1 := Call(t, "", 0, Looking(1, s.now))]
  {
    var a := BothFindNoKey(t);
    FiveSteps(cfg, s, a[0], a[1], a[2], a[3], a[4]);
  }

  lemma AfterSecondStores(cfg: Config, s: State, t: Target, page: Outcome)
    requires s.redis.version == Some(1) && s.commits == [] && s.log == [] && 1 in s.calls
    requires s.calls[1] == Call(t, "", 0, Looking(1, s.now)) && Storable(cfg, t, page)
    ensures var s' := Run(cfg, s, SecondStores(page));
            && (1, t) in s'.redis.pages && s'.redis.pages[(1, t)] == Entry(MakePage(cfg, Some(1), page), 0, s.now)
            && s'.now == s.now && s'.covered == 1 && |s'.log| == 1
            && s'.calls == s.calls[1 := Call(t, "", 0, Done)]
  {
    var a := SecondStores(page);
    var s1 := Step(cfg, s, a[0]);
    assert s1.calls[1].stage == Rendering(Some(1), s.now);
    var s2 := Step(cfg, s1, a[1]);
    assert s2.calls[1].stage == Storing(1, s.now, MakePage(cfg, Some(1), page), 0);
    var s3 := Step(cfg, s2, a[2]);
    assert s3.calls == s.calls[1 := Call(t, "", 0, Done)];
    FiveSteps(cfg, s, a[0], a[1], a[2], a[3], a[4]);
  }

  /** A request that looks for an old page, live and acceptable, after an invalidation gets it. */
  lemma OldPageAnswered(cfg: Config, s: State, c: nat, v: Version, t: Target)
    requires c in s.calls && s.calls[c].target == t && s.calls[c].need >= 1
    requires s.calls[c].stage.Looking? && s.calls[c].stage.v == v
    requires (v, t) in s.redis.pages && s.redis.pages[(v, t)].asOf == 0 && Live(cfg, s.redis.pages[(v, t)], s.now)
    requires ValidPage(cfg, s.redis.pages[(v, t)].page) && cfg.accepts(t, s.redis.pages[(v, t)].page.contentType)
    ensures !AllFresh(Step(cfg, s, Lookup(c, false)))
  {
    var r := Step(cfg, s, Lookup(c, false)).log[|s.log|];
    assert r.asOf == 0 && r.need >= 1;
  }

  lemma ThreeSteps(cfg: Config, s: State, a: Action, b: Action, c: Action)
    ensures Run(cfg, s, [a, b, c]) == Step(cfg, Step(cfg, Step(cfg, s, a), b), c)
  {
    var s1 := Step(cfg, s, a);
    var s2 := Step(cfg, s1, b);
    assert [a, b, c][1..] == [b, c] && [b, c][1..] == [c] && [c][1..] == [];
    assert Run(cfg, s2, [c]) == Step(cfg, s2, c);
    assert Run(cfg, s1, [b, c]) == Run(cfg, s2, [c]);
  }

  lemma AfterFirstInitialisesLate(cfg: Config, s: State, t: Target, e: Entry)
    requires (1, t) in s.redis.pages && s.redis.pages[(1, t)] == e && e.asOf == 0
    requires Live(cfg, e, s.now) && ValidPage(cfg, e.page) && cfg.accepts(t, e.page.contentType)
    requires s.covered == 1 && |s.log| == 1 && At(s, 0, Initialising) && 2 !in s.calls
    ensures !AllFresh(Run(cfg, s, FirstInitialisesLate(t)))
  {
    var a := FirstInitialisesLate(t);
    var s3 := Step(cfg, Step(cfg, Step(cfg, s, a[0]), a[1]), a[2]);
    assert At(s3, 2, Looking(1, s.now)) && s3.calls[2].need == 1;
    OldPageAnswered(cfg, s3, 2, 1, t);
    FiveSteps(cfg, s, a[0], a[1], a[2], a[3], Commit);
  }

  /** The late initialiser moves the version back, and the old page is served again. */
  lemma LateInitialiserServesOldPage(cfg: Config, s: State, t: Target, page: Outcome)
    requires Unused(s) && s.redis.version == None && cfg.ttl > 0 && Storable(cfg, t, page)
    ensures !AllFresh(Run(cfg, s, LateInitialisation(t, page))) && KeepsVersion(LateInitialisation(t, page))
  {
    AfterBothFindNoKey(cfg, s, t);
    var s1 := Run(cfg, s, BothFindNoKey(t));
    AfterSecondStores(cfg, s1, t, page);
    var s2 := Run(cfg, s1, SecondStores(page));
    AfterFirstInitialisesLate(cfg, s2, t, Entry(MakePage(cfg, Some(1), page), 0, s.now));
    RunAppend(cfg, s, BothFindNoKey(t), SecondStores(page) + FirstInitialisesLate(t));
    RunAppend(cfg, s1, SecondStores(page), FirstInitialisesLate(t));
  }

  lemma FiveSteps(cfg: Config, s: State, a: Action, b: Action, c: Action, d: Action, e: Action)
    ensures Run(cfg, s, [a, b, c, d]) == Step(cfg, Step(cfg, Step(cfg, Step(cfg, s, a), b), c), d)
    ensures Run(cfg, s, [a, b, c, d, e]) == Step(cfg, Run(cfg, s, [a, b, c, d]), e)
  {
    var s1 := Step(cfg, s, a);
    var s2 := Step(cfg, s1, b);
    var s3 := Step(cfg, s2, c);
    var s4 := Step(cfg, s3, d);
    assert [a, b, c, d][1..] == [b, c, d] && [b, c, d][1..] == [c, d] && [c, d][1..] == [d];
    assert Run(cfg, s3, [d]) == s4;
    assert Run(cfg, s2, [c, d]) == s4;
    assert Run(cfg, s1, [b, c, d]) == s4;
    assert [a, b, c, d, e] == [a, b, c, d] + [e];
    RunAppend(cfg, s, [a, b, c, d], [e]);
  }

  function Invalidations(n: nat): seq<Action> { seq(n, _ => Invalidate) }

  lemma {:induction false} InvalidateMany(cfg: Config, s: State, n: nat)
    requires s.redis.version.Some?
    ensures var s' := Run(cfg, s, Invalidations(n));
            && s'.redis == s.redis.(version := Some(s.redis.version.value + n))
            && s'.covered == (if n == 0 then s.covered else |s.commits|)
            && s'.calls == s.calls && s'.now == s.now && s'.log == s.log && s'.commits == s.commits
    decreases n
  {
    if n > 0 {
      assert Invalidations(n)[1..] == Invalidations(n - 1);
      InvalidateMany(cfg, Step(cfg, s, Invalidate), n - 1);
    }
  }

  /** A new request for an old page of the current version, after an invalidation. */
  lemma OldPageAsked(cfg: Config, s: State, v: Version, t: Target)
    requires s.calls == map[] && s.covered >= 1 && s.redis.version == Some(v)
    requires (v, t) in s.redis.pages && s.redis.pages[(v, t)].asOf == 0 && Live(cfg, s.redis.pages[(v, t)], s.now)
    requires ValidPage(cfg, s.redis.pages[(v, t)].page) && cfg.accepts(t, s.redis.pages[(v, t)].page.contentType)
    ensures !AllFresh(Run(cfg, s, [Begin(0, t, ""), ReadVersion(0, false), Lookup(0, false)]))
  {
    ThreeSteps(cfg, s, Begin(0, t, ""), ReadVersion(0, false), Lookup(0, false));
    OldPageAnswered(cfg, Step(cfg, Step(cfg, s, Begin(0, t, "")), ReadVersion(0, false)), 0, v, t);
  }

  /** A page left under a later version is served once the counter reaches that version. */
  lemma LeftoverPageServed(cfg: Config, s: State, k: (Version, Target))
    requires Initial(cfg, s) && s.redis.version.Some? && k in s.redis.pages && s.redis.version.value < k.0
    ensures var run := [Commit] + Invalidations(k.0 - s.redis.version.value)
                       + [Begin(0, k.1, ""), ReadVersion(0, false), Lookup(0, false)];
            KeepsVersion(run) && !AllFresh(Run(cfg, s, run))
  {
    var n := k.0 - s.redis.version.value;
    var ask := [Begin(0, k.1, ""), ReadVersion(0, false), Lookup(0, false)];
    var s1 := Step(cfg, s, Commit);
    assert ([Commit] + Invalidations(n) + ask)[1..] == Invalidations(n) + ask;
    InvalidateMany(cfg, s1, n);
    RunAppend(cfg, s1, Invalidations(n), ask);
    assert Good(cfg, s, k);
    OldPageAsked(cfg, Run(cfg, s1, Invalidations(n)), k.0, k.1);
  }

  /** When the claim holds of the runs that keep the version key: exactly when the key was initialised
      and no later page was left over. The page used for a missing key is any page some target accepts. */
  lemma FreshIffVersionLeads(cfg: Config, s: State, t: Target, page: Outcome)
    requires Initial(cfg, s) && cfg.ttl > 0 && Storable(cfg, t, page)
    ensures (forall actions | KeepsVersion(actions) :: AllFresh(Run(cfg, s, actions))) <==> VersionLeads(s.redis)
  {
    if VersionLeads(s.redis) {
      forall actions | KeepsVersion(actions) ensures AllFresh(Run(cfg, s, actions)) {
        FreshWhenVersionLeads(cfg, s, actions);
      }
    } else if s.redis.version == None {
      LateInitialiserServesOldPage(cfg, s, t, page);
    } else {
      var k :| k in s.redis.pages && s.redis.version.value < k.0;
      LeftoverPageServed(cfg, s, k);
    }
  }

  // ---------------------------------------------------------------- losing the version key

  /** A commit, its invalidation, and then the loss of the key: the next request starts the versions
      anew, and the old page of version 1 is current again. */
  function LossRun(t: Target): seq<Action> {
    [Commit, Invalidate, LoseVersion, Begin(0, t, "")] +
      [ReadVersion(0, false), InitVersion(0, false), Lookup(0, false)]
  }

  /** An initialised key and no later page are not enough once the key can be lost. */
  lemma LostVersionServesOldPage(cfg: Config, s: State, t: Target)
    requires Initial(cfg, s) && s.redis.version == Some(1) && (1, t) in s.redis.pages
    ensures !AllFresh(Run(cfg, s, LossRun(t)))
  {
    var a := [Commit, Invalidate, LoseVersion, Begin(0, t, "")];
    var b := [ReadVersion(0, false), InitVersion(0, false), Lookup(0, false)];
    RunAppend(cfg, s, a, b);
    FiveSteps(cfg, s, a[0], a[1], a[2], a[3], Commit);
    var s4 := Run(cfg, s, a);
    assert Good(cfg, s, (1, t)) && s4.redis == s.redis.(version := None);
    assert s4.calls[0] == Call(t, "", 1, Started);
    ThreeSteps(cfg, s4, b[0], b[1], b[2]);
    OldPageAnswered(cfg, Step(cfg, Step(cfg, s4, b[0]), b[1]), 0, 1, t);
  }

  /** With the loss of the key among the steps the claim holds from no start at all, not even from an
      empty Redis: the two requests that initialise the key anew can be any two. */
  lemma LossBreaksFreshness(cfg: Config, s: State, t: Target, page: Outcome)
    requires Initial(cfg, s) && cfg.ttl > 0 && Storable(cfg, t, page)
    ensures !AllFresh(Run(cfg, s, [LoseVersion] + LateInitialisation(t, page)))
  {
    assert ([LoseVersion] + LateInitialisation(t, page))[1..] == LateInitialisation(t, page);
    LateInitialiserServesOldPage(cfg, Step(cfg, s, LoseVersion), t, page);
  }

  // ---------------------------------------------------------------- bounded staleness

  /** Content `asOf` includes every commit made before time `t`. */
  ghost predicate Includes(s: State, asOf: nat, t: int) {
    forall i | 0 <= i < |s.commits| && s.commits[i] < t :: i < asOf
  }

  ghost predicate TimelyCall(s: State, stage: Stage) {
    match stage
    case Looking(_, at) => at <= s.now
    case Rendering(_, at) => at <= s.now
    case Storing(_, at, _, asOf) => at <= s.now && Includes(s, asOf, at)
    case _ => true
  }

  ghost predicate TimelyReply(cfg: Config, s: State, r: Served) {
    r.at <= s.now && (r.source == Cached ==> Includes(s, r.asOf, r.at - cfg.ttl - s.lag))
  }

  ghost predicate TimelyEntry(s: State, e: Entry) { e.storedAt <= s.now && Includes(s, e.asOf, e.storedAt - s.lag) }

  ghost predicate TimelyInv(cfg: Config, s: State) {
    && (forall i | 0 <= i < |s.commits| :: s.commits[i] <= s.now)
    && (forall k | k in s.redis.pages :: TimelyEntry(s, s.redis.pages[k]))
    && (forall c | c in s.calls :: TimelyCall(s, s.calls[c].stage))
    && (forall i | 0 <= i < |s.log| :: TimelyReply(cfg, s, s.log[i]))
  }

  /** Everything timely stays so while time, commits and the recorded lag grow. */
  lemma TimelyKept(cfg: Config, s: State, s': State)
    requires TimelyInv(cfg, s) && s.now <= s'.now && s.lag <= s'.lag
    requires s'.commits == s.commits || (s'.commits == s.commits + [s.now] && s'.now == s.now)
    ensures forall i | 0 <= i < |s'.commits| :: s'.commits[i] <= s'.now
    ensures forall k | k in s.redis.pages :: TimelyEntry(s', s.redis.pages[k])
    ensures forall c | c in s.calls :: TimelyCall(s', s.calls[c].stage)
    ensures forall i | 0 <= i < |s.log| :: TimelyReply(cfg, s', s.log[i])
  {
    forall k | k in s.redis.pages ensures TimelyEntry(s', s.redis.pages[k]) { assert TimelyEntry(s, s.redis.pages[k]); }
    forall c | c in s.calls ensures TimelyCall(s', s.calls[c].stage) { assert TimelyCall(s, s.calls[c].stage); }
    forall i | 0 <= i < |s.log| ensures TimelyReply(cfg, s', s.log[i]) { assert TimelyReply(cfg, s, s.log[i]); }
  }

  lemma TimelyServerStep(cfg: Config, s: State, a: Action)
    requires TimelyInv(cfg, s) && ServerStep(a)
    ensures TimelyInv(cfg, Step(cfg, s, a))
  {
    TimelyKept(cfg, s, Step(cfg, s, a));
  }

  lemma TimelyReadStep(cfg: Config, s: State, a: Action)
    requires TimelyInv(cfg, s) && (a.Begin? || a.ReadVersion? || a.InitVersion?)
    ensures TimelyInv(cfg, Step(cfg, s, a))
  {
    TimelyKept(cfg, s, Step(cfg, s, a));
    if a.c in s.calls { assert TimelyCall(s, s.calls[a.c].stage); }
  }

  lemma TimelyLookup(cfg: Config, s: State, a: Action)
    requires TimelyInv(cfg, s) && a.Lookup?
    ensures TimelyInv(cfg, Step(cfg, s, a))
  {
    TimelyKept(cfg, s, Step(cfg, s, a));
    if a.c in s.calls { assert TimelyCall(s, s.calls[a.c].stage); }
  }

  lemma TimelyRender(cfg: Config, s: State, a: Action)
    requires TimelyInv(cfg, s) && a.Render?
    ensures TimelyInv(cfg, Step(cfg, s, a))
  {
    TimelyKept(cfg, s, Step(cfg, s, a));
    if a.c in s.calls { assert TimelyCall(s, s.calls[a.c].stage); }
  }

  lemma TimelyStore(cfg: Config, s: State, a: Action)
    requires TimelyInv(cfg, s) && a.Store?
    ensures TimelyInv(cfg, Step(cfg, s, a))
  {
    TimelyKept(cfg, s, Step(cfg, s, a));
    if a.c in s.calls { assert TimelyCall(s, s.calls[a.c].stage); }
  }

  lemma TimelyStep(cfg: Config, s: State, a: Action)
    requires TimelyInv(cfg, s)
    ensures TimelyInv(cfg, Step(cfg, s, a))
  {
    if ServerStep(a) { TimelyServerStep(cfg, s, a); }
    else if a.Lookup? { TimelyLookup(cfg, s, a); }
    else if a.Render? { TimelyRender(cfg, s, a); }
    else if a.Store? { TimelyStore(cfg, s, a); }
    else { TimelyReadStep(cfg, s, a); }
  }

  lemma {:induction false} TimelyRun(cfg: Config, s: State, actions: seq<Action>)
    requires TimelyInv(cfg, s)
    ensures TimelyInv(cfg, Run(cfg, s, actions))
    decreases |actions|
  {
    if actions != [] {
      TimelyStep(cfg, s, actions[0]);
      TimelyRun(cfg, Step(cfg, s, actions[0]), actions[1..]);
    }
  }

  /** Even when invalidations fail, the version moves back or its key is lost, and whatever Redis held at
      the start: a page served from the cache at time t includes every commit made before t - TTL - lag,
      where lag is the longest time any request took from reading a version to storing its page. */
  lemma StalenessBound(cfg: Config, s: State, actions: seq<Action>)
    requires s.calls == map[] && s.commits == [] && s.log == []
    requires forall k | k in s.redis.pages :: s.redis.pages[k].storedAt <= s.now
    ensures var s' := Run(cfg, s, actions);
            forall r | r in s'.log && r.source == Cached :: Includes(s', r.asOf, r.at - cfg.ttl - s'.lag)
  {
    TimelyRun(cfg, s, actions);
    var s' := Run(cfg, s, actions);
    forall r | r in s'.log && r.source == Cached ensures Includes(s', r.asOf, r.at - cfg.ttl - s'.lag) {
      assert TimelyReply(cfg, s', s'.log[IndexOf(s'.log, r)]);
    }
  }

  // ---------------------------------------------------------------- replay

  type Pages = map<(Version, Target), Entry>

  /** Every stored page carries the tag of its own version and body. */
  ghost predicate Tagged(cfg: Config, pages: Pages) {
    forall k | k in pages :: pages[k].page.etag == ETag(cfg.hash, VersionText(Some(k.0)), pages[k].page.body)
  }

  /** An earlier rendered response for this version and target carried this page, or it was stored for
      them before the run began. */
  ghost predicate Originated(start: Pages, s: State, before: nat, v: Version, t: Target, page: Page)
    requires before <= |s.log|
  {
    || (exists j | 0 <= j < before :: RenderedAs(s.log[j], v, t, page))
    || ((v, t) in start && start[(v, t)].page == page)
  }

  predicate RenderedAs(r: Served, v: Version, t: Target, page: Page) {
    r.source == Rendered && r.status == 200 && r.version == Some(v) && r.target == t && r.page == page
  }

  ghost predicate ReplayReply(cfg: Config, start: Pages, s: State, i: nat)
    requires i < |s.log|
  {
    var r := s.log[i];
    && (Tagged(cfg, start) ==> r.page.etag == ETag(cfg.hash, VersionText(r.version), r.page.body))
    && r.notModified == (r.source != Passed && MatchesETag(r.header, r.page.etag))
    && (r.source == Cached ==> r.version.Some? && Originated(start, s, i, r.version.value, r.target, r.page))
  }

  ghost predicate ReplayCall(start: Pages, s: State, call: Call) {
    call.stage.Storing? ==> Originated(start, s, |s.log|, call.stage.v, call.target, call.stage.page)
  }

  ghost predicate ReplayEntry(start: Pages, s: State, k: (Version, Target))
    requires k in s.redis.pages
  {
    Originated(start, s, |s.log|, k.0, k.1, s.redis.pages[k].page)
  }

  ghost predicate ReplayInv(cfg: Config, start: Pages, s: State) {
    && (forall k | k in s.redis.pages :: ReplayEntry(start, s, k))
    && (forall c | c in s.calls :: ReplayCall(start, s, s.calls[c]))
    && (forall i | 0 <= i < |s.log| :: ReplayReply(cfg, start, s, i))
  }

  lemma OriginatedKept(start: Pages, s: State, s': State, before: nat, v: Version, t: Target, page: Page)
    requires before <= |s.log| <= |s'.log| && s'.log[..|s.log|] == s.log
    requires Originated(start, s, before, v, t, page)
    ensures Originated(start, s', before, v, t, page) && Originated(start, s', |s'.log|, v, t, page)
  {
    if exists j | 0 <= j < before :: RenderedAs(s.log[j], v, t, page) {
      var j :| 0 <= j < before && RenderedAs(s.log[j], v, t, page);
      assert s'.log[j] == s.log[j];
    }
  }

  /** Everything replayed from the log stays so while the log grows. */
  lemma ReplayKept(cfg: Config, start: Pages, s: State, s': State)
    requires ReplayInv(cfg, start, s) && |s.log| <= |s'.log| && s'.log[..|s.log|] == s.log
    ensures forall k | k in s.redis.pages && k in s'.redis.pages && s'.redis.pages[k] == s.redis.pages[k] ::
            ReplayEntry(start, s', k)
    ensures forall c | c in s.calls :: ReplayCall(start, s', s.calls[c])
    ensures forall i | 0 <= i < |s.log| :: ReplayReply(cfg, start, s', i)
  {
    forall k | k in s.redis.pages && k in s'.redis.pages && s'.redis.pages[k] == s.redis.pages[k]
      ensures ReplayEntry(start, s', k)
    {
      assert ReplayEntry(start, s, k);
      OriginatedKept(start, s, s', |s.log|, k.0, k.1, s.redis.pages[k].page);
    }
    forall c | c in s.calls ensures ReplayCall(start, s', s.calls[c]) {
      assert ReplayCall(start, s, s.calls[c]);
      if s.calls[c].stage.Storing? {
        OriginatedKept(start, s, s', |s.log|, s.calls[c].stage.v, s.calls[c].target, s.calls[c].stage.page);
      }
    }
    forall i | 0 <= i < |s.log| ensures ReplayReply(cfg, start, s', i) {
      assert ReplayReply(cfg, start, s, i);
      assert s'.log[i] == s.log[i];
      if s.log[i].source == Cached {
        OriginatedKept(start, s, s', i, s.log[i].version.value, s.log[i].target, s.log[i].page);
      }
    }
  }

  lemma ReplayServerStep(cfg: Config, start: Pages, s: State, a: Action)
    requires ReplayInv(cfg, start, s) && ServerStep(a)
    ensures ReplayInv(cfg, start, Step(cfg, s, a))
  {
    ReplayKept(cfg, start, s, Step(cfg, s, a));
  }

  lemma ReplayReadStep(cfg: Config, start: Pages, s: State, a: Action)
    requires ReplayInv(cfg, start, s) && (a.Begin? || a.ReadVersion? || a.InitVersion?)
    ensures ReplayInv(cfg, start, Step(cfg, s, a))
  {
    ReplayKept(cfg, start, s, Step(cfg, s, a));
    if a.c in s.calls { assert ReplayCall(start, s, s.calls[a.c]); }
  }

  /** A cached answer: its page came from an earlier response, and so did its tag. */
  lemma ReplayHit(cfg: Config, start: Pages, s: State, c: nat)
    requires ReplayInv(cfg, start, s) && |Step(cfg, s, Lookup(c, false)).log| > |s.log|
    ensures ReplayReply(cfg, start, Step(cfg, s, Lookup(c, false)), |s.log|)
  {
    var s' := Step(cfg, s, Lookup(c, false));
    var v, t, n := s.calls[c].stage.v, s.calls[c].target, |s.log|;
    assert ReplayEntry(start, s, (v, t));
    var page := s.redis.pages[(v, t)].page;
    if exists j | 0 <= j < n :: RenderedAs(s.log[j], v, t, page) {
      var j :| 0 <= j < n && RenderedAs(s.log[j], v, t, page);
      assert ReplayReply(cfg, start, s, j);
    }
    OriginatedKept(start, s, s', n, v, t, page);
  }

  lemma ReplayLookup(cfg: Config, start: Pages, s: State, a: Action)
    requires ReplayInv(cfg, start, s) && a.Lookup?
    ensures ReplayInv(cfg, start, Step(cfg, s, a))
  {
    ReplayKept(cfg, start, s, Step(cfg, s, a));
    if |s.log| < |Step(cfg, s, a).log| { ReplayHit(cfg, start, s, a.c); }
  }

  lemma ReplayRender(cfg: Config, start: Pages, s: State, a: Action)
    requires ReplayInv(cfg, start, s) && a.Render?
    ensures ReplayInv(cfg, start, Step(cfg, s, a))
  {
    var s' := Step(cfg, s, a);
    ReplayKept(cfg, start, s, s');
    if |s.log| < |s'.log| {
      assert ReplayReply(cfg, start, s', |s.log|);
      assert s'.calls[a.c].stage.Storing? ==> s'.log[|s.log|].source == Rendered;
      assert ReplayCall(start, s', s'.calls[a.c]);
    }
  }

  lemma ReplayStore(cfg: Config, start: Pages, s: State, a: Action)
    requires ReplayInv(cfg, start, s) && a.Store?
    ensures ReplayInv(cfg, start, Step(cfg, s, a))
  {
    ReplayKept(cfg, start, s, Step(cfg, s, a));
    if a.c in s.calls { assert ReplayCall(start, s, s.calls[a.c]); }
  }

  lemma ReplayStep(cfg: Config, start: Pages, s: State, a: Action)
    requires ReplayInv(cfg, start, s)
    ensures ReplayInv(cfg, start, Step(cfg, s, a))
  {
    if ServerStep(a) { ReplayServerStep(cfg, start, s, a); }
    else if a.Lookup? { ReplayLookup(cfg, start, s, a); }
    else if a.Render? { ReplayRender(cfg, start, s, a); }
    else if a.Store? { ReplayStore(cfg, start, s, a); }
    else { ReplayReadStep(cfg, start, s, a); }
  }

  lemma {:induction false} ReplayRun(cfg: Config, start: Pages, s: State, actions: seq<Action>)
    requires ReplayInv(cfg, start, s)
    ensures ReplayInv(cfg, start, Run(cfg, s, actions))
    decreases |actions|
  {
    if actions != [] {
      ReplayStep(cfg, start, s, actions[0]);
      ReplayRun(cfg, start, Step(cfg, s, actions[0]), actions[1..]);
    }
  }

  lemma ReplayStart(cfg: Config, s: State)
    requires s.calls == map[] && s.log == []
    ensures ReplayInv(cfg, s.redis.pages, s)
  {}

  /** In every run each cached response repeats, body and tag, an earlier rendered response for the same
      version and target, or a page that was stored for them before the run began. */
  lemma CachedRepliesReplay(cfg: Config, s: State, actions: seq<Action>, i: nat)
    requires s.calls == map[] && s.log == []
    requires i < |Run(cfg, s, actions).log| && Run(cfg, s, actions).log[i].source == Cached
    ensures var s' := Run(cfg, s, actions); var r := s'.log[i];
            && r.version.Some?
            && ((exists j | 0 <= j < i :: RenderedAs(s'.log[j], r.version.value, r.target, r.page)) ||
                ((r.version.value, r.target) in s.redis.pages &&
                 s.redis.pages[(r.version.value, r.target)].page == r.page))
  {
    ReplayStart(cfg, s);
    ReplayRun(cfg, s.redis.pages, s, actions);
    assert ReplayReply(cfg, s.redis.pages, Run(cfg, s, actions), i);
  }

  /** In every run and for every If-None-Match header, 304 is sent exactly when the header holds the
      wildcard or a tag, weak or strong, that only this version of this body has, whether the page was
      cached or just rendered. */
  lemma RevalidationInRuns(cfg: Config, s: State, actions: seq<Action>, i: nat)
    requires Tagged(cfg, s.redis.pages) && s.calls == map[] && s.log == []
    requires CollisionFree(cfg.hash)
    requires i < |Run(cfg, s, actions).log| && Run(cfg, s, actions).log[i].source != Passed
    ensures var r := Run(cfg, s, actions).log[i];
            r.notModified <==> Wildcard(r.header) || Lists(cfg.hash, r.header, VersionText(r.version), r.page.body)
  {
    ReplayStart(cfg, s);
    ReplayRun(cfg, s.redis.pages, s, actions);
    var r := Run(cfg, s, actions).log[i];
    assert ReplayReply(cfg, s.redis.pages, Run(cfg, s, actions), i);
    NotModifiedMeansListed(cfg.hash, r.header, VersionText(r.version), r.page.body);
  }

  /** The same for a client that lists, strongly or weakly, the tags of what it holds. */
  lemma RevalidationOfHeld(cfg: Config, s: State, actions: seq<Action>, i: nat, held: seq<Held>)
    requires Tagged(cfg, s.redis.pages) && s.calls == map[] && s.log == []
    requires CollisionFree(cfg.hash) && forall x :: ',' !in cfg.hash(x)
    requires forall h | h in held :: ',' !in h.version
    requires i < |Run(cfg, s, actions).log| && Run(cfg, s, actions).log[i].source != Passed
    requires Run(cfg, s, actions).log[i].header == Join(Tags(cfg.hash, held))
    ensures var r := Run(cfg, s, actions).log[i];
            r.notModified <==> PageTags.Holds(held, VersionText(r.version), r.page.body)
  {
    ReplayStart(cfg, s);
    ReplayRun(cfg, s.redis.pages, s, actions);
    var r := Run(cfg, s, actions).log[i];
    assert ReplayReply(cfg, s.redis.pages, Run(cfg, s, actions), i);
    NotModifiedIffHeld(cfg.hash, held, VersionText(r.version), r.page.body);
  }
}
