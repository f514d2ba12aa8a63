/** What a committed article request leaves in the database, and when it commits at all, said of the rows
    alone. */
module ArticleEffects {
  import opened Common
  import opened MediaReferences
  import opened Articles

  // ---------------------------------------------------------------- titles and bodies

  /** One to two hundred characters, no space at either end. */
  predicate GoodTitle(title: string) {
    0 < |title| <= 200 && !IsSpace(title[0]) && !IsSpace(title[|title| - 1])
  }

  predicate HasText(body: Option<string>) { body.Some? && exists c | c in body.value :: !IsSpace(c) }

  /** There is something to render. */
  predicate Written(body: Option<string>) { body.Some? && |body.value| > 0 }

  lemma TitleMeans(title: string)
    ensures ValidTitle(title) <==> GoodTitle(title)
  {
    var from, to := TrimIs(title);
    if GoodTitle(title) { TrimKeepsTrimmed(title); }
  }

  lemma TextMeans(body: Option<string>)
    ensures Blank(body) <==> !HasText(body)
  {
    if body.Some? {
      var s := body.value;
      var from, to := TrimIs(s);
      assert s == s[..from] + s[from..to] + s[to..];
      if from < to { assert s[from..to][0] in s; }
    }
  }

  /** A character takes as many octets as its code point needs in UTF-8, and a text as its characters do. */
  lemma {:induction false} OctetsOf(s: string, t: string)
    ensures Utf8Size(s + t) == Utf8Size(s) + Utf8Size(t) && Utf8Size("") == 0
    ensures |s| == 1 ==> Utf8Size(s) == if s[0] as int <= 0x7F then 1 else if s[0] as int <= 0x7FF then 2
                                        else if s[0] as int <= 0xFFFF then 3 else 4
  {
    if s == "" {
      assert s + t == t;
    } else {
      assert (s + t)[1..] == s[1..] + t;
      OctetsOf(s[1..], t);
    }
  }

  // ---------------------------------------------------------------- what a body derives

  /** The renderer accepts the body, and the body gives no asset two texts. */
  predicate Renders(render: Renderer, body: Option<string>) {
    Written(body) ==>
      render(body.value).Some? &&
      var images := render(body.value).value.images;
      forall i, j | 0 <= i < j < |images| :: images[i].asset == images[j].asset ==> images[i].alt == images[j].alt
  }

  /** The derived columns and media rows are those of the body: its HTML, table of contents, preview and
      renderer version, and one row for every image it shows, with its text. */
  ghost predicate OfBody(render: Renderer, body: Option<string>, columns: Option<Columns>, media: map<string, string>) {
    if !Written(body) then columns == None && media == map[]
    else
      && render(body.value).Some? && columns == Some(render(body.value).value.columns)
      && (forall r | r in render(body.value).value.images :: r.asset in media && media[r.asset] == r.alt)
      && (forall a | a in media :: Reference(a, media[a]) in render(body.value).value.images)
  }

  lemma DeriveMeans(render: Renderer, body: Option<string>, requireNonEmpty: bool)
    ensures var derived := Derive(render, body, requireNonEmpty);
            && (derived.Ok? <==> Renders(render, body) && (requireNonEmpty ==> Written(body)))
            && (derived.Ok? ==> OfBody(render, body, derived.value.columns, AltTexts(derived.value.references)) &&
                                DistinctAssets(derived.value.references))
  {
    if Written(body) && render(body.value).Some? {
      var images := render(body.value).value.images;
      FirstAppearancesOrder(images);
      if Consistent(images) { RowsAreTheImages(images); }
    }
  }

  lemma StoredMeans(render: Renderer, db: Database, body: Option<string>)
    requires Written(body) && render(body.value).Some?
    ensures AllStored(db, FirstAppearances(render(body.value).value.images)) <==>
            forall r | r in render(body.value).value.images :: r.asset in db.assets
  {
    var images := render(body.value).value.images;
    FirstAppearancesMembers(images);
    if AllStored(db, FirstAppearances(images)) {
      forall r | r in images ensures r.asset in db.assets {
        assert Mentions(images, r.asset);
      }
    }
  }

  /** Every image the body shows is stored. */
  predicate ImagesStored(render: Renderer, db: Database, body: Option<string>) {
    Written(body) && render(body.value).Some? ==>
      forall r | r in render(body.value).value.images :: r.asset in db.assets
  }

  // ---------------------------------------------------------------- what a request leaves

  /** Nothing but article `id`, and what belongs to it, differs. */
  ghost predicate OnlyArticle(db: Database, next: Database, id: nat) {
    && next.assets == db.assets && next.projects == db.projects && next.articles.Keys == db.articles.Keys + {id}
    && (forall k | k in db.articles && k != id :: next.articles[k] == db.articles[k])
    && (forall k | k != id :: MediaOf(next, k) == MediaOf(db, k))
  }

  /** A committed request: the version it read and one more; a publication publishes the text it was given,
      under the address and time there were or else the generated ones; a save changes the text alone; a
      withdrawal changes the status alone. */
  ghost predicate Effected(render: Renderer, db: Database, next: Database, call: Call) {
    && call.article in db.articles && OnlyArticle(db, next, call.article)
    && var was, now := db.articles[call.article], next.articles[call.article];
       && was.version == call.request.version && now.version == was.version + 1
       && match call.request
          case Publish(title, body, _) =>
            && now.content.status == Published && now.content.title == title && now.content.body == body
            && (if was.content.address.Some? && was.content.firstPublished.Some? then
                  now.content.address == was.content.address && now.content.firstPublished == was.content.firstPublished
                else now.content.address == Some(call.ulid) && now.content.firstPublished == Some(call.now))
            && OfBody(render, body, now.content.columns, MediaOf(next, call.article))
          case Save(title, body, _) =>
            && now.content.status == was.content.status && now.content.title == title && now.content.body == body
            && now.content.address == was.content.address && now.content.firstPublished == was.content.firstPublished
            && OfBody(render, body, now.content.columns, MediaOf(next, call.article))
          case Withdraw(_) =>
            && was.content.status == Published && now.content.status == Draft
            && now.content.title == was.content.title && now.content.body == was.content.body
            && now.content.columns == was.content.columns && now.content.address == was.content.address
            && now.content.firstPublished == was.content.firstPublished
            && MediaOf(next, call.article) == MediaOf(db, call.article)
  }

  lemma CommitTouches(db: Database, id: nat, base: nat, write: Write)
    requires Commit(db, id, base, write).Ok?
    ensures var next := Commit(db, id, base, write).value;
            && OnlyArticle(db, next, id) && db.articles[id].version == base
            && (if write.Update? then
                  next.articles[id] == Row(write.content, base + 1) && MediaOf(next, id) == AltTexts(write.references)
                else
                  db.articles[id].content.status == Published && MediaOf(next, id) == MediaOf(db, id) &&
                  next.articles[id] == Row(db.articles[id].content.(status := Draft), base + 1))
  {}

  lemma CommittedMeans(render: Renderer, db: Database, call: Call)
    requires Atomic(render, db, Applied(call)).Ok?
    ensures Effected(render, db, Atomic(render, db, Applied(call)).value, call)
  {
    var row := db.articles[call.article];
    var write := Prepare(render, call.request, row, call.ulid, call.now).value;
    CommitTouches(db, call.article, row.version, write);
    if !call.request.Withdraw? { DeriveMeans(render, call.request.body, call.request.Publish?); }
  }

  /** When a request commits: the article is there, at the version the request names; a withdrawal finds it
      published; a title is good, a body has at most 2 MiB, renders, shows only stored assets, and has text
      if the article is or becomes public; a generated address is not taken. */
  ghost predicate Committable(render: Renderer, db: Database, call: Call) {
    && call.article in db.articles
    && var was := db.articles[call.article];
       && was.version == call.request.version
       && (if call.request.Withdraw? then was.content.status == Published
           else
             && GoodTitle(call.request.title)
             && (call.request.body.Some? ==> Utf8Size(call.request.body.value) <= 2_097_152)
             && (call.request.Publish? || was.content.status == Published ==> HasText(call.request.body))
             && Renders(render, call.request.body) && ImagesStored(render, db, call.request.body)
             && (call.request.Publish? && was.content.address.None? ==>
                   forall other | other in db.articles :: db.articles[other].content.address != Some(call.ulid)))
  }

  lemma PreparedWhen(render: Renderer, request: Request, current: Row, ulid: string, now: int)
    ensures Prepare(render, request, current, ulid, now).Ok? <==>
            && current.version == request.version
            && (if request.Withdraw? then current.content.status == Published
                else
                  && GoodTitle(request.title) && (request.body.Some? ==> Utf8Size(request.body.value) <= 2_097_152)
                  && (request.Publish? || current.content.status == Published ==> HasText(request.body))
                  && Renders(render, request.body))
  {
    if !request.Withdraw? {
      TitleMeans(request.title);
      TextMeans(request.body);
      DeriveMeans(render, request.body, request.Publish?);
    }
  }

  /** An address a sound row has is its own. */
  lemma OwnAddress(render: Renderer, db: Database, id: nat)
    requires Sound(render, db) && id in db.articles
    ensures AddressFree(db, id, db.articles[id].content.address)
  {}

  lemma GeneratedAddress(db: Database, id: nat, ulid: string)
    requires id in db.articles && db.articles[id].content.address.None?
    ensures AddressFree(db, id, Some(ulid)) <==>
            forall other | other in db.articles :: db.articles[other].content.address != Some(ulid)
  {}

  /** The address a prepared write carries. */
  lemma PreparedAddress(render: Renderer, request: Request, current: Row, ulid: string, now: int)
    requires Prepare(render, request, current, ulid, now).Ok? && !request.Withdraw?
    requires current.content.address.Some? <==> current.content.firstPublished.Some?
    ensures var write := Prepare(render, request, current, ulid, now).value;
            && write.Update? && write.references == Derive(render, request.body, request.Publish?).value.references
            && write.content.address == if request.Publish? && current.content.address.None? then Some(ulid)
                                        else current.content.address
  {}

  lemma CommitWhen(render: Renderer, db: Database, call: Call)
    requires Sound(render, db) && call.article in db.articles
    requires Prepare(render, call.request, db.articles[call.article], call.ulid, call.now).Ok?
    ensures var row := db.articles[call.article];
            var write := Prepare(render, call.request, row, call.ulid, call.now).value;
            Commit(db, call.article, row.version, write).Ok? <==>
              call.request.Withdraw? ||
              (ImagesStored(render, db, call.request.body) &&
               (call.request.Publish? && row.content.address.None? ==>
                  forall other | other in db.articles :: db.articles[other].content.address != Some(call.ulid)))
  {
    var row := db.articles[call.article];
    assert ArticleOk(render, row, MediaOf(db, call.article), db.assets);
    if !call.request.Withdraw? {
      PreparedAddress(render, call.request, row, call.ulid, call.now);
      OwnAddress(render, db, call.article);
      if row.content.address.None? { GeneratedAddress(db, call.article, call.ulid); }
      ReferencesStored(render, db, call.request.body, call.request.Publish?);
    }
  }

  lemma ReferencesStored(render: Renderer, db: Database, body: Option<string>, requireNonEmpty: bool)
    requires Derive(render, body, requireNonEmpty).Ok?
    ensures var refs := Derive(render, body, requireNonEmpty).value.references;
            (AllStored(db, refs) <==> ImagesStored(render, db, body)) && DistinctAssets(refs)
  {
    DeriveMeans(render, body, requireNonEmpty);
    if Written(body) { StoredMeans(render, db, body); }
  }

  /** On a sound database a request commits exactly when it can, and then leaves exactly its effect. */
  lemma CommitsWhenItCan(render: Renderer, db: Database, call: Call)
    requires Sound(render, db)
    ensures Atomic(render, db, Applied(call)).Ok? <==> Committable(render, db, call)
    ensures Atomic(render, db, Applied(call)).Ok? ==>
              Effected(render, db, Atomic(render, db, Applied(call)).value, call)
  {
    if call.article in db.articles {
      PreparedWhen(render, call.request, db.articles[call.article], call.ulid, call.now);
      if Prepare(render, call.request, db.articles[call.article], call.ulid, call.now).Ok? {
        CommitWhen(render, db, call);
      }
    }
    if Atomic(render, db, Applied(call)).Ok? { CommittedMeans(render, db, call); }
  }

  /** A new article is a draft at version 1, without address or publication time, with the title and body
      given and what the body derives; it needs a good title, a body of at most 2 MiB that renders and shows
      only stored assets, and an unused id. */
  lemma CreatedMeans(render: Renderer, db: Database, id: nat, title: string, body: Option<string>)
    ensures Create(render, db, id, title, body).Ok? <==>
            && GoodTitle(title) && (body.Some? ==> Utf8Size(body.value) <= 2_097_152)
            && Renders(render, body) && ImagesStored(render, db, body) && id !in db.articles && id !in db.media
    ensures Create(render, db, id, title, body).Ok? ==>
              var next := Create(render, db, id, title, body).value;
              && OnlyArticle(db, next, id) && next.articles[id].version == 1
              && var c := next.articles[id].content;
                 && c.status == Draft && c.title == title && c.body == body
                 && c.address == None && c.firstPublished == None && OfBody(render, body, c.columns, MediaOf(next, id))
  {
    CreatedWhen(render, db, id, title, body);
    DeriveMeans(render, body, false);
  }

  lemma CreatedWhen(render: Renderer, db: Database, id: nat, title: string, body: Option<string>)
    ensures Create(render, db, id, title, body).Ok? <==>
            && GoodTitle(title) && (body.Some? ==> Utf8Size(body.value) <= 2_097_152)
            && Renders(render, body) && ImagesStored(render, db, body) && id !in db.articles && id !in db.media
  {
    TitleMeans(title);
    DeriveMeans(render, body, false);
    if Derive(render, body, false).Ok? { ReferencesStored(render, db, body, false); }
  }

  /** The columns of every article in every reachable state are those its body derives, and so are its media. */
  lemma SoundDerives(render: Renderer, db: Database, id: nat)
    requires Sound(render, db) && id in db.articles
    ensures OfBody(render, db.articles[id].content.body, db.articles[id].content.columns, MediaOf(db, id))
    ensures db.articles[id].content.status == Published ==>
              HasText(db.articles[id].content.body) && db.articles[id].content.address.Some? &&
              db.articles[id].content.firstPublished.Some?
  {
    assert ArticleOk(render, db.articles[id], MediaOf(db, id), db.assets);
    DeriveMeans(render, db.articles[id].content.body, false);
    TextMeans(db.articles[id].content.body);
  }
}
