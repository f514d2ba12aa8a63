/** Entity tags, cache keys and If-None-Match of internal/cache/page.go. The digest is a parameter;
    what is assumed of it is stated where it is needed. */
module PageTags {
  import opened Common

  type Digest = seq<Byte> -> string

  const HEX_LENGTH := 64

  /** A collision-free digest written as 64 characters. */
  ghost predicate CollisionFree(hash: Digest) {
    && (forall x :: |hash(x)| == HEX_LENGTH)
    && (forall x, y :: hash(x) == hash(y) ==> x == y)
  }

  /** etag: the version is part of the tag when there is one. */
  function ETag(hash: Digest, version: string, body: seq<Byte>): string {
    if version == "" then "\"" + hash(body) + "\"" else "\"v" + version + "-" + hash(body) + "\""
  }

  /** A tag is an opaque-tag of RFC 9110, section 8.8.3: quoted, with no quote inside; with a version it
      begins with a v, the version and a hyphen, and it ends with the digest of the body. */
  lemma TagIsQuoted(hash: Digest, version: string, body: seq<Byte>)
    requires '"' !in version && '"' !in hash(body)
    ensures var tag := ETag(hash, version, body); var n := |tag|;
            && n >= 2 && tag[0] == '"' && tag[n - 1] == '"' && '"' !in tag[1..n - 1]
            && tag[1..n - 1] == (if version == "" then "" else ['v'] + version + ['-']) + hash(body)
  {
    var tag := ETag(hash, version, body);
    assert tag[1..|tag| - 1] == (if version == "" then "" else ['v'] + version + ['-']) + hash(body);
  }

  /** A tag names one version and one body. */
  lemma ETagInjective(hash: Digest, v: string, b: seq<Byte>, w: string, c: seq<Byte>)
    requires CollisionFree(hash) && ETag(hash, v, b) == ETag(hash, w, c)
    ensures v == w && b == c
  {
    var s, t := ETag(hash, v, b), ETag(hash, w, c);
    var n := |s| - 1 - HEX_LENGTH;
    assert |s| == if v == "" then HEX_LENGTH + 2 else HEX_LENGTH + 4 + |v|;
    assert |t| == if w == "" then HEX_LENGTH + 2 else HEX_LENGTH + 4 + |w|;
    assert s[n..|s| - 1] == hash(b);
    assert t[n..|t| - 1] == hash(c);
    if v != "" {
      assert s[2..2 + |v|] == v;
      assert t[2..2 + |w|] == w;
    }
  }

  /** PageKey, with the trimmed prefix in place. */
  function PageKey(hash: Digest, prefix: string, version: string, target: seq<Byte>): string {
    prefix + ":page:" + version + ":" + hash(target)
  }

  /** Keys of one store collide only for the same version and the same request target. */
  lemma PageKeyInjective(hash: Digest, prefix: string, v: string, t: seq<Byte>, w: string, u: seq<Byte>)
    requires CollisionFree(hash) && PageKey(hash, prefix, v, t) == PageKey(hash, prefix, w, u)
    ensures v == w && t == u
  {
    var a, b := PageKey(hash, prefix, v, t), PageKey(hash, prefix, w, u);
    var p := |prefix| + 6;
    assert |a| == p + |v| + 1 + HEX_LENGTH && |b| == p + |w| + 1 + HEX_LENGTH;
    assert a[|a| - HEX_LENGTH..] == hash(t);
    assert b[|b| - HEX_LENGTH..] == hash(u);
    assert a[p..p + |v|] == v;
    assert b[p..p + |w|] == w;
  }

  // ---------------------------------------------------------------- If-None-Match

  function StripWeak(tag: string): string { if "W/" <= tag then tag[2..] else tag }

  /** strings.Split(header, ","). */
  function Split(header: string): (parts: seq<string>)
    ensures parts != []
  {
    if header == "" then [""]
    else if header[0] == ',' then [""] + Split(header[1..])
    else
      var rest := Split(header[1..]);
      [[header[0]] + rest[0]] + rest[1..]
  }

  predicate Accepts(candidate: string, current: string) {
    candidate == "*" || StripWeak(candidate) == StripWeak(current)
  }

  /** matchesETag. */
  predicate MatchesETag(header: string, current: string) {
    current != "" && Trim(header) != "" && exists part | part in Split(header) :: Accepts(Trim(part), current)
  }

  /** A client's list of tags as it is sent. */
  function Join(tags: seq<string>): string {
    if tags == [] then "" else if |tags| == 1 then tags[0] else tags[0] + ", " + Join(tags[1..])
  }

  ghost predicate Listable(tag: string) { tag != "" && ',' !in tag && Trimmed(tag) }

  lemma {:induction false} SplitPlain(s: string)
    requires ',' !in s
    ensures Split(s) == [s]
  {
    if s != "" {
      SplitPlain(s[1..]);
      assert [s[0]] + s[1..] == s;
    }
  }

  lemma {:induction false} SplitAfterPlain(s: string, rest: string)
    requires ',' !in s
    ensures Split(s + "," + rest) == [s] + Split(rest)
  {
    if s == "" {
      assert s + "," + rest == "," + rest;
      assert ("," + rest)[1..] == rest;
    } else {
      assert (s + "," + rest)[1..] == s[1..] + "," + rest;
      SplitAfterPlain(s[1..], rest);
      assert [s[0]] + s[1..] == s;
    }
  }

  lemma SplitSpaced(rest: string)
    ensures Split(" " + rest) == [" " + Split(rest)[0]] + Split(rest)[1..]
  {
    assert (" " + rest)[1..] == rest;
  }

  /** The first tag of a longer list, and the parts of the rest. */
  lemma SplitFirst(tag: string, rest: string)
    requires ',' !in tag
    ensures Split(tag + ", " + rest) == [tag, " " + Split(rest)[0]] + Split(rest)[1..]
  {
    assert tag + ", " + rest == tag + "," + (" " + rest);
    SplitAfterPlain(tag, " " + rest);
    SplitSpaced(rest);
    assert [tag] + ([" " + Split(rest)[0]] + Split(rest)[1..]) == [tag, " " + Split(rest)[0]] + Split(rest)[1..];
  }

  /** The candidates of a joined list are exactly the tags of the list. */
  lemma {:induction false} SplitJoin(tags: seq<string>)
    requires tags != [] && forall t | t in tags :: Listable(t)
    ensures var parts := Split(Join(tags));
            && |parts| == |tags| && (parts[0] == tags[0])
            && (forall i | 0 <= i < |tags| :: Trim(parts[i]) == tags[i])
  {
    assert tags[0] in tags;
    TrimKeepsTrimmed(tags[0]);
    if |tags| == 1 {
      SplitPlain(tags[0]);
    } else {
      var rest := Join(tags[1..]);
      SplitFirst(tags[0], rest);
      SplitJoin(tags[1..]);
      assert tags[1] in tags;
      TrimKeepsTrimmed(tags[1]);
      assert Split(rest)[0] == tags[1];
      var parts := Split(Join(tags));
      forall i | 2 <= i < |tags| ensures Trim(parts[i]) == tags[i] {
        assert tags[i] == tags[1..][i - 1] && parts[i] == Split(rest)[i - 1];
      }
    }
  }

  /** A list of tags matches exactly when it contains the wildcard or the current tag,
      compared weakly. */
  lemma ListMatches(tags: seq<string>, current: string)
    requires current != "" && forall t | t in tags :: Listable(t)
    ensures MatchesETag(Join(tags), current) <==> exists t | t in tags :: Accepts(t, current)
  {
    if tags != [] {
      SplitJoin(tags);
      var parts := Split(Join(tags));
      JoinNotBlank(tags);
      if exists t | t in tags :: Accepts(t, current) {
        var t :| t in tags && Accepts(t, current);
        var i := IndexOf(tags, t);
        assert parts[i] in parts && Accepts(Trim(parts[i]), current);
      }
      if MatchesETag(Join(tags), current) {
        var part :| part in parts && Accepts(Trim(part), current);
        var i := IndexOf(parts, part);
        assert tags[i] in tags;
      }
    }
  }

  lemma JoinNotBlank(tags: seq<string>)
    requires tags != [] && forall t | t in tags :: Listable(t)
    ensures Trim(Join(tags)) != ""
  {
    var s := Join(tags);
    assert tags[0] in tags;
    assert s != "" && s[0] == tags[0][0];
    assert TrimLeft(s) == s;
    TrimRightKeepsFirst(s);
  }

  lemma {:induction false} TrimRightKeepsFirst(s: string)
    requires s != "" && !IsSpace(s[0])
    ensures TrimRight(s) != ""
  {
    if |s| > 1 { TrimRightKeepsFirst(s[..|s| - 1]); }
  }

  lemma {:induction false} BlankIsSpace(s: string)
    requires Trim(s) == ""
    ensures forall c | c in s :: IsSpace(c)
  {
    if s != [] {
      if IsSpace(s[0]) {
        BlankIsSpace(s[1..]);
        assert s == [s[0]] + s[1..];
      } else {
        TrimRightKeepsFirst(s);
      }
    }
  }

  /** One of the candidates is the wildcard. */
  predicate Wildcard(header: string) { exists part | part in Split(header) :: Trim(part) == "*" }

  /** `tag` is the tag of this version and body, and of no other. */
  ghost predicate Identifies(hash: Digest, tag: string, version: string, body: seq<Byte>) {
    tag == ETag(hash, version, body) && forall w, c :: tag == ETag(hash, w, c) ==> w == version && c == body
  }

  /** One of the candidates, weak or strong, identifies this version and body. */
  ghost predicate Lists(hash: Digest, header: string, version: string, body: seq<Byte>) {
    exists part | part in Split(header) :: Identifies(hash, StripWeak(Trim(part)), version, body)
  }

  /** Whatever header a client sends, it gets 304 exactly when it sends the wildcard, or the tag, weak or
      strong, that only this version of this body has. */
  lemma NotModifiedMeansListed(hash: Digest, header: string, version: string, body: seq<Byte>)
    requires CollisionFree(hash)
    ensures MatchesETag(header, ETag(hash, version, body)) <==> Wildcard(header) || Lists(hash, header, version, body)
  {
    var tag := ETag(hash, version, body);
    assert tag[0] == '"' && StripWeak(tag) == tag;
    forall w, c | tag == ETag(hash, w, c) ensures w == version && c == body {
      ETagInjective(hash, w, c, version, body);
    }
    assert Identifies(hash, tag, version, body);
    assert forall part :: Accepts(Trim(part), tag) <==> Trim(part) == "*" || StripWeak(Trim(part)) == tag by {
      assert StripWeak("*") == "*";
    }
    if Trim(header) == "" {
      BlankIsSpace(header);
      SplitPlain(header);
    }
  }

  /** A representation a client holds: the cache version and body it was tagged with, and whether the
      client lists its tag as a weak one. */
  datatype Held = Held(version: string, body: seq<Byte>, weak: bool)

  function Tag(hash: Digest, h: Held): string { (if h.weak then "W/" else "") + ETag(hash, h.version, h.body) }

  function Tags(hash: Digest, held: seq<Held>): (tags: seq<string>)
    ensures |tags| == |held| && forall i | 0 <= i < |held| :: tags[i] == Tag(hash, held[i])
  {
    seq(|held|, i requires 0 <= i < |held| => Tag(hash, held[i]))
  }

  lemma TagListable(hash: Digest, h: Held)
    requires ',' !in hash(h.body) && ',' !in h.version
    ensures Listable(Tag(hash, h))
  {
    var tag := Tag(hash, h);
    assert tag[0] == (if h.weak then 'W' else '"') && tag[|tag| - 1] == '"';
  }

  lemma TagAccepts(hash: Digest, h: Held, version: string, body: seq<Byte>)
    requires CollisionFree(hash)
    ensures Accepts(Tag(hash, h), ETag(hash, version, body)) <==> h.version == version && h.body == body
  {
    var s, t := ETag(hash, h.version, h.body), ETag(hash, version, body);
    assert s[0] == '"' && t[0] == '"';
    assert Tag(hash, h)[if h.weak then 2 else 0..] == s;
    assert StripWeak(Tag(hash, h)) == s;
    if s == t { ETagInjective(hash, h.version, h.body, version, body); }
  }

  predicate Holds(held: seq<Held>, version: string, body: seq<Byte>) {
    exists h | h in held :: h.version == version && h.body == body
  }

  /** A client that lists the tags of what it holds, strong or weak, gets 304 exactly when it holds this
      version of this body. */
  lemma NotModifiedIffHeld(hash: Digest, held: seq<Held>, version: string, body: seq<Byte>)
    requires CollisionFree(hash)
    requires forall x :: ',' !in hash(x)
    requires forall h | h in held :: ',' !in h.version
    ensures MatchesETag(Join(Tags(hash, held)), ETag(hash, version, body)) <==> Holds(held, version, body)
  {
    var tags, tag := Tags(hash, held), ETag(hash, version, body);
    forall i | 0 <= i < |held|
      ensures Listable(tags[i]) && (Accepts(tags[i], tag) <==> held[i].version == version && held[i].body == body)
    {
      assert held[i] in held;
      TagListable(hash, held[i]);
      TagAccepts(hash, held[i], version, body);
    }
    ListMatches(tags, tag);
    if Holds(held, version, body) {
      var h :| h in held && h.version == version && h.body == body;
      assert tags[IndexOf(held, h)] in tags;
    }
  }
}
