/** The title search of internal/article/admin.go and of the administrative list and count queries. */
module AdminSearch {
  import opened Common

  const MAX_QUERY := 200

  /** Whether the title column's collation treats two characters as the same. */
  type Collation = (char, char) -> bool

  // ---------------------------------------------------------------- SQL LIKE

  /** `s LIKE p ESCAPE '\'`: '%' is any text, '_' any character, '\' makes the next character literal
      (a last '\' stands for itself), and other characters are compared by the collation. */
  predicate Like(same: Collation, p: string, s: string)
    decreases |p|, |s|
  {
    if p == "" then s == ""
    else if p[0] == '%' then Like(same, p[1..], s) || (s != "" && Like(same, p, s[1..]))
    else if s == "" then false
    else if p[0] == '_' then Like(same, p[1..], s[1..])
    else if p[0] == '\\' && |p| >= 2 then same(p[1], s[0]) && Like(same, p[2..], s[1..])
    else same(p[0], s[0]) && Like(same, p[1..], s[1..])
  }

  predicate MatchesAt(same: Collation, title: string, query: string, at: nat) {
    at + |query| <= |title| && forall i | 0 <= i < |query| :: same(query[i], title[at + i])
  }

  /** The title contains the query literally. */
  predicate Contains(same: Collation, title: string, query: string) {
    exists at | 0 <= at <= |title| :: MatchesAt(same, title, query, at)
  }

  /** The two wildcards, and the escape. */
  lemma LikeWildcards(same: Collation, s: string)
    ensures Like(same, "%", s) && (Like(same, "_", s) <==> |s| == 1)
    ensures Like(same, "\\%", s) <==> |s| == 1 && same('%', s[0])
    ensures Like(same, "\\_", s) <==> |s| == 1 && same('_', s[0])
    ensures Like(same, "\\\\", s) <==> |s| == 1 && same('\\', s[0])
  {
    LikeAnything(same, s);
    assert "_"[1..] == "" && "\\%"[2..] == "" && "\\_"[2..] == "" && "\\\\"[2..] == "";
  }

  // ---------------------------------------------------------------- the pattern

  /** strings.ReplaceAll for a search text of one character. */
  function ReplaceAll(s: string, search: char, text: string): string {
    if s == "" then "" else (if s[0] == search then text else [s[0]]) + ReplaceAll(s[1..], search, text)
  }

  predicate Special(c: char) { c == '\\' || c == '%' || c == '_' }

  /** Every character that means something in a pattern, made literal. */
  function Escape(s: string): string {
    if s == "" then "" else (if Special(s[0]) then ['\\', s[0]] else [s[0]]) + Escape(s[1..])
  }

  /** The three replacements in the source's order. */
  function EscapeInOrder(value: string): string {
    ReplaceAll(ReplaceAll(ReplaceAll(value, '\\', "\\\\"), '%', "\\%"), '_', "\\_")
  }

  lemma {:induction false} ReplaceAllJoin(a: string, b: string, search: char, text: string)
    ensures ReplaceAll(a + b, search, text) == ReplaceAll(a, search, text) + ReplaceAll(b, search, text)
  {
    if a == "" {
      assert a + b == b;
    } else {
      assert (a + b)[1..] == a[1..] + b;
      ReplaceAllJoin(a[1..], b, search, text);
    }
  }

  lemma ReplaceAllShort(c: char, d: char, search: char, text: string)
    ensures ReplaceAll([c], search, text) == if c == search then text else [c]
    ensures ReplaceAll([c, d], search, text) == (if c == search then text else [c]) +
            (if d == search then text else [d])
  {
    assert [c][1..] == "" && [c, d][1..] == [d] && [d][1..] == "";
    assert ReplaceAll([d], search, text) == (if d == search then text else [d]) + ReplaceAll("", search, text);
  }

  lemma EscapeOne(c: char)
    ensures EscapeInOrder([c]) == if Special(c) then ['\\', c] else [c]
  {
    ReplaceAllShort(c, c, '\\', "\\\\");
    if c == '\\' {
      ReplaceAllShort('\\', '\\', '%', "\\%");
      ReplaceAllShort('\\', '\\', '_', "\\_");
    } else {
      ReplaceAllShort(c, c, '%', "\\%");
      ReplaceAllShort('\\', '%', '_', "\\_");
      ReplaceAllShort(c, c, '_', "\\_");
    }
  }

  /** Replacing '\' first, then '%', then '_' is the escape of every character by itself: no later
      replacement touches what an earlier one inserted. */
  lemma {:induction false} EscapeInOrderIsEscape(value: string)
    ensures EscapeInOrder(value) == Escape(value)
  {
    if value != "" {
      var c, rest := [value[0]], value[1..];
      EscapeInOrderIsEscape(rest);
      EscapeOne(value[0]);
      assert value == c + rest;
      var c1, rest1 := ReplaceAll(c, '\\', "\\\\"), ReplaceAll(rest, '\\', "\\\\");
      ReplaceAllJoin(c, rest, '\\', "\\\\");
      ReplaceAllJoin(c1, rest1, '%', "\\%");
      ReplaceAllJoin(ReplaceAll(c1, '%', "\\%"), ReplaceAll(rest1, '%', "\\%"), '_', "\\_");
    }
  }

  /** One character of an escaped text against one character of the title. */
  lemma LikeOne(same: Collation, c: char, p: string, s: string)
    ensures Like(same, (if Special(c) then ['\\', c] else [c]) + p, s) <==>
            s != "" && same(c, s[0]) && Like(same, p, s[1..])
  {
    if Special(c) {
      assert (['\\', c] + p)[2..] == p;
    } else {
      assert ([c] + p)[1..] == p;
    }
  }

  /** Under LIKE an escaped text matches itself, character by character, and nothing else. */
  lemma {:induction false} LikeEscaped(same: Collation, query: string, p: string, s: string)
    ensures Like(same, Escape(query) + p, s) <==> MatchesAt(same, s, query, 0) && Like(same, p, s[|query|..])
  {
    if query == "" {
      assert Escape(query) + p == p && s[0..] == s;
    } else {
      var c, rest := query[0], query[1..];
      var first := if Special(c) then ['\\', c] else [c];
      assert Escape(query) + p == first + (Escape(rest) + p);
      LikeOne(same, c, Escape(rest) + p, s);
      if s != "" {
        LikeEscaped(same, rest, p, s[1..]);
        if |query| <= |s| { assert s[1..][|rest|..] == s[|query|..]; }
        MatchesStep(same, s, query);
      }
    }
  }

  lemma MatchesStep(same: Collation, s: string, query: string)
    requires s != "" && query != ""
    ensures MatchesAt(same, s, query, 0) <==> same(query[0], s[0]) && MatchesAt(same, s[1..], query[1..], 0)
  {
    if same(query[0], s[0]) && MatchesAt(same, s[1..], query[1..], 0) {
      forall i | 0 <= i < |query| ensures same(query[i], s[i]) {
        if i > 0 { assert query[1..][i - 1] == query[i] && s[1..][i - 1] == s[i]; }
      }
    }
  }

  lemma {:induction false} LikeAnything(same: Collation, s: string)
    ensures Like(same, "%", s)
  {
    assert "%"[1..] == "";
    if s != "" { LikeAnything(same, s[1..]); }
  }

  /** A pattern without wildcards matches a text of its own length. */
  lemma LikeLiteral(same: Collation, query: string, s: string)
    ensures Like(same, Escape(query), s) <==>
            |s| == |query| && forall i | 0 <= i < |query| :: same(query[i], s[i])
  {
    assert Escape(query) + "" == Escape(query);
    LikeEscaped(same, query, "", s);
    if |query| <= |s| { assert s[|query|..] == "" <==> |s| == |query|; }
  }

  lemma {:induction false} LikeBehind(same: Collation, p: string, s: string)
    ensures Like(same, "%" + p, s) <==> exists at | 0 <= at <= |s| :: Like(same, p, s[at..])
  {
    assert ("%" + p)[1..] == p && s[0..] == s;
    if s != "" {
      LikeBehind(same, p, s[1..]);
      forall at | 0 <= at < |s| ensures s[1..][at..] == s[at + 1..] {}
      if exists at | 0 <= at <= |s| :: Like(same, p, s[at..]) {
        var at :| 0 <= at <= |s| && Like(same, p, s[at..]);
        if at > 0 { assert s[1..][at - 1..] == s[at..]; }
      }
    }
  }

  /** The pattern sent to the database matches a title exactly when the title contains the query. */
  lemma PatternMeansContains(same: Collation, query: string, title: string)
    ensures Like(same, "%" + EscapeInOrder(query) + "%", title) <==> Contains(same, title, query)
  {
    EscapeInOrderIsEscape(query);
    assert "%" + Escape(query) + "%" == "%" + (Escape(query) + "%");
    LikeBehind(same, Escape(query) + "%", title);
    forall at | 0 <= at <= |title|
      ensures Like(same, Escape(query) + "%", title[at..]) <==> MatchesAt(same, title, query, at)
    {
      LikeEscaped(same, query, "%", title[at..]);
      if at + |query| <= |title| {
        LikeAnything(same, title[at..][|query|..]);
        assert forall i | 0 <= i < |query| :: title[at..][i] == title[at + i];
      }
    }
  }

  // ---------------------------------------------------------------- filters, list and count

  datatype Error = InvalidStatus | InvalidSearch

  datatype Filters = Filters(status: Option<string>, pattern: Option<string>)

  function MakeAdminFilters(status: Option<string>, query: Option<string>): (r: Result<Filters, Error>)
    ensures r == Err(InvalidStatus) <==> status.Some? && status.value != "draft" && status.value != "published"
    ensures r.Err? <==> r == Err(InvalidStatus) || (query.Some? && |Trim(query.value)| > 200)
    ensures r.Ok? ==> r.value.status == status && (r.value.pattern.Some? <==> query.Some? && Trim(query.value) != "")
  {
    if status.Some? && status.value != "draft" && status.value != "published" then Err(InvalidStatus)
    else if query.None? then Ok(Filters(status, None))
    else
      var value := Trim(query.value);
      if value == "" then Ok(Filters(status, None))
      else if |value| > MAX_QUERY then Err(InvalidSearch)
      else Ok(Filters(status, Some("%" + EscapeInOrder(value) + "%")))
  }

  datatype Article = Article(id: nat, title: string, status: string, updatedAt: int)

  /** The WHERE clause shared by the two queries. */
  predicate Where(same: Collation, f: Filters, a: Article) {
    && (f.status.Some? ==> a.status == f.status.value)
    && (f.pattern.Some? ==> Like(same, f.pattern.value, a.title))
  }

  function Matching(same: Collation, f: Filters, table: seq<Article>): seq<Article> {
    if table == [] then []
    else (if Where(same, f, table[0]) then [table[0]] else []) + Matching(same, f, table[1..])
  }

  /** ORDER BY updated_at DESC, id DESC. */
  predicate Before(a: Article, b: Article) { a.updatedAt > b.updatedAt || (a.updatedAt == b.updatedAt && a.id >= b.id) }

  function InsertSorted(a: Article, list: seq<Article>): seq<Article> {
    if list == [] || Before(a, list[0]) then [a] + list else [list[0]] + InsertSorted(a, list[1..])
  }

  function Sorted(list: seq<Article>): seq<Article> {
    if list == [] then [] else InsertSorted(list[0], Sorted(list[1..]))
  }

  /** ListAdmin without a page limit, and CountAdmin. */
  function ListAll(same: Collation, f: Filters, table: seq<Article>): seq<Article> { Sorted(Matching(same, f, table)) }

  function Count(same: Collation, f: Filters, table: seq<Article>): nat { |Matching(same, f, table)| }

  predicate InOrder(list: seq<Article>) { forall i, j | 0 <= i < j < |list| :: Before(list[i], list[j]) }

  lemma {:induction false} InsertSortedKeeps(a: Article, list: seq<Article>)
    requires InOrder(list)
    ensures InOrder(InsertSorted(a, list)) && multiset(InsertSorted(a, list)) == multiset{a} + multiset(list)
  {
    if list == [] {
    } else if Before(a, list[0]) {
      assert forall j | 0 <= j < |list| :: Before(list[0], list[j]);
    } else {
      InsertSortedKeeps(a, list[1..]);
      var rest := InsertSorted(a, list[1..]);
      assert list == [list[0]] + list[1..];
      forall j | 0 <= j < |rest| ensures Before(list[0], rest[j]) {
        assert rest[j] in multiset(rest);
        assert rest[j] == a || rest[j] in list[1..];
      }
    }
  }

  lemma {:induction false} SortedKeeps(list: seq<Article>)
    ensures InOrder(Sorted(list)) && multiset(Sorted(list)) == multiset(list)
  {
    if list != [] {
      SortedKeeps(list[1..]);
      InsertSortedKeeps(list[0], Sorted(list[1..]));
      assert list == [list[0]] + list[1..];
    }
  }

  lemma {:induction false} MatchingIsWhere(same: Collation, f: Filters, table: seq<Article>, a: Article)
    ensures multiset(Matching(same, f, table))[a] == if Where(same, f, a) then multiset(table)[a] else 0
  {
    if table != [] {
      MatchingIsWhere(same, f, table[1..], a);
      assert table == [table[0]] + table[1..];
    }
  }

  /** What an administrator finds: the unpaged list holds, newest first, exactly the articles with the
      asked status whose title contains the trimmed query, each as often as the table, and the count is
      its length. */
  lemma SearchFinds(same: Collation, status: Option<string>, query: Option<string>, table: seq<Article>, a: Article)
    requires MakeAdminFilters(status, query).Ok?
    ensures var f := MakeAdminFilters(status, query).value;
            var list := ListAll(same, f, table);
            && Count(same, f, table) == |list|
            && (forall i, j | 0 <= i < j < |list| :: list[i].updatedAt > list[j].updatedAt ||
                  (list[i].updatedAt == list[j].updatedAt && list[i].id >= list[j].id))
            && multiset(list)[a] ==
               if (status.Some? ==> a.status == status.value) &&
                  (query.Some? && Trim(query.value) != "" ==> Contains(same, a.title, Trim(query.value)))
               then multiset(table)[a] else 0
  {
    var f := MakeAdminFilters(status, query).value;
    SortedKeeps(Matching(same, f, table));
    assert |multiset(ListAll(same, f, table))| == |multiset(Matching(same, f, table))|;
    MatchingIsWhere(same, f, table, a);
    if query.Some? { PatternMeansContains(same, Trim(query.value), a.title); }
  }
}
