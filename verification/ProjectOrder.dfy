/** The public project order: internal/project/repository.go over the statements
    of internal/database/dbgen/projects.sql.go and the schema they run against. */
module ProjectOrder {
  import opened Common

  type Id = nat

  datatype Status = Hidden | Public

  datatype Fields = Fields(name: string, githubUrl: Option<string>, imageAssetId: Option<string>)

  datatype Row = Row(fields: Fields, status: Status, sortOrder: Option<nat>, version: nat)

  type Table = map<Id, Row>

  datatype Error = NotFound | Conflict | ValidationFailed | Storage

  /** What the statements run against: whether `sort_order` carries a unique key, and whether
      an UPDATE reports matched rows (true) or changed rows (false). */
  datatype Config = Config(uniqueKey: bool, foundRows: bool)

  /** The migration declares the key and the driver configuration leaves the row count alone. */
  const DEPLOYED := Config(true, false)

  /** What one UPDATE returns. */
  datatype Exec = Affected(rows: nat) | Failed

  // ---------------------------------------------------------------- statements

  ghost predicate Holds(t: Table, id: Id, value: nat) {
    id in t && t[id].sortOrder == Some(value)
  }

  predicate Taken(t: Table, id: Id, value: nat) {
    exists other | other in t :: other != id && t[other].sortOrder == Some(value)
  }

  /** SetProjectSortOrder and SetProjectSortOrderTemporary: the same UPDATE under two names. */
  function SetSortOrder(c: Config, t: Table, id: Id, value: nat): (Exec, Table) {
    if id !in t || t[id].status != Public then (Affected(0), t)
    else if c.uniqueKey && Taken(t, id, value) then (Failed, t)
    else (Affected(if c.foundRows || t[id].sortOrder != Some(value) then 1 else 0),
          t[id := t[id].(sortOrder := Some(value))])
  }

  function PublicIds(t: Table): set<Id> { set id | id in t && t[id].status == Public }

  function SortKey(r: Row): int { if r.sortOrder.Some? then r.sortOrder.value else -1 }

  /** ORDER BY sort_order ASC, id ASC; NULL sorts first. */
  predicate Before(t: Table, a: Id, b: Id)
    requires a in t && b in t
  {
    SortKey(t[a]) < SortKey(t[b]) || (SortKey(t[a]) == SortKey(t[b]) && a <= b)
  }

  predicate First(t: Table, ids: set<Id>, id: Id)
    requires ids <= t.Keys
  {
    id in ids && forall other | other in ids :: Before(t, id, other)
  }

  lemma FirstWith(t: Table, ids: set<Id>, x: Id, y: Id)
    requires ids <= t.Keys && x in ids && First(t, ids - {x}, y)
    ensures First(t, ids, if Before(t, x, y) then x else y)
  {
    var first := if Before(t, x, y) then x else y;
    forall other | other in ids ensures Before(t, first, other) {
      if other != x { assert other in ids - {x}; }
    }
  }

  lemma {:induction false} FirstExists(t: Table, ids: set<Id>)
    requires ids != {} && ids <= t.Keys
    ensures exists id :: First(t, ids, id)
  {
    var x :| x in ids;
    if ids == {x} {
      assert First(t, ids, x);
    } else {
      FirstExists(t, ids - {x});
      var y :| First(t, ids - {x}, y);
      FirstWith(t, ids, x, y);
    }
  }

  function Listing(t: Table, ids: set<Id>): (s: seq<Id>)
    requires ids <= t.Keys
    ensures Elements(s) == ids && NoDuplicates(s)
  {
    if ids == {} then []
    else
      FirstExists(t, ids);
      var id :| First(t, ids, id);
      var rest := Listing(t, ids - {id});
      assert Elements([id] + rest) == {id} + Elements(rest);
      assert id !in Elements(rest);
      [id] + rest
  }

  /** ListPublicProjectIDsForUpdate. */
  function ListPublic(t: Table): seq<Id> { Listing(t, PublicIds(t)) }

  /** GetMaxPublicProjectSortOrder: the last row of the ascending listing. */
  function MaxSortOrder(t: Table): Option<nat> {
    var ids := ListPublic(t);
    assert Elements(ids) == PublicIds(t);
    if ids == [] then None else
      assert ids[|ids| - 1] in Elements(ids); t[ids[|ids| - 1]].sortOrder
  }

  // ---------------------------------------------------------------- the plain sequence

  /** `t` stores the sequence `ids`: public rows are exactly its members, ranked 1..N, and
      hidden rows have no rank. */
  ghost predicate Represents(t: Table, ids: seq<Id>) {
    && NoDuplicates(ids)
    && PublicIds(t) == Elements(ids)
    && (forall i :: 0 <= i < |ids| ==> Holds(t, ids[i], i + 1))
    && (forall id :: id in t && t[id].status == Hidden ==> t[id].sortOrder == None)
  }

  /** The rows of `ids` ranked first, first+1, ...; everything else as in `t`. */
  function Ranked(t: Table, ids: seq<Id>, first: nat): Table {
    map id | id in t :: if id in ids then t[id].(sortOrder := Some(first + IndexOf(ids, id))) else t[id]
  }

  /** Listing a suffix of ranked rows gives that suffix back. */
  lemma {:induction false} ListingIsRankOrder(t: Table, ids: seq<Id>)
    requires NoDuplicates(ids) && Elements(ids) <= t.Keys
    requires forall i, j :: 0 <= i < j < |ids| ==> SortKey(t[ids[i]]) < SortKey(t[ids[j]])
    ensures Listing(t, Elements(ids)) == ids
  {
    if ids == [] {
    } else {
      var all := Elements(ids);
      assert ids[0] in all;
      FirstExists(t, all);
      var id := Listing(t, all)[0];
      assert ids[0] in all && id in all;
      assert Before(t, id, ids[0]);
      assert id == ids[0];
      assert all - {id} == Elements(ids[1..]);
      ListingIsRankOrder(t, ids[1..]);
    }
  }

  /** A stored order is recovered by the listing query, so a table stores at most one. */
  lemma {:induction false} StoredOrderIsListed(t: Table, ids: seq<Id>)
    requires Represents(t, ids)
    ensures ListPublic(t) == ids
    ensures MaxSortOrder(t) == if ids == [] then None else Some(|ids|)
  {
    forall i | 0 <= i < |ids| ensures ids[i] in t && SortKey(t[ids[i]]) == i + 1 {
      assert Holds(t, ids[i], i + 1);
    }
    ListingIsRankOrder(t, ids);
  }

  lemma PrefixIndex(ids: seq<Id>, n: nat, id: Id)
    requires NoDuplicates(ids) && n <= |ids| && id in ids
    ensures id in ids[..n] <==> IndexOf(ids, id) < n
    ensures id in ids[..n] ==> IndexOf(ids[..n], id) == IndexOf(ids, id)
  {
    assert IndexOf(ids, id) < n ==> ids[..n][IndexOf(ids, id)] == id;
  }

  // ---------------------------------------------------------------- one renumbering pass

  /** What a pass leaves when no statement fails by itself: row i of `ids` receives first+i,
      and every UPDATE must report exactly one row. */
  function Pass(c: Config, t: Table, ids: seq<Id>, first: nat): Option<Table> {
    if ids == [] then Some(t)
    else
      var (e, t') := SetSortOrder(c, t, ids[0], first);
      if e == Affected(1) then Pass(c, t', ids[1..], first + 1) else None
  }

  lemma {:induction false} PassAppend(c: Config, t: Table, ids: seq<Id>, first: nat, last: Id)
    ensures Pass(c, t, ids + [last], first) ==
            match Pass(c, t, ids, first)
            case None => None
            case Some(m) =>
              var (e, t') := SetSortOrder(c, m, last, first + |ids|);
              if e == Affected(1) then Some(t') else None
  {
    if ids == [] {
    } else {
      var (e, t') := SetSortOrder(c, t, ids[0], first);
      assert (ids + [last])[1..] == ids[1..] + [last];
      if e == Affected(1) {
        PassAppend(c, t', ids[1..], first + 1, last);
      }
    }
  }

  /** Every prefix of a pass that completes also completes. */
  lemma {:induction false} PassPrefix(c: Config, t: Table, ids: seq<Id>, first: nat, n: nat)
    requires n <= |ids| && Pass(c, t, ids[..n], first) == None
    ensures Pass(c, t, ids, first) == None
    decreases |ids| - n
  {
    if n < |ids| {
      assert ids[..n + 1] == ids[..n] + [ids[n]];
      PassAppend(c, t, ids[..n], first, ids[n]);
      PassPrefix(c, t, ids, first, n + 1);
    } else {
      assert ids[..n] == ids;
    }
  }

  ghost predicate AllPublic(t: Table, ids: seq<Id>) { forall id | id in ids :: id in t && t[id].status == Public }

  /** No row holds a value in first..first+n-1. */
  ghost predicate Unused(t: Table, first: nat, n: nat) {
    forall id: Id, v: nat | Holds(t, id, v) :: !(first <= v < first + n)
  }

  /** No write of the pass would meet the value it writes: each one changes its row. */
  ghost predicate EveryWriteChanges(t: Table, ids: seq<Id>, first: nat) {
    forall i | 0 <= i < |ids| :: !Holds(t, ids[i], first + i)
  }

  lemma RankedCons(t: Table, ids: seq<Id>, first: nat)
    requires ids != [] && NoDuplicates(ids) && AllPublic(t, ids)
    ensures var t' := t[ids[0] := t[ids[0]].(sortOrder := Some(first))];
            Ranked(t', ids[1..], first + 1) == Ranked(t, ids, first)
  {
    var t' := t[ids[0] := t[ids[0]].(sortOrder := Some(first))];
    var a, b := Ranked(t', ids[1..], first + 1), Ranked(t, ids, first);
    assert a.Keys == b.Keys;
    forall id | id in t ensures a[id] == b[id] {
      if id == ids[0] {
      } else if id in ids {
        assert IndexOf(ids, id) == 1 + IndexOf(ids[1..], id);
      }
    }
  }

  /** A pass over a free range of values completes under every configuration. */
  lemma {:induction false} FreeRangePass(c: Config, t: Table, ids: seq<Id>, first: nat)
    requires NoDuplicates(ids) && AllPublic(t, ids) && Unused(t, first, |ids|)
    ensures Pass(c, t, ids, first) == Some(Ranked(t, ids, first))
  {
    if ids == [] {
      assert Ranked(t, ids, first) == t;
    } else {
      var t' := t[ids[0] := t[ids[0]].(sortOrder := Some(first))];
      assert !Taken(t, ids[0], first) by {
        if Taken(t, ids[0], first) {
          var o :| o in t && o != ids[0] && t[o].sortOrder == Some(first);
          assert Holds(t, o, first);
        }
      }
      assert !Holds(t, ids[0], first);
      assert SetSortOrder(c, t, ids[0], first) == (Affected(1), t');
      forall id: Id, v: nat | Holds(t', id, v) ensures !(first + 1 <= v < first + |ids|) {
        if id != ids[0] { assert Holds(t, id, v); }
      }
      assert AllPublic(t', ids[1..]);
      FreeRangePass(c, t', ids[1..], first + 1);
      RankedCons(t, ids, first);
    }
  }

  /** Without the unique key only unchanged rows can stop a pass. */
  lemma {:induction false} KeylessPass(c: Config, t: Table, ids: seq<Id>, first: nat)
    requires !c.uniqueKey && NoDuplicates(ids) && AllPublic(t, ids)
    requires c.foundRows || EveryWriteChanges(t, ids, first)
    ensures Pass(c, t, ids, first) == Some(Ranked(t, ids, first))
  {
    if ids == [] {
      assert Ranked(t, ids, first) == t;
    } else {
      var t' := t[ids[0] := t[ids[0]].(sortOrder := Some(first))];
      assert !Holds(t, ids[0], first + 0) || c.foundRows;
      assert SetSortOrder(c, t, ids[0], first) == (Affected(1), t');
      assert AllPublic(t', ids[1..]);
      if !c.foundRows {
        forall i | 0 <= i < |ids[1..]| ensures !Holds(t', ids[1..][i], first + 1 + i) {
          assert !Holds(t, ids[i + 1], first + (i + 1));
        }
      }
      KeylessPass(c, t', ids[1..], first + 1);
      RankedCons(t, ids, first);
    }
  }

  lemma RankedRanks(t: Table, ids: seq<Id>, first: nat)
    requires NoDuplicates(ids) && AllPublic(t, ids)
    ensures Ranked(t, ids, first).Keys == t.Keys && PublicIds(Ranked(t, ids, first)) == PublicIds(t)
    ensures forall i | 0 <= i < |ids| :: Holds(Ranked(t, ids, first), ids[i], first + i)
    ensures forall id: Id, v: nat | id !in ids && Holds(Ranked(t, ids, first), id, v) :: Holds(t, id, v)
  {
    forall i | 0 <= i < |ids| ensures Holds(Ranked(t, ids, first), ids[i], first + i) {
      assert ids[i] in ids && IndexOf(ids, ids[i]) == i;
    }
  }

  lemma RankedTwice(t: Table, ids: seq<Id>, a: nat, b: nat)
    ensures Ranked(Ranked(t, ids, a), ids, b) == Ranked(t, ids, b)
  {}

  /** Both passes from a table whose every public row is one of `ids` end at 1..N, given only
      that the temporary pass completes. */
  lemma FinalPass(c: Config, t: Table, ids: seq<Id>)
    requires NoDuplicates(ids) && PublicIds(t) == Elements(ids)
    requires forall id | id in t && t[id].status == Hidden :: t[id].sortOrder == None
    ensures Pass(c, Ranked(t, ids, |ids| + 1), ids, 1) == Some(Ranked(t, ids, 1))
    ensures Represents(Ranked(t, ids, 1), ids)
  {
    assert AllPublic(t, ids) by { forall id | id in ids ensures id in PublicIds(t) { assert id in Elements(ids); } }
    var n := |ids|;
    var mid := Ranked(t, ids, n + 1);
    RankedRanks(t, ids, n + 1);
    RankedRanks(t, ids, 1);
    forall id: Id, v: nat | Holds(mid, id, v) ensures !(1 <= v < 1 + n) {
      assert id in PublicIds(t);
      assert id in Elements(ids);
      var i := IndexOf(ids, id);
      assert Holds(mid, ids[i], n + 1 + i);
    }
    FreeRangePass(c, mid, ids, 1);
    RankedTwice(t, ids, n + 1, 1);
    var done := Ranked(t, ids, 1);
    forall i | 0 <= i < n ensures Holds(done, ids[i], i + 1) { assert Holds(done, ids[i], 1 + i); }
    forall id | id in done && done[id].status == Hidden ensures done[id].sortOrder == None {
      assert id !in Elements(ids);
    }
  }

  // ---------------------------------------------------------------- reordering

  ghost predicate Permutation(a: seq<Id>, b: seq<Id>) {
    NoDuplicates(a) && NoDuplicates(b) && Elements(a) == Elements(b)
  }

  lemma SameLength(a: seq<Id>, b: seq<Id>)
    requires Permutation(a, b)
    ensures |a| == |b|
  {
    ElementsSize(a);
    ElementsSize(b);
  }

  /** Reordering: the temporary range is free and so is the final one. */
  lemma ReorderPasses(c: Config, t: Table, current: seq<Id>, ids: seq<Id>)
    requires Represents(t, current) && Permutation(current, ids)
    ensures Pass(c, t, ids, |ids| + 1) == Some(Ranked(t, ids, |ids| + 1))
    ensures Pass(c, Ranked(t, ids, |ids| + 1), ids, 1) == Some(Ranked(t, ids, 1))
    ensures Represents(Ranked(t, ids, 1), ids)
  {
    SameLength(current, ids);
    ReorderStartsFree(t, current, ids);
    FreeRangePass(c, t, ids, |ids| + 1);
    FinalPass(c, t, ids);
  }

  lemma ReorderStartsFree(t: Table, current: seq<Id>, ids: seq<Id>)
    requires Represents(t, current) && Permutation(current, ids)
    ensures AllPublic(t, ids) && Unused(t, |ids| + 1, |ids|)
  {
    SameLength(current, ids);
    forall id | id in ids ensures id in t && t[id].status == Public {
      assert id in Elements(ids);
      assert id in PublicIds(t);
    }
    forall id: Id, v: nat | Holds(t, id, v) ensures v <= |ids| {
      RankBound(t, current, id, v);
    }
  }

  /** In a stored order every rank belongs to its position. */
  lemma RankBound(t: Table, ids: seq<Id>, id: Id, v: nat)
    requires Represents(t, ids) && Holds(t, id, v)
    ensures 1 <= v <= |ids| && ids[v - 1] == id
  {
    assert id in PublicIds(t);
    assert id in Elements(ids);
    var i := IndexOf(ids, id);
    assert Holds(t, ids[i], i + 1);
  }

  /** Two rows of `t` hold `value`. */
  ghost predicate Shared(t: Table, value: nat) {
    exists a, b :: a != b && Holds(t, a, value) && Holds(t, b, value)
  }

  ghost predicate NoRankShared(t: Table) { forall v: nat :: !Shared(t, v) }

  /** A collision-free pass: after any number of writes no value is shared, if none was before
      and the values to be written are free. */
  lemma NoneShared(t: Table, ids: seq<Id>, first: nat, written: nat)
    requires written <= |ids| && NoDuplicates(ids) && AllPublic(t, ids) && Unused(t, first, |ids|)
    requires NoRankShared(t)
    ensures NoRankShared(Ranked(t, ids[..written], first))
  {
    var done := ids[..written];
    var t' := Ranked(t, done, first);
    assert AllPublic(t, done) by { forall id | id in done ensures id in ids {} }
    RankedRanks(t, done, first);
    forall v: nat, a: Id, b: Id | Holds(t', a, v) && Holds(t', b, v) ensures a == b {
      RankedOrigin(t, done, first, a, v);
      RankedOrigin(t, done, first, b, v);
      assert a != b && Holds(t, a, v) && Holds(t, b, v) ==> Shared(t, v);
    }
  }

  /** A value in a partly ranked table was either just written or already there. */
  lemma RankedOrigin(t: Table, done: seq<Id>, first: nat, id: Id, v: nat)
    requires NoDuplicates(done) && AllPublic(t, done) && Holds(Ranked(t, done, first), id, v)
    ensures if id in done then v == first + IndexOf(done, id) else Holds(t, id, v)
  {}

  /** A prefix of either pass of a reorder is reached, and no two rows ever share a rank there. */
  lemma ReorderNeverCollides(c: Config, t: Table, current: seq<Id>, ids: seq<Id>, written: nat)
    requires Represents(t, current) && Permutation(current, ids) && written <= |ids|
    ensures var mid := Ranked(t, ids, |ids| + 1);
            && Pass(c, t, ids[..written], |ids| + 1) == Some(Ranked(t, ids[..written], |ids| + 1))
            && Pass(c, mid, ids[..written], 1) == Some(Ranked(mid, ids[..written], 1))
            && NoRankShared(Ranked(t, ids[..written], |ids| + 1))
            && NoRankShared(Ranked(mid, ids[..written], 1))
  {
    var n := |ids|;
    var mid := Ranked(t, ids, n + 1);
    ReorderStartsFree(t, current, ids);
    forall v: nat, a: Id, b: Id | Holds(t, a, v) && Holds(t, b, v) ensures a == b {
      RankBound(t, current, a, v);
      RankBound(t, current, b, v);
    }
    NoneShared(t, ids, n + 1, written);
    NoneShared(t, ids, n + 1, n);
    assert ids[..n] == ids;
    RankedRanks(t, ids, n + 1);
    forall id: Id, v: nat | Holds(mid, id, v) ensures !(1 <= v < 1 + n) {
      assert id in PublicIds(t);
      assert id in Elements(ids);
      RankedOrigin(t, ids, n + 1, id, v);
    }
    NoneShared(mid, ids, 1, written);
    FreeRangePass(c, t, ids[..written], n + 1);
    FreeRangePass(c, mid, ids[..written], 1);
  }

  // ---------------------------------------------------------------- hiding

  function Without(ids: seq<Id>, k: nat): seq<Id>
    requires k < |ids|
  {
    ids[..k] + ids[k + 1..]
  }

  /** The table right after the HideProject statement on `id`. */
  function Hide(t: Table, id: Id): Table
    requires id in t
  {
    t[id := t[id].(status := Hidden, sortOrder := None, version := t[id].version + 1)]
  }

  /** The others keep their ranks, with a gap at k+1. */
  ghost predicate Gap(h: Table, rest: seq<Id>, k: nat) {
    && NoDuplicates(rest) && PublicIds(h) == Elements(rest) && AllPublic(h, rest)
    && (forall id | id in h && h[id].status == Hidden :: h[id].sortOrder == None)
    && (forall i | 0 <= i < |rest| :: Holds(h, rest[i], if i < k then i + 1 else i + 2))
  }

  lemma HideLeavesGap(t: Table, ids: seq<Id>, k: nat)
    requires Represents(t, ids) && k < |ids|
    ensures ids[k] in t
    ensures Gap(Hide(t, ids[k]), Without(ids, k), k)
  {
    assert Holds(t, ids[k], k + 1);
    var h := Hide(t, ids[k]);
    var rest := Without(ids, k);
    forall i | 0 <= i < |rest| ensures Holds(h, rest[i], if i < k then i + 1 else i + 2) && rest[i] != ids[k] {
      var j := if i < k then i else i + 1;
      assert rest[i] == ids[j];
      assert Holds(t, ids[j], j + 1);
    }
    assert PublicIds(h) == PublicIds(t) - {ids[k]};
    forall id | id in Elements(ids) - {ids[k]} ensures id in rest {
      var j := IndexOf(ids, id);
      assert id == rest[if j < k then j else j - 1];
    }
    assert Elements(rest) == Elements(ids) - {ids[k]};
    forall id | id in rest ensures id in h && h[id].status == Public { assert id in Elements(rest); }
  }

  lemma GapListing(h: Table, rest: seq<Id>, k: nat)
    requires Gap(h, rest, k)
    ensures ListPublic(h) == rest
  {
    forall i, j | 0 <= i < j < |rest| ensures SortKey(h[rest[i]]) < SortKey(h[rest[j]]) {
      assert Holds(h, rest[i], if i < k then i + 1 else i + 2);
      assert Holds(h, rest[j], if j < k then j + 1 else j + 2);
    }
    ListingIsRankOrder(h, rest);
  }

  lemma GapRank(h: Table, rest: seq<Id>, k: nat, id: Id, v: nat)
    requires Gap(h, rest, k) && Holds(h, id, v)
    ensures id in rest && v == MidHideRank(|rest|, k, 0, IndexOf(rest, id))
  {
    assert id in PublicIds(h);
    assert id in Elements(rest);
    var i := IndexOf(rest, id);
    assert Holds(h, rest[i], if i < k then i + 1 else i + 2);
  }

  /** When the temporary pass over the m rows left by hiding position k completes. */
  predicate Compacts(c: Config, m: nat, k: nat) {
    k == m || (if m == 1 then c.foundRows else !c.uniqueKey)
  }

  lemma CompactLast(c: Config, h: Table, rest: seq<Id>)
    requires Gap(h, rest, |rest|)
    ensures Pass(c, h, rest, |rest| + 1) == Some(Ranked(h, rest, |rest| + 1))
  {
    var m := |rest|;
    forall id: Id, v: nat | Holds(h, id, v) ensures !(m + 1 <= v < m + 1 + m) {
      GapRank(h, rest, m, id, v);
    }
    FreeRangePass(c, h, rest, m + 1);
  }

  /** One row left, above the gap: its temporary rank is the rank it has. */
  lemma CompactOnly(c: Config, h: Table, rest: seq<Id>)
    requires Gap(h, rest, 0) && |rest| == 1
    ensures Pass(c, h, rest, 2) == if c.foundRows then Some(Ranked(h, rest, 2)) else None
  {
    assert Holds(h, rest[0], 2);
    assert !Taken(h, rest[0], 2) by {
      if Taken(h, rest[0], 2) {
        var o :| o in h && o != rest[0] && h[o].sortOrder == Some(2);
        GapRank(h, rest, 0, o, 2);
      }
    }
    assert h[rest[0]].(sortOrder := Some(2)) == h[rest[0]];
    assert h[rest[0] := h[rest[0]]] == h;
    assert SetSortOrder(c, h, rest[0], 2) == (Affected(if c.foundRows then 1 else 0), h);
    assert rest[1..] == [];
    assert Ranked(h, rest, 2) == h;
  }

  /** Several rows left and a rank above the gap: the first temporary rank is the last row's. */
  lemma CompactMiddle(c: Config, h: Table, rest: seq<Id>, k: nat)
    requires Gap(h, rest, k) && k < |rest| && 2 <= |rest|
    ensures Pass(c, h, rest, |rest| + 1) == if c.uniqueKey then None else Some(Ranked(h, rest, |rest| + 1))
  {
    var m := |rest|;
    assert Holds(h, rest[m - 1], m + 1);
    assert rest[0] != rest[m - 1];
    assert Taken(h, rest[0], m + 1);
    if c.uniqueKey {
      assert SetSortOrder(c, h, rest[0], m + 1).0 == Failed;
    } else {
      forall i | 0 <= i < m ensures !Holds(h, rest[i], m + 1 + i) {
        assert Holds(h, rest[i], if i < k then i + 1 else i + 2);
      }
      KeylessPass(c, h, rest, m + 1);
    }
  }

  /** Renumbering `h`, whose listing is `rest`: the temporary pass completes exactly when
      `Compacts` says so, and then both passes end with `rest` ranked 1..m. */
  ghost predicate Compaction(c: Config, h: Table, rest: seq<Id>, k: nat) {
    var m := |rest|;
    && ListPublic(h) == rest
    && Pass(c, h, rest, m + 1) == (if Compacts(c, m, k) then Some(Ranked(h, rest, m + 1)) else None)
    && Pass(c, Ranked(h, rest, m + 1), rest, 1) == Some(Ranked(h, rest, 1))
    && Represents(Ranked(h, rest, 1), rest)
  }

  lemma GapPasses(c: Config, h: Table, rest: seq<Id>, k: nat)
    requires Gap(h, rest, k) && k <= |rest|
    ensures Compaction(c, h, rest, k)
  {
    GapListing(h, rest, k);
    FinalPass(c, h, rest);
    if k == |rest| {
      CompactLast(c, h, rest);
    } else if |rest| == 1 {
      CompactOnly(c, h, rest);
    } else {
      CompactMiddle(c, h, rest, k);
    }
  }

  /** Hiding position k: whether the temporary pass completes, and where both passes end. */
  lemma HidePasses(c: Config, t: Table, ids: seq<Id>, k: nat)
    requires Represents(t, ids) && k < |ids|
    ensures ids[k] in t
    ensures Compaction(c, Hide(t, ids[k]), Without(ids, k), k)
  {
    HideLeavesGap(t, ids, k);
    GapPasses(c, Hide(t, ids[k]), Without(ids, k), k);
  }

  /** The rank of the i-th remaining row after `written` temporary writes. */
  function MidHideRank(m: nat, k: nat, written: nat, i: nat): nat {
    if i < written then m + 1 + i else if i < k then i + 1 else i + 2
  }

  lemma MidHideRankOf(h: Table, rest: seq<Id>, k: nat, written: nat, id: Id, v: nat)
    requires Gap(h, rest, k) && written <= |rest|
    requires Holds(Ranked(h, rest[..written], |rest| + 1), id, v)
    ensures id in rest && v == MidHideRank(|rest|, k, written, IndexOf(rest, id))
  {
    assert AllPublic(h, rest[..written]) by { forall id | id in rest[..written] ensures id in rest {} }
    RankedOrigin(h, rest[..written], |rest| + 1, id, v);
    if id !in rest[..written] {
      GapRank(h, rest, k, id, v);
    }
    PrefixIndex(rest, written, id);
  }

  lemma GapCollides(h: Table, rest: seq<Id>, k: nat, written: nat)
    requires Gap(h, rest, k) && k < |rest| && 1 <= written < |rest|
    ensures Shared(Ranked(h, rest[..written], |rest| + 1), |rest| + 1)
  {
    var m := |rest|;
    var a, b := rest[0], rest[m - 1];
    assert Holds(h, b, m + 1);
    PrefixIndex(rest, written, a);
    PrefixIndex(rest, written, b);
    assert IndexOf(rest, a) == 0 && IndexOf(rest, b) == m - 1;
    var s := Ranked(h, rest[..written], m + 1);
    assert a != b && Holds(s, a, m + 1) && Holds(s, b, m + 1);
  }

  lemma GapCollision(h: Table, rest: seq<Id>, k: nat, written: nat, value: nat)
    requires Gap(h, rest, k) && k <= |rest| && written <= |rest|
    ensures Shared(Ranked(h, rest[..written], |rest| + 1), value)
            <==> value == |rest| + 1 && k < |rest| && 1 <= written < |rest|
  {
    var s := Ranked(h, rest[..written], |rest| + 1);
    if Shared(s, value) {
      var a, b :| a != b && Holds(s, a, value) && Holds(s, b, value);
      MidHideRankOf(h, rest, k, written, a, value);
      MidHideRankOf(h, rest, k, written, b, value);
    }
    if k < |rest| && 1 <= written < |rest| { GapCollides(h, rest, k, written); }
  }

  /** The temporary pass of a hide, write by write: a value is shared exactly between the first
      write and the last, only when a later row existed, and it is always m+1. */
  lemma HideCollision(t: Table, ids: seq<Id>, k: nat, written: nat, value: nat)
    requires Represents(t, ids) && k < |ids| && written < |ids|
    ensures ids[k] in t
    ensures var h := Hide(t, ids[k]); var rest := Without(ids, k); var m := |rest|;
            Shared(Ranked(h, rest[..written], m + 1), value)
            <==> value == m + 1 && k < m && 1 <= written < m
  {
    HideLeavesGap(t, ids, k);
    GapCollision(Hide(t, ids[k]), Without(ids, k), k, written, value);
  }

  // ---------------------------------------------------------------- requests and their effect

  datatype Db = Db(projects: Table, orderVersion: nat, nextId: Id)

  datatype Request =
    | Create(name: string)
    | Update(id: Id, fields: Fields, version: nat)
    | Publish(id: Id, fields: Fields, version: nat, orderVersion: nat)
    | HideOne(id: Id, version: nat, orderVersion: nat)
    | Reorder(ids: seq<Id>, orderVersion: nat)

  /** The check constraint on public rows. */
  predicate HasUrl(f: Fields) { f.githubUrl.Some? && f.githubUrl.value != "" }

  function NextRank(t: Table): nat {
    match MaxSortOrder(t)
    case None => 1
    case Some(rank) => rank + 1
  }

  predicate Current(db: Db, id: Id, version: nat, status: Status) {
    id in db.projects && db.projects[id].version == version && db.projects[id].status == status
  }

  function CreateEffect(db: Db, name: string): Db {
    db.(projects := db.projects[db.nextId := Row(Fields(name, None, None), Hidden, None, 1)], nextId := db.nextId + 1)
  }

  function UpdateEffect(db: Db, id: Id, fields: Fields, version: nat): Option<Db> {
    if id !in db.projects || db.projects[id].version != version then None
    else if db.projects[id].status == Public && !HasUrl(fields) then None
    else Some(db.(projects := db.projects[id := db.projects[id].(fields := fields, version := version + 1)]))
  }

  function PublishEffect(db: Db, id: Id, fields: Fields, version: nat, orderVersion: nat): Option<Db> {
    if db.orderVersion != orderVersion || !Current(db, id, version, Hidden) || !HasUrl(fields) then None
    else Some(db.(projects := db.projects[id := Row(fields, Public, Some(NextRank(db.projects)), version + 1)],
                  orderVersion := orderVersion + 1))
  }

  function HideEffect(c: Config, db: Db, id: Id, version: nat, orderVersion: nat): Option<Db> {
    if db.orderVersion != orderVersion || !Current(db, id, version, Public) then None
    else
      var rest := ListPublic(Hide(db.projects, id));
      if Pass(c, Hide(db.projects, id), rest, |rest| + 1) == None then None
      else Some(db.(projects := Ranked(Hide(db.projects, id), rest, 1), orderVersion := orderVersion + 1))
  }

  predicate SameIds(current: seq<Id>, requested: seq<Id>) {
    NoDuplicates(current) && NoDuplicates(requested) && Elements(current) == Elements(requested) && 0 !in requested
  }

  function ReorderEffect(db: Db, ids: seq<Id>, orderVersion: nat): Option<Db> {
    if db.orderVersion != orderVersion || !SameIds(ListPublic(db.projects), ids) then None
    else Some(db.(projects := Ranked(db.projects, ids, 1), orderVersion := orderVersion + 1))
  }

  /** None of the first n statements of a request fails by itself. */
  predicate Clear(faults: set<nat>, n: nat) { forall f | f in faults :: n <= f }

  function OrElse(changed: Option<Db>, db: Db): Db { if changed.Some? then changed.value else db }

  /** What a request leaves in the database when the statements numbered in `faults` fail. */
  function Effect(c: Config, db: Db, request: Request, faults: set<nat>): Db {
    match request
    case Create(name) => if Clear(faults, 1) then CreateEffect(db, name) else db
    case Update(id, fields, version) =>
      if Clear(faults, 1) then OrElse(UpdateEffect(db, id, fields, version), db) else db
    case Publish(id, fields, version, orderVersion) =>
      if Clear(faults, 8) then OrElse(PublishEffect(db, id, fields, version, orderVersion), db) else db
    case HideOne(id, version, orderVersion) =>
      if Clear(faults, HideStatements(db.projects)) then OrElse(HideEffect(c, db, id, version, orderVersion), db)
      else db
    case Reorder(ids, orderVersion) =>
      if Clear(faults, ReorderStatements(ids)) then OrElse(ReorderEffect(db, ids, orderVersion), db) else db
  }

  /** Two passes over the other public rows and eight further statements. */
  function HideStatements(t: Table): nat { 8 + 2 * Max(0, |PublicIds(t)| - 1) }

  function ReorderStatements(ids: seq<Id>): nat { 5 + 2 * |ids| }

  // ---------------------------------------------------------------- refinement of the plain sequence

  ghost predicate ValidDb(db: Db, ids: seq<Id>) {
    && Represents(db.projects, ids)
    && (forall id | id in db.projects :: 0 < id < db.nextId)
    && 0 < db.nextId
  }

  /** The same request on a plain sequence; `kept` says that the database did not change. */
  function PlainStep(ids: seq<Id>, request: Request, kept: bool): seq<Id> {
    match request
    case Publish(id, _, _, _) => if kept then ids else ids + [id]
    case HideOne(id, _, _) => if kept || id !in ids then ids else Without(ids, IndexOf(ids, id))
    case Reorder(requested, _) => if kept then ids else requested
    case _ => ids
  }

  lemma UnrankedRowsPreserve(t: Table, ids: seq<Id>, id: Id, row: Row)
    requires Represents(t, ids)
    requires if id in t then row.status == t[id].status && row.sortOrder == t[id].sortOrder
             else row.status == Hidden && row.sortOrder == None
    ensures Represents(t[id := row], ids)
  {
    var t' := t[id := row];
    assert PublicIds(t') == PublicIds(t);
    forall i | 0 <= i < |ids| ensures Holds(t', ids[i], i + 1) { assert Holds(t, ids[i], i + 1); }
  }

  lemma PublishAppends(t: Table, ids: seq<Id>, id: Id, fields: Fields, version: nat)
    requires Represents(t, ids) && id in t && t[id].status == Hidden
    ensures NextRank(t) == |ids| + 1 && !Taken(t, id, |ids| + 1) && id !in ids
    ensures Represents(t[id := Row(fields, Public, Some(|ids| + 1), version)], ids + [id])
  {
    StoredOrderIsListed(t, ids);
    if Taken(t, id, |ids| + 1) {
      var o :| o in t && o != id && t[o].sortOrder == Some(|ids| + 1);
      RankBound(t, ids, o, |ids| + 1);
    }
    var t' := t[id := Row(fields, Public, Some(|ids| + 1), version)];
    assert id !in PublicIds(t) && id !in Elements(ids);
    assert PublicIds(t') == PublicIds(t) + {id};
    assert Elements(ids + [id]) == Elements(ids) + {id};
    forall i | 0 <= i < |ids + [id]| ensures Holds(t', (ids + [id])[i], i + 1) {
      assert i < |ids| ==> Holds(t, ids[i], i + 1);
    }
  }

  lemma HideRemoves(c: Config, db: Db, ids: seq<Id>, id: Id, version: nat, orderVersion: nat)
    requires ValidDb(db, ids) && HideEffect(c, db, id, version, orderVersion).Some?
    ensures id in ids
    ensures ValidDb(HideEffect(c, db, id, version, orderVersion).value, Without(ids, IndexOf(ids, id)))
  {
    assert id in PublicIds(db.projects);
    assert id in Elements(ids);
    HidePasses(c, db.projects, ids, IndexOf(ids, id));
  }

  lemma ReorderInstalls(db: Db, ids: seq<Id>, requested: seq<Id>, orderVersion: nat)
    requires ValidDb(db, ids) && ReorderEffect(db, requested, orderVersion).Some?
    ensures ValidDb(ReorderEffect(db, requested, orderVersion).value, requested)
  {
    StoredOrderIsListed(db.projects, ids);
    ReorderPasses(DEPLOYED, db.projects, ids, requested);
  }

  /** One request, whatever fails inside it, is one step of the plain sequence. */
  lemma StepRefines(c: Config, db: Db, ids: seq<Id>, request: Request, faults: set<nat>)
    requires ValidDb(db, ids)
    ensures var db' := Effect(c, db, request, faults);
            ValidDb(db', PlainStep(ids, request, db' == db))
  {
    var t := db.projects;
    if Effect(c, db, request, faults) != db {
      match request
      case Create(name) =>
        UnrankedRowsPreserve(t, ids, db.nextId, Row(Fields(name, None, None), Hidden, None, 1));
      case Update(id, fields, version) =>
        UnrankedRowsPreserve(t, ids, id, t[id].(fields := fields, version := version + 1));
      case Publish(id, fields, version, _) =>
        PublishAppends(t, ids, id, fields, version + 1);
      case HideOne(id, version, orderVersion) =>
        HideRemoves(c, db, ids, id, version, orderVersion);
      case Reorder(requested, orderVersion) =>
        ReorderInstalls(db, ids, requested, orderVersion);
    }
  }

  function Run(c: Config, db: Db, requests: seq<(Request, set<nat>)>): Db
    decreases |requests|
  {
    if requests == [] then db else Run(c, Effect(c, db, requests[0].0, requests[0].1), requests[1..])
  }

  function PlainRun(c: Config, db: Db, ids: seq<Id>, requests: seq<(Request, set<nat>)>): seq<Id>
    decreases |requests|
  {
    if requests == [] then ids
    else
      var db' := Effect(c, db, requests[0].0, requests[0].1);
      PlainRun(c, db', PlainStep(ids, requests[0].0, db' == db), requests[1..])
  }

  /** Every run of requests with arbitrary statement failures stores exactly the plain sequence
      of the requests that took effect, ranked 1..N. */
  lemma {:induction false} RunRefines(c: Config, db: Db, ids: seq<Id>, requests: seq<(Request, set<nat>)>)
    requires ValidDb(db, ids)
    ensures ValidDb(Run(c, db, requests), PlainRun(c, db, ids, requests))
    ensures ListPublic(Run(c, db, requests).projects) == PlainRun(c, db, ids, requests)
    decreases |requests|
  {
    if requests == [] {
      StoredOrderIsListed(db.projects, ids);
    } else {
      var db' := Effect(c, db, requests[0].0, requests[0].1);
      StepRefines(c, db, ids, requests[0].0, requests[0].1);
      RunRefines(c, db', PlainStep(ids, requests[0].0, db' == db), requests[1..]);
    }
  }

  lemma HideFits(c: Config, db: Db, ids: seq<Id>, k: nat, version: nat)
    requires ValidDb(db, ids) && k < |ids| && Current(db, ids[k], version, Public)
    ensures HideEffect(c, db, ids[k], version, db.orderVersion).Some? <==> Compacts(c, |ids| - 1, k)
  {
    HidePasses(c, db.projects, ids, k);
  }

  /** Hiding takes effect exactly when the versions are current and the renumbering fits the
      schema and the row counting. */
  lemma HideTakesEffect(c: Config, db: Db, ids: seq<Id>, id: Id, version: nat, orderVersion: nat)
    requires ValidDb(db, ids)
    ensures HideEffect(c, db, id, version, orderVersion).Some? <==>
            db.orderVersion == orderVersion && Current(db, id, version, Public) &&
            id in ids && Compacts(c, |ids| - 1, IndexOf(ids, id))
  {
    if db.orderVersion == orderVersion && Current(db, id, version, Public) {
      assert id in PublicIds(db.projects) && id in Elements(ids);
      HideFits(c, db, ids, IndexOf(ids, id), version);
    }
  }

  /** With the schema and driver settings of the repository, only the last public project can be
      hidden; hiding any other one is always refused. */
  lemma DeployedHideOnlyLast(db: Db, ids: seq<Id>, id: Id, version: nat)
    requires ValidDb(db, ids) && Current(db, id, version, Public)
    ensures ids != []
    ensures HideEffect(DEPLOYED, db, id, version, db.orderVersion).Some? <==> ids[|ids| - 1] == id
  {
    HideTakesEffect(DEPLOYED, db, ids, id, version, db.orderVersion);
    assert id in PublicIds(db.projects) && id in Elements(ids);
  }

  /** Hiding the first of two public projects, and the first of three, is refused as deployed. */
  lemma HideRefusedExample()
    ensures var row := (rank: nat) => Row(Fields("p", Some("u"), None), Public, Some(rank), 2);
            var two := Db(map[1 := row(1), 2 := row(2)], 3, 3);
            var three := Db(map[1 := row(1), 2 := row(2), 3 := row(3)], 4, 4);
            && ValidDb(two, [1, 2]) && HideEffect(DEPLOYED, two, 1, 2, 3) == None
            && ValidDb(three, [1, 2, 3]) && HideEffect(DEPLOYED, three, 1, 2, 4) == None
            && HideEffect(DEPLOYED, three, 3, 2, 4).Some?
  {
    var row := (rank: nat) => Row(Fields("p", Some("u"), None), Public, Some(rank), 2);
    var two := Db(map[1 := row(1), 2 := row(2)], 3, 3);
    var three := Db(map[1 := row(1), 2 := row(2), 3 := row(3)], 4, 4);
    assert PublicIds(two.projects) == {1, 2} == Elements([1, 2]);
    assert PublicIds(three.projects) == {1, 2, 3} == Elements([1, 2, 3]);
    DeployedHideOnlyLast(two, [1, 2], 1, 2);
    DeployedHideOnlyLast(three, [1, 2, 3], 1, 2);
    DeployedHideOnlyLast(three, [1, 2, 3], 3, 2);
  }
}
