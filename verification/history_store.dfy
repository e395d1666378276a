/**
 * The history store (database.py) as an abstract table: the records of
 * `clipboard_history` in insertion order plus the AUTOINCREMENT counter.
 * The SQL text is not modelled; what each statement does to the table and
 * what each function returns is.
 */
module HistoryStore {
  import opened Wrappers
  import opened PyStr
  import opened Categories

  // ---------------------------------------------------------------------
  // The table
  // ---------------------------------------------------------------------

  /** The `content_type` column. */
  datatype ContentType = TextContent | ImageContent

  /** One row of `clipboard_history`; `created_at` is a timestamp in seconds. */
  datatype Record = Record(
    id: nat,
    contentType: ContentType,
    content: Option<string>,
    imagePath: Option<string>,
    hash: string,
    category: Category,
    isFavorite: bool,
    createdAt: int)

  /**
   * The table: its rows in insertion order and the next AUTOINCREMENT id,
   * which never goes back, so an id is never reused after a delete.
   */
  datatype Store = Store(records: seq<Record>, nextId: nat)

  /** The table as `init_database` creates it. */
  const EmptyStore: Store := Store([], 1)

  /** The PRIMARY KEY and UNIQUE constraints, and ids below the counter. */
  predicate Valid(st: Store) {
    && st.nextId >= 1
    && (forall x :: x in st.records ==> 1 <= x.id < st.nextId)
    && Distinct(st.records)
  }

  /** No two rows share an id or a hash. */
  predicate Distinct(recs: seq<Record>) {
    forall i, j :: 0 <= i < j < |recs| ==> recs[i].id != recs[j].id && recs[i].hash != recs[j].hash
  }

  lemma DistinctCons(h: Record, t: seq<Record>)
    ensures Distinct([h] + t) <==>
              Distinct(t) && forall x :: x in t ==> x.id != h.id && x.hash != h.hash
  {
    var s := [h] + t;
    assert s[0] == h;
    if Distinct(s) {
      forall x | x in t ensures x.id != h.id && x.hash != h.hash {
        var k :| 0 <= k < |t| && t[k] == x;
        assert s[k + 1] == x;
      }
      forall i, j | 0 <= i < j < |t| ensures t[i].id != t[j].id && t[i].hash != t[j].hash {
        assert s[i + 1] == t[i] && s[j + 1] == t[j];
      }
    }
    if Distinct(t) && forall x :: x in t ==> x.id != h.id && x.hash != h.hash {
      forall i, j | 0 <= i < j < |s| ensures s[i].id != s[j].id && s[i].hash != s[j].hash {
        assert s[j] == t[j - 1];
        if i > 0 { assert s[i] == t[i - 1]; } else { assert s[j] in t; }
      }
    }
  }

  /** Keeping some of the rows, in order, keeps them distinct. */
  lemma {:induction false} SubsequenceDistinct(recs: seq<Record>, keep: Record -> bool)
    ensures Distinct(recs) ==> Distinct(Select(recs, keep))
  {
    if recs != [] && Distinct(recs) {
      assert recs == [recs[0]] + recs[1..];
      DistinctCons(recs[0], recs[1..]);
      SubsequenceDistinct(recs[1..], keep);
      if keep(recs[0]) {
        DistinctCons(recs[0], Select(recs[1..], keep));
      }
    }
  }

  /** The rows satisfying `keep`, in order. */
  function Select(recs: seq<Record>, keep: Record -> bool): (r: seq<Record>)
    ensures |r| <= |recs|
    ensures forall x :: x in r <==> x in recs && keep(x)
  {
    if recs == [] then []
    else if keep(recs[0]) then [recs[0]] + Select(recs[1..], keep)
    else Select(recs[1..], keep)
  }

  /** `Select` keeps every row that passes as often as it occurs, and no other. */
  lemma {:induction false} SelectCounts(recs: seq<Record>, keep: Record -> bool)
    ensures forall x :: multiset(Select(recs, keep))[x] == (if keep(x) then multiset(recs)[x] else 0)
  {
    if recs != [] {
      assert recs == [recs[0]] + recs[1..];
      SelectCounts(recs[1..], keep);
    }
  }

  /** The filter of `DELETE ... WHERE id = ?`, as the rows it keeps. */
  function OtherThan(id: int): Record -> bool {
    (x: Record) => x.id != id
  }

  /** The filter of `DELETE ... WHERE is_favorite = FALSE`, as the rows it keeps. */
  predicate IsFavorite(x: Record) {
    x.isFavorite
  }

  predicate HasHash(st: Store, h: string) {
    exists i :: 0 <= i < |st.records| && st.records[i].hash == h
  }

  predicate HasId(st: Store, id: int) {
    exists i :: 0 <= i < |st.records| && st.records[i].id == id
  }

  lemma EmptyStoreValid()
    ensures Valid(EmptyStore) && !HasHash(EmptyStore, []) && |EmptyStore.records| == 0
  {
  }

  // ---------------------------------------------------------------------
  // check_hash_exists
  // ---------------------------------------------------------------------

  /** The position of the first row with hash `h`, or `|recs|`. */
  function FindHash(recs: seq<Record>, h: string): (k: nat)
    ensures k <= |recs|
    ensures k < |recs| ==> recs[k].hash == h
    ensures forall i :: 0 <= i < k ==> recs[i].hash != h
  {
    if recs == [] then 0
    else if recs[0].hash == h then 0
    else 1 + FindHash(recs[1..], h)
  }

  /** `check_hash_exists`: true exactly when some row has hash `h`. */
  function CheckHashExists(st: Store, h: string): (b: bool)
    ensures b <==> HasHash(st, h)
  {
    FindHash(st.records, h) < |st.records|
  }

  // ---------------------------------------------------------------------
  // add_history
  // ---------------------------------------------------------------------

  /** The outcome of `add_history`: the table after, and `lastrowid` or None. */
  datatype Added = Added(store: Store, id: Option<nat>)

  /**
   * `add_history`: inserts a row with `is_favorite` false and `created_at`
   * the current time, unless the UNIQUE constraint on the hash rejects it,
   * in which case nothing changes and the result is None.
   */
  function AddHistory(st: Store, contentType: ContentType, hash: string, category: Category,
                      content: Option<string>, imagePath: Option<string>, now: int): (r: Added)
    ensures HasHash(st, hash) <==> r.id.None?
    ensures r.id.None? ==> r.store == st
    ensures r.id.Some? ==> r.store.nextId == r.id.value + 1
    ensures Valid(st) && r.id.Some? ==> !HasId(st, r.id.value)
    ensures r.id.Some? ==>
              && |r.store.records| == |st.records| + 1
              && r.store.records[..|st.records|] == st.records
              && r.store.records[|st.records|]
                 == Record(r.id.value, contentType, content, imagePath, hash, category, false, now)
    ensures Valid(st) ==> Valid(r.store)
    ensures HasHash(r.store, hash)
  {
    if CheckHashExists(st, hash) then Added(st, None)
    else
      var rec := Record(st.nextId, contentType, content, imagePath, hash, category, false, now);
      var st' := Store(st.records + [rec], st.nextId + 1);
      assert st'.records[|st.records|].hash == hash;
      Added(st', Some(st.nextId))
  }

  // ---------------------------------------------------------------------
  // delete_history
  // ---------------------------------------------------------------------

  /** The outcome of an update: the table after, and whether a row was affected. */
  datatype Changed = Changed(store: Store, affected: bool)

  /** `delete_history`: removes the row with that id; true exactly when there was one. */
  function DeleteHistory(st: Store, id: int): (r: Changed)
    ensures r.affected <==> HasId(st, id)
    ensures !HasId(r.store, id)
    ensures forall x :: x in r.store.records <==> x in st.records && x.id != id
    ensures r.store.nextId == st.nextId
    ensures !r.affected ==> r.store == st
    ensures Valid(st) ==> Valid(r.store)
  {
    var rest := Select(st.records, OtherThan(id));
    SubsequenceDistinct(st.records, OtherThan(id));
    if HasId(st, id) then
      assert !HasId(Store(rest, st.nextId), id) by {
        forall i | 0 <= i < |rest| ensures rest[i].id != id {
          assert rest[i] in rest;
        }
      }
      Changed(Store(rest, st.nextId), true)
    else
      Changed(st, false)
  }

  /** A row deleted is gone, and deleting it again affects nothing. */
  lemma DeleteTwice(st: Store, id: int)
    ensures !DeleteHistory(DeleteHistory(st, id).store, id).affected
  {
  }

  // ---------------------------------------------------------------------
  // toggle_favorite
  // ---------------------------------------------------------------------

  /** `is_favorite = NOT is_favorite` on the rows whose id is `id`. */
  function Flip(recs: seq<Record>, id: int): (r: seq<Record>)
    ensures |r| == |recs|
    ensures forall i :: 0 <= i < |recs| ==> r[i].id == recs[i].id && r[i].hash == recs[i].hash
    ensures forall i :: 0 <= i < |recs| ==>
              r[i] == if recs[i].id == id then recs[i].(isFavorite := !recs[i].isFavorite) else recs[i]
  {
    if recs == [] then []
    else
      var head := if recs[0].id == id then recs[0].(isFavorite := !recs[0].isFavorite) else recs[0];
      [head] + Flip(recs[1..], id)
  }

  /**
   * `toggle_favorite`: flips the favourite flag of that row and no other
   * field or row; true exactly when the row exists.
   */
  function ToggleFavorite(st: Store, id: int): (r: Changed)
    ensures r.affected <==> HasId(st, id)
    ensures r.store.nextId == st.nextId && |r.store.records| == |st.records|
    ensures forall i :: 0 <= i < |st.records| ==>
              && r.store.records[i].(isFavorite := st.records[i].isFavorite) == st.records[i]
              && (r.store.records[i].isFavorite != st.records[i].isFavorite <==> st.records[i].id == id)
    ensures Valid(st) ==> Valid(r.store)
  {
    var recs := Flip(st.records, id);
    var affected := exists i :: 0 <= i < |st.records| && st.records[i].id == id;
    assert Valid(st) ==> Valid(Store(recs, st.nextId)) by {
      if Valid(st) { FlipValid(st, id); }
    }
    Changed(Store(recs, st.nextId), affected)
  }

  /** Flipping a flag keeps every id and fingerprint where it was. */
  lemma FlipValid(st: Store, id: int)
    requires Valid(st)
    ensures Valid(Store(Flip(st.records, id), st.nextId))
  {
    var r := Flip(st.records, id);
    assert Distinct(r) by {
      forall i, j | 0 <= i < j < |r| ensures r[i].id != r[j].id && r[i].hash != r[j].hash {
        assert r[i].id == st.records[i].id && r[i].hash == st.records[i].hash;
        assert r[j].id == st.records[j].id && r[j].hash == st.records[j].hash;
      }
    }
    forall x | x in r ensures 1 <= x.id < st.nextId {
      var i :| 0 <= i < |r| && r[i] == x;
      assert r[i].id == st.records[i].id;
      assert st.records[i] in st.records;
    }
  }


  /** Toggling the same row twice gives back the table. */
  lemma ToggleTwice(st: Store, id: int)
    ensures ToggleFavorite(ToggleFavorite(st, id).store, id).store == st
  {
    var once := ToggleFavorite(st, id).store;
    var twice := ToggleFavorite(once, id).store;
    assert twice.records == st.records;
  }

  // ---------------------------------------------------------------------
  // clear_all_history
  // ---------------------------------------------------------------------

  /** The number of rows not marked favourite. */
  function NonFavoriteCount(recs: seq<Record>): (n: nat)
    ensures n <= |recs|
  {
    if recs == [] then 0
    else (if recs[0].isFavorite then 0 else 1) + NonFavoriteCount(recs[1..])
  }

  /** The favourites are all the rows but the non-favourites. */
  lemma {:induction false} FavoritesCount(recs: seq<Record>)
    ensures |Select(recs, IsFavorite)| == |recs| - NonFavoriteCount(recs)
  {
    if recs != [] {
      FavoritesCount(recs[1..]);
    }
  }

  /** The outcome of `clear_all_history`: the table after, and the row count deleted. */
  datatype Cleared = Cleared(store: Store, removed: nat)

  /**
   * `clear_all_history`: deletes every row that is not a favourite and
   * returns how many it deleted; favourites stay exactly as they were.
   */
  function ClearAllHistory(st: Store): (r: Cleared)
    ensures r.removed == |st.records| - |r.store.records|
    ensures forall x :: x in r.store.records <==> x in st.records && x.isFavorite
    ensures r.store.nextId == st.nextId
    ensures Valid(st) ==> Valid(r.store)
  {
    var kept := Select(st.records, IsFavorite);
    FavoritesCount(st.records);
    SubsequenceDistinct(st.records, IsFavorite);
    Cleared(Store(kept, st.nextId), NonFavoriteCount(st.records))
  }

  /** Clearing twice removes nothing the second time. */
  lemma ClearTwice(st: Store)
    ensures ClearAllHistory(ClearAllHistory(st).store).removed == 0
  {
    var kept := ClearAllHistory(st).store.records;
    FavoritesAllFavorite(kept);
  }

  lemma {:induction false} FavoritesAllFavorite(recs: seq<Record>)
    requires forall i :: 0 <= i < |recs| ==> recs[i].isFavorite
    ensures NonFavoriteCount(recs) == 0
  {
    if recs != [] {
      FavoritesAllFavorite(recs[1..]);
    }
  }

  // ---------------------------------------------------------------------
  // get_history
  // ---------------------------------------------------------------------

  /** The filtering arguments of `get_history`. */
  datatype Filter = Filter(category: Option<string>, search: Option<string>, favoritesOnly: bool)

  /** `get_history()` with its default arguments filters nothing. */
  const NoFilter: Filter := Filter(None, None, false)
  const DefaultLimit: int := 100

  /** An optional string argument that Python treats as true: present and not empty. */
  predicate Given(o: Option<string>) {
    o.Some? && o.value != []
  }

  /** `pattern` occurs in `text` as a contiguous piece. */
  predicate Contains(text: string, pattern: string) {
    exists i :: 0 <= i <= |text| && OccursAt(text, pattern, i)
  }

  predicate OccursAt(text: string, pattern: string, i: nat) {
    i + |pattern| <= |text| && text[i..i + |pattern|] == pattern
  }

  /**
   * `content LIKE '%q%'`: the content contains the query, ASCII letters
   * compared without case; a NULL content never matches.
   */
  predicate LikeContains(content: Option<string>, q: string) {
    content.Some? && Contains(LowerAscii(content.value), LowerAscii(q))
  }

  /** The WHERE clause `get_history` builds from its arguments. */
  predicate Matches(q: Filter, x: Record) {
    && (Given(q.category) ==> Name(x.category) == q.category.value)
    && (Given(q.search) ==> LikeContains(x.content, q.search.value))
    && (q.favoritesOnly ==> x.isFavorite)
  }

  function Matching(q: Filter): Record -> bool {
    (x: Record) => Matches(q, x)
  }

  /** `a` may be listed before `b` under `ORDER BY created_at DESC`; ties go to the higher id. */
  predicate NewerOrSame(a: Record, b: Record) {
    a.createdAt > b.createdAt || (a.createdAt == b.createdAt && a.id >= b.id)
  }

  predicate NewestFirst(s: seq<Record>) {
    forall i, j :: 0 <= i < j < |s| ==> NewerOrSame(s[i], s[j])
  }

  /** Places `x` into a list already newest first. */
  function Insert(x: Record, s: seq<Record>): (r: seq<Record>)
    requires NewestFirst(s)
    ensures NewestFirst(r)
    ensures multiset(r) == multiset(s) + multiset{x}
    ensures forall y :: y in r <==> y in s || y == x
  {
    if s == [] then [x]
    else if NewerOrSame(x, s[0]) then [x] + s
    else
      var rest := Insert(x, s[1..]);
      assert s == [s[0]] + s[1..];
      forall y | y in rest ensures NewerOrSame(s[0], y) {
        if y != x {
          var j :| 0 <= j < |s[1..]| && s[1..][j] == y;
          assert s[j + 1] == y;
        }
      }
      ConsNewestFirst(s[0], rest);
      [s[0]] + rest
  }

  lemma ConsNewestFirst(h: Record, t: seq<Record>)
    requires NewestFirst(t) && forall y :: y in t ==> NewerOrSame(h, y)
    ensures NewestFirst([h] + t)
  {
    var r := [h] + t;
    forall i, j | 0 <= i < j < |r| ensures NewerOrSame(r[i], r[j]) {
      assert r[j] == t[j - 1];
      if i > 0 { assert r[i] == t[i - 1]; } else { assert t[j - 1] in t; }
    }
  }

  /** Orders rows newest first. */
  function Sort(s: seq<Record>): (r: seq<Record>)
    ensures NewestFirst(r)
    ensures multiset(r) == multiset(s)
    ensures forall y :: y in r <==> y in s
  {
    if s == [] then []
    else
      assert s == [s[0]] + s[1..];
      Insert(s[0], Sort(s[1..]))
  }

  /** Where `OFFSET offset` starts: a negative offset counts as none. */
  function Start(n: nat, offset: int): (k: nat)
    ensures k <= n
    ensures offset <= 0 ==> k == 0
    ensures 0 <= offset <= n ==> k == offset
  {
    if offset < 0 then 0 else if offset > n then n else offset
  }

  /**
   * `LIMIT limit OFFSET offset`: the rows from the offset on, at most
   * `limit` of them; a negative limit means no limit.
   */
  function Page(s: seq<Record>, offset: int, limit: int): (r: seq<Record>)
    ensures var k := Start(|s|, offset);
            && k + |r| <= |s| && r == s[k..k + |r|]
            && (if limit < 0 || k + limit >= |s| then |r| == |s| - k else |r| == limit)
    ensures forall x :: x in r ==> x in s
  {
    var k := Start(|s|, offset);
    if limit < 0 || k + limit >= |s| then s[k..] else s[k..k + limit]
  }

  /**
   * `get_history`: the rows that satisfy the filters, newest first, with
   * `offset` of them skipped and at most `limit` returned.
   */
  function GetHistory(st: Store, limit: int, offset: int, q: Filter): (r: seq<Record>)
    ensures forall x :: x in r ==> x in st.records && Matches(q, x)
    ensures NewestFirst(r)
    ensures limit >= 0 ==> |r| <= limit
  {
    var sorted := Listing(st, q);
    var r := Page(sorted, offset, limit);
    assert NewestFirst(r) by {
      var k := Start(|sorted|, offset);
      forall i, j | 0 <= i < j < |r| ensures NewerOrSame(r[i], r[j]) {
        assert r[i] == sorted[k + i] && r[j] == sorted[k + j];
      }
    }
    r
  }

  /**
   * The page is the listing with the first `offset` rows skipped: the next
   * `limit` rows, or all the rest when `limit` is negative or reaches past
   * the end.
   */
  lemma GetHistoryIsPage(st: Store, limit: int, offset: int, q: Filter)
    ensures var all, r := Listing(st, q), GetHistory(st, limit, offset, q);
            var k := Start(|all|, offset);
            && k + |r| <= |all| && r == all[k..k + |r|]
            && (if limit < 0 || k + limit >= |all| then |r| == |all| - k else |r| == limit)
  {
    assert GetHistory(st, limit, offset, q) == Page(Listing(st, q), offset, limit);
  }

  /** A slice holds each row at most as often as the whole sequence. */
  lemma SliceCounts(s: seq<Record>, k: nat, n: nat)
    requires k + n <= |s|
    ensures forall x :: multiset(s[k..k + n])[x] <= multiset(s)[x]
  {
    assert s == s[..k] + s[k..k + n] + s[k + n..];
  }

  /** Every row satisfying the filters, newest first, before paging. */
  function Listing(st: Store, q: Filter): (r: seq<Record>)
    ensures NewestFirst(r)
    ensures forall x :: x in r <==> x in st.records && Matches(q, x)
    ensures |r| <= |st.records|
  {
    var selected := Select(st.records, Matching(q));
    var r := Sort(selected);
    assert |r| == |multiset(r)| == |multiset(selected)| == |selected|;
    r
  }

  /** The listing holds each row satisfying the filters exactly as often as the table does, and no other row. */
  lemma ListingCounts(st: Store, q: Filter)
    ensures forall x :: multiset(Listing(st, q))[x] == (if Matches(q, x) then multiset(st.records)[x] else 0)
  {
    SelectCounts(st.records, Matching(q));
  }

  /** A page never repeats a row more often than the table holds it; a valid table gives each row once. */
  lemma GetHistoryCounts(st: Store, limit: int, offset: int, q: Filter)
    ensures forall x :: multiset(GetHistory(st, limit, offset, q))[x]
                          <= (if Matches(q, x) then multiset(st.records)[x] else 0)
  {
    PageCounts(Listing(st, q), offset, limit);
    ListingCounts(st, q);
  }

  lemma PageCounts(s: seq<Record>, offset: int, limit: int)
    ensures forall x :: multiset(Page(s, offset, limit))[x] <= multiset(s)[x]
  {
    var r := Page(s, offset, limit);
    SliceCounts(s, Start(|s|, offset), |r|);
  }

  /** With no offset and room for every row, every row satisfying the filters is returned. */
  lemma GetHistoryComplete(st: Store, limit: int, offset: int, q: Filter)
    requires offset <= 0 && (limit < 0 || limit >= |st.records|)
    ensures forall x :: x in st.records && Matches(q, x) ==> x in GetHistory(st, limit, offset, q)
  {
    var sorted := Listing(st, q);
    assert Page(sorted, offset, limit) == sorted;
  }

  /**
   * Paging is consistent: a page of `n` rows followed by the page at
   * offset `offset + n` is the page of both sizes together.
   */
  lemma PagesTile(st: Store, offset: int, n: int, m: int, q: Filter)
    requires offset >= 0 && n >= 0
    ensures GetHistory(st, n, offset, q) + GetHistory(st, m, offset + n, q)
            == GetHistory(st, if m < 0 then m else n + m, offset, q)
  {
  }

  /**
   * When a row satisfies the filters and the page starts at the beginning,
   * the first row returned is at least as new as every row satisfying them.
   */
  lemma NewestComesFirst(st: Store, limit: int, offset: int, q: Filter, y: Record)
    requires offset <= 0 && limit != 0
    requires y in st.records && Matches(q, y)
    ensures GetHistory(st, limit, offset, q) != []
    ensures NewerOrSame(GetHistory(st, limit, offset, q)[0], y)
  {
    var sorted := Listing(st, q);
    var k :| 0 <= k < |sorted| && sorted[k] == y;
    assert GetHistory(st, limit, offset, q)[0] == sorted[0];
  }

  // ---------------------------------------------------------------------
  // get_category_counts
  // ---------------------------------------------------------------------

  /** The number of rows in category `c`. */
  function CountOf(recs: seq<Record>, c: Category): (n: nat)
    ensures n <= |recs|
    ensures n > 0 <==> exists i :: 0 <= i < |recs| && recs[i].category == c
  {
    if recs == [] then 0
    else (if recs[0].category == c then 1 else 0) + CountOf(recs[1..], c)
  }

  /** `GROUP BY category`, one row at a time. */
  function Tally(recs: seq<Record>): (m: map<Category, nat>)
    ensures forall c :: c in m <==> CountOf(recs, c) > 0
    ensures forall c :: c in m ==> m[c] == CountOf(recs, c)
  {
    if recs == [] then map[]
    else
      var m := Tally(recs[1..]);
      var c := recs[0].category;
      m[c := (if c in m then m[c] else 0) + 1]
  }

  /**
   * `get_category_counts`: for each category that has rows, how many;
   * categories without rows are absent, as `GROUP BY` gives no row for them.
   */
  function GetCategoryCounts(st: Store): (m: map<Category, nat>)
    ensures forall c :: c in m <==> exists i :: 0 <= i < |st.records| && st.records[i].category == c
    ensures forall c :: c in m ==> m[c] == CountOf(st.records, c)
  {
    Tally(st.records)
  }

  /** The count of `c` in `m`, zero when absent. */
  function CountIn(m: map<Category, nat>, c: Category): nat {
    if c in m then m[c] else 0
  }

  /** The counts of the categories `cs` added up. */
  function Total(m: map<Category, nat>, cs: seq<Category>): nat {
    if cs == [] then 0 else CountIn(m, cs[0]) + Total(m, cs[1..])
  }

  /** Raising one listed category's count by one raises the total by one. */
  lemma {:induction false} TotalBump(m: map<Category, nat>, c: Category, cs: seq<Category>)
    requires forall i, j :: 0 <= i < j < |cs| ==> cs[i] != cs[j]
    ensures Total(m[c := CountIn(m, c) + 1], cs) == Total(m, cs) + (if c in cs then 1 else 0)
  {
    if cs != [] {
      TotalBump(m, c, cs[1..]);
      assert c in cs <==> c == cs[0] || c in cs[1..];
      if c == cs[0] {
        assert c !in cs[1..];
      }
    }
  }

  /** The counts of all seven categories add up to the number of rows. */
  lemma {:induction false} CountsSumToSize(st: Store)
    ensures Total(GetCategoryCounts(st), AllCategories) == |st.records|
  {
    TallyTotal(st.records);
  }

  lemma {:induction false} TotalEmpty(cs: seq<Category>)
    ensures Total(map[], cs) == 0
  {
    if cs != [] {
      TotalEmpty(cs[1..]);
    }
  }

  lemma {:induction false} TallyTotal(recs: seq<Record>)
    ensures Total(Tally(recs), AllCategories) == |recs|
  {
    if recs == [] {
      TotalEmpty(AllCategories);
    } else {
      TallyTotal(recs[1..]);
      TallyStep(recs);
    }
  }

  /** Each row adds one to the total over all categories. */
  lemma TallyStep(recs: seq<Record>)
    requires recs != []
    ensures Total(Tally(recs), AllCategories) == Total(Tally(recs[1..]), AllCategories) + 1
  {
    var c := recs[0].category;
    var m := Tally(recs[1..]);
    TallyCons(recs);
    AllCategoriesComplete(c);
    AllCategoriesDistinct();
    TotalBump(m, c, AllCategories);
  }

  lemma TallyCons(recs: seq<Record>)
    requires recs != []
    ensures Tally(recs) == Tally(recs[1..])[recs[0].category := CountIn(Tally(recs[1..]), recs[0].category) + 1]
  {
  }

  lemma AllCategoriesDistinct()
    ensures forall i, j :: 0 <= i < j < |AllCategories| ==> AllCategories[i] != AllCategories[j]
  {
  }
}
