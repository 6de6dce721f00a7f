/**
 * The read-only queries of the clipboard store (database.js), as functions
 * of the table state. Every entry query ends in `ORDER BY timestamp DESC`;
 * SQL leaves the order of equal timestamps open, so the contracts promise
 * newest-first order and nothing about ties.
 */
module Queries {
  import opened Wrappers
  import opened Text
  import opened Ordering
  import opened SqlLike
  import opened Schema

  /** The keys of `m` in [lo, hi), ascending. */
  function KeysFrom<T>(m: map<int, T>, lo: int, hi: int): (r: seq<int>)
    ensures forall k | k in r :: k in m && lo <= k < hi
    ensures forall k | k in m && lo <= k < hi :: k in r
    ensures forall i, j | 0 <= i < j < |r| :: r[i] < r[j]
    decreases hi - lo
  {
    if lo >= hi then []
    else
      var rest := KeysFrom(m, lo + 1, hi);
      if lo in m then
        assert forall j | 0 <= j < |rest| :: rest[j] in rest && rest[j] > lo;
        assert forall j | 0 < j < |rest| + 1 :: ([lo] + rest)[j] == rest[j - 1];
        [lo] + rest
      else rest
  }

  /** The rows of `clipboard_entries` in id order (the table scan before sorting). */
  function EntriesById(t: Tables): (r: seq<Entry>)
    requires WellKeyed(t)
    ensures forall e | e in r :: e.id in t.entries && t.entries[e.id] == e
    ensures forall id | id in t.entries :: t.entries[id] in r
    ensures Distinct(r)
  {
    var ks := KeysFrom(t.entries, 1, t.nextEntryId);
    var r := seq(|ks|, i requires 0 <= i < |ks| => t.entries[ks[i]]);
    assert forall id | id in t.entries :: t.entries[id] in r by {
      forall id | id in t.entries ensures t.entries[id] in r {
        var i :| 0 <= i < |ks| && ks[i] == id;
        assert r[i] == t.entries[id];
      }
    }
    r
  }

  /** `ORDER BY timestamp DESC`: a row may precede another when it is at least as recent. */
  function Newer(a: Entry, b: Entry): bool {
    a.timestamp >= b.timestamp
  }

  /** `r` holds each row that satisfies `p` exactly once, newest first. */
  ghost predicate ListsRows(r: seq<Entry>, t: Tables, p: Entry -> bool) {
    && (forall e | e in r :: e.id in t.entries && t.entries[e.id] == e && p(e))
    && (forall id | id in t.entries && p(t.entries[id]) :: t.entries[id] in r)
    && Distinct(r)
    && Ordered(r, Newer)
  }

  /** `getAllEntries`. */
  function AllEntries(t: Tables): (r: seq<Entry>)
    requires WellKeyed(t)
    ensures ListsRows(r, t, (_: Entry) => true)
  {
    var rows := EntriesById(t);
    SortByFacts(rows, Newer);
    SortBy(rows, Newer)
  }

  /** `getRecentEntries(limit)`; SQLite reads a negative LIMIT as no limit at all. */
  function RecentEntries(t: Tables, limit: int): (r: seq<Entry>)
    requires WellKeyed(t)
    ensures |r| <= |AllEntries(t)| && r == AllEntries(t)[..|r|]
    ensures limit >= 0 ==> |r| == if limit < |AllEntries(t)| then limit else |AllEntries(t)|
    ensures limit < 0 ==> r == AllEntries(t)
  {
    var all := AllEntries(t);
    if limit < 0 || limit >= |all| then all else all[..limit]
  }

  /** The rows `getRecentEntries` leaves out are no newer than any row it returns. */
  lemma RecentAreNewest(t: Tables, limit: int, e: Entry, id: int)
    requires WellKeyed(t)
    requires e in RecentEntries(t, limit) && id in t.entries && t.entries[id] !in RecentEntries(t, limit)
    ensures e.timestamp >= t.entries[id].timestamp
  {
    var all := AllEntries(t);
    var r := RecentEntries(t, limit);
    var i :| 0 <= i < |r| && r[i] == e;
    var j :| 0 <= j < |all| && all[j] == t.entries[id];
    forall k | 0 <= k < |r| ensures all[k] in r {
      assert r[k] == all[k];
    }
    assert all[i] == e;
  }

  /** `getEntry(id)`: the row, or nothing for an unknown id. */
  function GetEntry(t: Tables, id: int): (r: Option<Entry>)
    ensures r.Some? <==> id in t.entries
    ensures r.Some? ==> r.value == t.entries[id]
  {
    if id in t.entries then Some(t.entries[id]) else None
  }

  /** An increasing sequence that holds exactly the elements of `S` is as long as `S` is large. */
  lemma {:induction false} IncreasingCard(ks: seq<int>, S: set<int>)
    requires forall i, j | 0 <= i < j < |ks| :: ks[i] < ks[j]
    requires forall x :: x in ks <==> x in S
    ensures |ks| == |S|
  {
    if ks == [] {
      assert S == {} by {
        forall x ensures x !in S {
          assert x !in ks;
        }
      }
    } else {
      var rest := S - {ks[0]};
      forall x ensures x in ks[1..] <==> x in rest {
        if x in ks[1..] {
          var j :| 0 <= j < |ks[1..]| && ks[1..][j] == x;
          assert ks[0] < ks[j + 1];
        }
        if x in rest {
          var j :| 0 <= j < |ks| && ks[j] == x;
          assert j != 0;
          assert ks[1..][j - 1] == x;
        }
      }
      IncreasingCard(ks[1..], rest);
    }
  }

  /** `getCount()`: `SELECT COUNT(*)`, the number of rows `getAllEntries` lists. */
  function Count(t: Tables): (r: nat)
    requires WellKeyed(t)
    ensures r == |AllEntries(t)|
    ensures r == 0 <==> t.entries == map[]
  {
    var ks := KeysFrom(t.entries, 1, t.nextEntryId);
    IncreasingCard(ks, t.entries.Keys);
    var rows := EntriesById(t);
    assert |rows| == |ks|;
    assert |multiset(SortBy(rows, Newer))| == |multiset(rows)|;
    |t.entries|
  }

  /** `content LIKE '%query%' OR custom_name LIKE '%query%'`; a NULL name matches nothing. */
  predicate SearchMatches(e: Entry, query: string) {
    || Like(e.content, ContainsPattern(query))
    || (e.customName.Some? && Like(e.customName.value, ContainsPattern(query)))
  }

  /** `searchEntries(query)`; an encrypted row is matched on its stored ciphertext. */
  function SearchEntries(t: Tables, query: string): (r: seq<Entry>)
    requires WellKeyed(t)
    ensures ListsRows(r, t, (e: Entry) => SearchMatches(e, query))
  {
    var all := AllEntries(t);
    FilterOrdered(all, (e: Entry) => SearchMatches(e, query), Newer);
    FilterDistinct(all, (e: Entry) => SearchMatches(e, query));
    Filter(all, (e: Entry) => SearchMatches(e, query))
  }

  /** For a query without `%` or `_`, search is case-insensitive substring search on content and name. */
  lemma SearchLiteralQuery(t: Tables, query: string, e: Entry)
    requires WellKeyed(t) && IsLiteral(query)
    ensures e in SearchEntries(t, query) <==>
      && e.id in t.entries && t.entries[e.id] == e
      && (|| Includes(Lower(e.content), Lower(query))
          || (e.customName.Some? && Includes(Lower(e.customName.value), Lower(query))))
  {
    SearchPatternIsIncludes(e.content, query);
    if e.customName.Some? {
      SearchPatternIsIncludes(e.customName.value, query);
    }
  }

  /** `getEntriesByCategory(categoryId)`. */
  function EntriesByCategory(t: Tables, categoryId: int): (r: seq<Entry>)
    requires WellKeyed(t)
    ensures ListsRows(r, t, (e: Entry) => (e.id, categoryId) in t.links)
  {
    var all := AllEntries(t);
    FilterOrdered(all, (e: Entry) => (e.id, categoryId) in t.links, Newer);
    FilterDistinct(all, (e: Entry) => (e.id, categoryId) in t.links);
    Filter(all, (e: Entry) => (e.id, categoryId) in t.links)
  }

  /** `getEntriesByDateRange(start, end)`: both ends inclusive. */
  function EntriesByDateRange(t: Tables, start: int, end: int): (r: seq<Entry>)
    requires WellKeyed(t)
    ensures ListsRows(r, t, (e: Entry) => start <= e.timestamp <= end)
  {
    var all := AllEntries(t);
    FilterOrdered(all, (e: Entry) => start <= e.timestamp <= end, Newer);
    FilterDistinct(all, (e: Entry) => start <= e.timestamp <= end);
    Filter(all, (e: Entry) => start <= e.timestamp <= end)
  }

  /** The rows of `custom_categories` in id order. */
  function CategoriesById(t: Tables): (r: seq<Category>)
    requires WellKeyed(t)
    ensures forall c | c in r :: c.id in t.categories && t.categories[c.id] == c
    ensures forall id | id in t.categories :: t.categories[id] in r
    ensures Distinct(r)
  {
    var ks := KeysFrom(t.categories, 1, t.nextCategoryId);
    var r := seq(|ks|, i requires 0 <= i < |ks| => t.categories[ks[i]]);
    CategoryRowsDistinct(t, ks, r);
    assert forall id | id in t.categories :: t.categories[id] in r by {
      forall id | id in t.categories ensures t.categories[id] in r {
        var i :| 0 <= i < |ks| && ks[i] == id;
        assert r[i] == t.categories[id];
      }
    }
    r
  }

  lemma CategoryRowsDistinct(t: Tables, ks: seq<int>, r: seq<Category>)
    requires WellKeyed(t)
    requires forall i, j | 0 <= i < j < |ks| :: ks[i] < ks[j]
    requires |r| == |ks| && forall i | 0 <= i < |ks| :: ks[i] in t.categories && r[i] == t.categories[ks[i]]
    ensures Distinct(r)
  {
    forall i, j | 0 <= i < j < |r| ensures r[i] != r[j] {
      assert r[i].id == ks[i] && r[j].id == ks[j];
    }
  }

  /**
   * `getEntryCategories(entryId)`: the categories linked to the entry. The
   * query has no ORDER BY; the model lists them by id.
   */
  function EntryCategories(t: Tables, entryId: int): (r: seq<Category>)
    requires WellKeyed(t)
    ensures forall c | c in r :: c.id in t.categories && t.categories[c.id] == c && (entryId, c.id) in t.links
    ensures forall id | id in t.categories && (entryId, id) in t.links :: t.categories[id] in r
    ensures Distinct(r)
  {
    var cats := CategoriesById(t);
    FilterDistinct(cats, (c: Category) => (entryId, c.id) in t.links);
    Filter(cats, (c: Category) => (entryId, c.id) in t.links)
  }

  /** `getAllEntriesWithCategories()`: every entry, newest first, each with its categories. */
  function AllEntriesWithCategories(t: Tables): (r: seq<EntryWithCategories>)
    requires WellKeyed(t)
    ensures |r| == |AllEntries(t)|
    ensures forall i | 0 <= i < |r| ::
      r[i].entry == AllEntries(t)[i] && r[i].categories == EntryCategories(t, r[i].entry.id)
  {
    var all := AllEntries(t);
    seq(|all|, i requires 0 <= i < |all| => EntryWithCategories(all[i], EntryCategories(t, all[i].id)))
  }

  /** SQLite's BINARY collation: code point by code point, a proper prefix first. */
  predicate NameLe(a: string, b: string) {
    a == [] || (b != [] && (a[0] < b[0] || (a[0] == b[0] && NameLe(a[1..], b[1..]))))
  }

  lemma {:induction false} NameLeTotal(a: string, b: string)
    ensures NameLe(a, b) || NameLe(b, a)
  {
    if a != [] && b != [] && a[0] == b[0] {
      NameLeTotal(a[1..], b[1..]);
    }
  }

  lemma {:induction false} NameLeTransitive(a: string, b: string, c: string)
    requires NameLe(a, b) && NameLe(b, c)
    ensures NameLe(a, c)
  {
    if a != [] && b != [] && c != [] && a[0] == b[0] && b[0] == c[0] {
      NameLeTransitive(a[1..], b[1..], c[1..]);
    }
  }

  /** `ORDER BY name ASC`. */
  function ByName(a: Category, b: Category): bool {
    NameLe(a.name, b.name)
  }

  /** `getAllCategories()`: every category once, in the binary collation order of their names. */
  function AllCategories(t: Tables): (r: seq<Category>)
    requires WellKeyed(t)
    ensures forall c | c in r :: c.id in t.categories && t.categories[c.id] == c
    ensures forall id | id in t.categories :: t.categories[id] in r
    ensures Distinct(r)
    ensures Ordered(r, ByName)
  {
    var cats := CategoriesById(t);
    forall a, b ensures ByName(a, b) || ByName(b, a) {
      NameLeTotal(a.name, b.name);
    }
    forall a, b, c | ByName(a, b) && ByName(b, c) ensures ByName(a, c) {
      NameLeTransitive(a.name, b.name, c.name);
    }
    SortByFacts(cats, ByName);
    SortBy(cats, ByName)
  }
}
