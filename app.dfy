/**
 * The renderer's main view (src/App.js): the three-stage filter that turns
 * the entries fetched with their categories into the visible list, and the
 * "add entry" dialog's submit handler. React state is modelled as the fields
 * of a class; the clock is a parameter.
 */
module AppView {
  import opened Wrappers
  import opened Text
  import opened Ordering
  import opened Patterns
  import opened Schema
  import Operations
  import MainProcess

  // ----- the category stage -----

  /** The sidebar's key for a custom category: `custom-${category.id}`. */
  function CustomKey(id: nat): (key: string)
    ensures StartsWith(key, "custom-") && key[7..] == Decimal(id)
  {
    "custom-" + Decimal(id)
  }

  /**
   * Whether an entry passes the selected sidebar category. A `custom-` key
   * whose rest does not parse (`NaN`) matches nothing; any other key,
   * `all` included, keeps everything.
   */
  function InCategory(e: EntryWithCategories, category: string): (r: bool)
    ensures (category != "favorites" && category != "urls" && category != "emails" && category != "code" &&
             !StartsWith(category, "custom-")) ==> r
    ensures StartsWith(category, "custom-") && ParseInt(category[7..]).None? ==> !r
  {
    assert StartsWith(category, "custom-") ==> category[0] == 'c' && category[1] == 'u' by {
      if StartsWith(category, "custom-") {
        assert category[..7][0] == 'c' && category[..7][1] == 'u';
      }
    }
    if category == "favorites" then e.entry.isFavorite
    else if category == "urls" then IsUrl(e.entry.content)
    else if category == "emails" then IsEmail(e.entry.content)
    else if category == "code" then IsCode(e.entry.content)
    else if StartsWith(category, "custom-") then TaggedWith(e, ParseInt(category[7..]))
    else true
  }

  /** `(e.categories || []).some(c => c.id === catId)`; `NaN` equals no id. */
  predicate TaggedWith(e: EntryWithCategories, catId: Option<int>) {
    catId.Some? && exists c | c in e.categories :: c.id == catId.value
  }

  /** Selecting a custom category in the sidebar keeps exactly the entries tagged with it. */
  lemma CustomKeySelectsTagged(e: EntryWithCategories, id: nat)
    ensures InCategory(e, CustomKey(id)) <==> exists c | c in e.categories :: c.id == id
  {
    var key := CustomKey(id);
    assert key != "favorites" && key != "urls" && key != "emails" && key != "code" by {
      assert key[0] == 'c' && key[1] == 'u';
    }
    assert InCategory(e, key) == TaggedWith(e, ParseInt(Decimal(id)));
    ParseIntDecimal(id);
  }

  // ----- the search stage -----

  /** Case-insensitive substring search over the content and a non-empty custom name. */
  function MatchesQuery(e: EntryWithCategories, query: string): (r: bool)
    ensures Includes(e.entry.content, query) ==> r
    ensures r ==> |query| <= |e.entry.content| || (e.entry.customName.Some? && |query| <= |e.entry.customName.value|)
  {
    LowerKeepsOccurrence(e.entry.content, query);
    || Includes(Lower(e.entry.content), Lower(query))
    || (e.entry.customName.Some? && e.entry.customName.value != "" && Includes(Lower(e.entry.customName.value), Lower(query)))
  }

  /** A text that holds the query as written also holds it once both are lower-cased. */
  lemma LowerKeepsOccurrence(s: string, q: string)
    ensures Includes(s, q) ==> Includes(Lower(s), Lower(q))
  {
    if Includes(s, q) {
      var i :| OccursAt(s, q, i);
      assert Lower(s)[i..i + |q|] == Lower(q) by {
        forall k | 0 <= k < |q| ensures Lower(s)[i..i + |q|][k] == Lower(q)[k] {
          assert s[i + k] == q[k];
        }
      }
      assert OccursAt(Lower(s), Lower(q), i);
    }
  }

  /** The search stage: an empty query filters nothing. */
  predicate PassesSearch(e: EntryWithCategories, query: string) {
    query == "" || MatchesQuery(e, query)
  }

  // ----- the date stage -----

  /** What the date stage keeps: everything, a closed interval, or nothing at all. */
  datatype DateBounds = AllDates | Between(start: int, end: int) | NoDates

  const DayMillis: int := 24 * 60 * 60 * 1000

  /**
   * The bounds for a date range, given the current time and the local
   * midnights that start today and yesterday. An unknown range leaves the
   * start undefined, and a comparison with it is false for every entry.
   */
  function RangeBounds(range: string, now: int, todayStart: int, yesterdayStart: int): (b: DateBounds)
    ensures range == "all" <==> b == AllDates
    ensures range == "today" ==> b == Between(todayStart, now)
    ensures range == "yesterday" ==> b == Between(yesterdayStart, todayStart)
    ensures range == "last7days" ==> b == Between(now - 7 * 86400000, now)
    ensures range == "last30days" ==> b == Between(now - 30 * 86400000, now)
    ensures range == "last90days" ==> b == Between(now - 90 * 86400000, now)
    ensures range !in {"all", "today", "yesterday", "last7days", "last30days", "last90days"} ==> b == NoDates
  {
    if range == "all" then AllDates
    else if range == "today" then Between(todayStart, now)
    else if range == "yesterday" then Between(yesterdayStart, todayStart)
    else if range == "last7days" then Between(now - 7 * DayMillis, now)
    else if range == "last30days" then Between(now - 30 * DayMillis, now)
    else if range == "last90days" then Between(now - 90 * DayMillis, now)
    else NoDates
  }

  predicate WithinBounds(e: EntryWithCategories, b: DateBounds) {
    match b
    case AllDates => true
    case Between(start, end) => start <= e.entry.timestamp <= end
    case NoDates => false
  }

  /** All three stages at once: the reference for `FilterEntries`. */
  function Shown(e: EntryWithCategories, category: string, query: string, b: DateBounds): (r: bool)
    ensures b == NoDates ==> !r
    ensures category == "all" && query == "" && b == AllDates ==> r
  {
    InCategory(e, category) && PassesSearch(e, query) && WithinBounds(e, b)
  }

  /** The category stage. */
  function CategoryStage(all: seq<EntryWithCategories>, category: string): seq<EntryWithCategories> {
    Filter(all, (e: EntryWithCategories) => InCategory(e, category))
  }

  /** The search stage, skipped for an empty query. */
  function SearchStage(s: seq<EntryWithCategories>, query: string): seq<EntryWithCategories> {
    if query != "" then Filter(s, (e: EntryWithCategories) => MatchesQuery(e, query)) else s
  }

  /** The date stage, skipped for the `all` range. */
  function DateStage(s: seq<EntryWithCategories>, b: DateBounds): seq<EntryWithCategories> {
    if b != AllDates then Filter(s, (e: EntryWithCategories) => WithinBounds(e, b)) else s
  }

  /**
   * `filterEntries(allEntries, category, query, range)`: the category stage,
   * then the search stage, then the date stage, each an `Array.filter`.
   * The staged result is the single filter by `Shown`, so it keeps the fetched
   * order and holds exactly the entries that pass all three stages.
   */
  function FilterEntries(all: seq<EntryWithCategories>, category: string, query: string, b: DateBounds): (r: seq<EntryWithCategories>)
    ensures r == Filter(all, (e: EntryWithCategories) => Shown(e, category, query, b))
    ensures IsSubsequence(r, all)
    ensures forall e | e in r :: e in all && Shown(e, category, query, b)
    ensures forall e | e in all && Shown(e, category, query, b) :: e in r
  {
    StagesFuse(all, category, query, b);
    DateStage(SearchStage(CategoryStage(all, category), query), b)
  }

  lemma SearchStageIsFilter(s: seq<EntryWithCategories>, query: string)
    ensures SearchStage(s, query) == Filter(s, (e: EntryWithCategories) => PassesSearch(e, query))
  {
    if query == "" {
      FilterAll(s, (e: EntryWithCategories) => PassesSearch(e, query));
    } else {
      FilterSame(s, (e: EntryWithCategories) => MatchesQuery(e, query), (e: EntryWithCategories) => PassesSearch(e, query));
    }
  }

  lemma DateStageIsFilter(s: seq<EntryWithCategories>, b: DateBounds)
    ensures DateStage(s, b) == Filter(s, (e: EntryWithCategories) => WithinBounds(e, b))
  {
    if b == AllDates {
      FilterAll(s, (e: EntryWithCategories) => WithinBounds(e, b));
    }
  }

  /** The three stages, with the skipped ones made explicit, amount to filtering by `Shown`. */
  lemma StagesFuse(all: seq<EntryWithCategories>, category: string, query: string, b: DateBounds)
    ensures DateStage(SearchStage(CategoryStage(all, category), query), b) ==
      Filter(all, (e: EntryWithCategories) => Shown(e, category, query, b))
  {
    var pc := (e: EntryWithCategories) => InCategory(e, category);
    var ps := (e: EntryWithCategories) => PassesSearch(e, query);
    var pd := (e: EntryWithCategories) => WithinBounds(e, b);
    var pcs := (e: EntryWithCategories) => InCategory(e, category) && PassesSearch(e, query);
    var c := Filter(all, pc);
    SearchStageIsFilter(c, query);
    FilterTwo(all, pc, ps, pcs);
    DateStageIsFilter(Filter(all, pcs), b);
    FilterTwo(all, pcs, pd, (e: EntryWithCategories) => Shown(e, category, query, b));
  }

  /** An unknown date range empties the list, whatever the other two stages keep. */
  lemma UnknownRangeShowsNothing(all: seq<EntryWithCategories>, category: string, query: string, range: string, now: int, todayStart: int, yesterdayStart: int)
    requires range !in {"all", "today", "yesterday", "last7days", "last30days", "last90days"}
    ensures FilterEntries(all, category, query, RangeBounds(range, now, todayStart, yesterdayStart)) == []
  {
    var b := RangeBounds(range, now, todayStart, yesterdayStart);
    FilterNone(all, (e: EntryWithCategories) => Shown(e, category, query, b));
  }

  /** The sidebar's `all`, an empty query and the `all` range show every fetched entry, in order. */
  lemma NoFiltersShowsEverything(all: seq<EntryWithCategories>)
    ensures FilterEntries(all, "all", "", AllDates) == all
  {
    FilterAll(all, (e: EntryWithCategories) => Shown(e, "all", "", AllDates));
  }

  // ----- the "add entry" dialog -----

  /** The form state of the "add entry" dialog. */
  class AddEntryDialog {
    var open: bool
    var newEntryText: string
    var newEntryTitle: string
    var encryptEntry: bool
    var entryPassword: string
    var showPassword: bool

    constructor ()
      ensures !open && newEntryText == "" && newEntryTitle == "" && !encryptEntry && entryPassword == "" && !showPassword
    {
      open := false;
      newEntryText := "";
      newEntryTitle := "";
      encryptEntry := false;
      entryPassword := "";
      showPassword := false;
    }

    /**
     * `handleAddEntry`: blank text does nothing at all. Otherwise the text goes
     * to `add-entry` with the form's options, the dialog closes, the form is
     * reset, and the snackbar message follows the checkbox as it was.
     */
    method HandleAddEntry(main: MainProcess.MainState, now: int, iv: string) returns (message: Option<string>)
      requires main.Valid()
      modifies this, main.db
      ensures main.Valid()
      ensures Trim(old(newEntryText)) == "" ==>
        message == None && unchanged(this) && (main.db != null ==> main.db.State() == old(main.db.State()))
      ensures Trim(old(newEntryText)) != "" ==>
        && message == Some(if old(encryptEntry) then "Encrypted entry added!" else "Entry added!")
        && !open && newEntryText == "" && newEntryTitle == "" && !encryptEntry && entryPassword == "" && !showPassword
        && (main.db != null ==> main.db.State() == Operations.AddEntry(old(main.db.State()), main.db.crypto, old(newEntryText),
              Operations.AddOptions(old(encryptEntry), old(entryPassword), old(newEntryTitle)), now, iv).0)
    {
      if Trim(newEntryText) == "" {
        return None;
      }
      var opts := Operations.AddOptions(encryptEntry, entryPassword, newEntryTitle);
      ghost var before := if main.db != null then main.db.State() else EmptyTables();
      var _ := main.HandleAddEntry(newEntryText, opts, now, iv);
      assert main.db != null ==> main.db.State() == Operations.AddEntry(before, main.db.crypto, newEntryText, opts, now, iv).0;
      message := Some(if encryptEntry then "Encrypted entry added!" else "Entry added!");
      open := false;
      newEntryText := "";
      newEntryTitle := "";
      encryptEntry := false;
      entryPassword := "";
      showPassword := false;
    }
  }

  /**
   * With the checkbox ticked but no password typed, the snackbar says
   * "Encrypted entry added!" while the row is stored as plain text.
   */
  lemma EncryptWithoutPasswordStoresPlaintext(c: Crypto, id: int, content: string, title: string, now: int, iv: string)
    ensures var e := Operations.NewRow(c, id, content, Operations.AddOptions(true, "", title), now, iv);
      !e.isEncrypted && e.content == content && e.iv == None
  {
  }
}
