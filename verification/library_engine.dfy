/**
 * The offline viewer's catalogue queries over the entries of `library.json`:
 * the category list, the entries of one category, and keyword search.
 */
module LibraryEngine {
  import opened Results
  import opened Text
  import opened Seqs
  import opened Order

  /** One catalogue entry; a key missing from the entry's dict is `None`. */
  datatype LibEntry = LibEntry(
    title: Option<string>,
    description: Option<string>,
    category: Option<string>,
    symptoms: Option<seq<string>>)

  /** `e.get("category", "Uncategorized")`. */
  function CategoryOf(e: LibEntry): string {
    e.category.GetOr("Uncategorized")
  }

  /** The category of every entry, in entry order, duplicates included. */
  function CategoryList(entries: seq<LibEntry>): (cs: seq<string>)
    ensures |cs| == |entries|
    ensures forall i :: 0 <= i < |entries| ==> cs[i] == CategoryOf(entries[i])
  {
    seq(|entries|, i requires 0 <= i < |entries| => CategoryOf(entries[i]))
  }

  /** Some entry, by its category or by the default, is filed under `c`. */
  ghost predicate Listed(entries: seq<LibEntry>, c: string) {
    exists i :: 0 <= i < |entries| && CategoryOf(entries[i]) == c
  }

  /**
   * `get_categories`: the set of categories, sorted. The result is strictly
   * increasing, so it lists each category once.
   */
  function GetCategories(entries: seq<LibEntry>): (r: seq<string>)
    ensures StrictlySorted(r)
    ensures forall c :: c in r <==> Listed(entries, c)
  {
    var cs := CategoryList(entries);
    assert forall c :: c in cs <==> Listed(entries, c) by {
      forall c | c in cs ensures Listed(entries, c) {
        var i :| 0 <= i < |cs| && cs[i] == c;
      }
    }
    SortedSet(cs)
  }

  /** No other list is sorted, duplicate-free and holds the same categories. */
  lemma GetCategoriesCanonical(entries: seq<LibEntry>, other: seq<string>)
    requires StrictlySorted(other)
    requires forall c :: c in other <==> Listed(entries, c)
    ensures other == GetCategories(entries)
  {
    StrictlySortedUnique(other, GetCategories(entries));
  }

  /** An entry without a `category` key shows up as `"Uncategorized"`. */
  lemma MissingCategoryListedAsUncategorized(entries: seq<LibEntry>, i: int)
    requires 0 <= i < |entries| && entries[i].category.None?
    ensures "Uncategorized" in GetCategories(entries)
  {
    assert CategoryOf(entries[i]) == "Uncategorized";
  }

  /**
   * `get_entries_for_category(c)`: the entries whose `category` key equals
   * `c`, in catalogue order and with their multiplicity. An entry without the
   * key compares as `None` and so never matches.
   */
  function GetEntriesForCategory(entries: seq<LibEntry>, c: string): (r: seq<LibEntry>)
    ensures forall e :: multiset(r)[e] == if e.category == Some(c) then multiset(entries)[e] else 0
    ensures IsSubsequence(r, entries)
  {
    var keep := (e: LibEntry) => e.category == Some(c);
    FilterIsSubsequence(entries, keep);
    Filter(entries, keep)
  }

  /**
   * The category list and the category filter disagree on entries without a
   * category: such an entry is listed under `"Uncategorized"`, yet the
   * filter for `"Uncategorized"` does not return it.
   */
  lemma UncategorizedListedButEmpty()
    ensures "Uncategorized" in GetCategories([LibEntry(Some("Printer jams"), None, None, None)])
    ensures GetEntriesForCategory([LibEntry(Some("Printer jams"), None, None, None)], "Uncategorized") == []
  {
    MissingCategoryListedAsUncategorized([LibEntry(Some("Printer jams"), None, None, None)], 0);
  }

  /** The category filter with the same default the category list applies. */
  function GetEntriesForListedCategory(entries: seq<LibEntry>, c: string): (r: seq<LibEntry>)
    ensures forall e :: multiset(r)[e] == if CategoryOf(e) == c then multiset(entries)[e] else 0
    ensures IsSubsequence(r, entries)
  {
    var keep := (e: LibEntry) => CategoryOf(e) == c;
    FilterIsSubsequence(entries, keep);
    Filter(entries, keep)
  }

  /** With the defaulted filter, a category is listed exactly when browsing it finds an entry. */
  lemma EveryListedCategoryHasEntries(entries: seq<LibEntry>, c: string)
    ensures c in GetCategories(entries) <==> GetEntriesForListedCategory(entries, c) != []
  {
    var r := GetEntriesForListedCategory(entries, c);
    if c in GetCategories(entries) {
      var i :| 0 <= i < |entries| && CategoryOf(entries[i]) == c;
      assert entries[i] in multiset(entries);
      assert multiset(r)[entries[i]] > 0;
    }
    if r != [] {
      assert r[0] in multiset(r);
      assert r[0] in multiset(entries);
      var i :| 0 <= i < |entries| && entries[i] == r[0];
      assert Listed(entries, c);
    }
  }

  /** Some symptom, lowered, contains `q`. */
  predicate AnySymptomMatches(symptoms: seq<string>, q: string) {
    exists k :: 0 <= k < |symptoms| && IsInfix(q, Lower(symptoms[k]))
  }

  /**
   * The search condition for the lowered query `q`: it occurs in the lowered
   * title, the lowered description or some lowered symptom, a missing title
   * or description counting as `""` and missing symptoms as none.
   */
  predicate Matches(e: LibEntry, q: string) {
    || IsInfix(q, Lower(e.title.GetOr("")))
    || IsInfix(q, Lower(e.description.GetOr("")))
    || AnySymptomMatches(e.symptoms.GetOr([]), q)
  }

  /**
   * `search(query)`: nothing for a blank query; otherwise the entries matching
   * the lowered query, in catalogue order and with their multiplicity. The
   * query is lowered but not stripped.
   */
  function Search(entries: seq<LibEntry>, query: string): (r: seq<LibEntry>)
    ensures Blank(query) ==> r == []
    ensures !Blank(query) ==>
              forall e :: multiset(r)[e] == if Matches(e, Lower(query)) then multiset(entries)[e] else 0
    ensures IsSubsequence(r, entries)
  {
    if Strip(query) == [] then []
    else
      var q := Lower(query);
      var keep := (e: LibEntry) => Matches(e, q);
      FilterIsSubsequence(entries, keep);
      Filter(entries, keep)
  }

  /** Queries with the same lowercase form give the same results, in the same order. */
  lemma SearchIgnoresCase(entries: seq<LibEntry>, q1: string, q2: string)
    requires Lower(q1) == Lower(q2)
    ensures Search(entries, q1) == Search(entries, q2)
  {
    LowerKeepsBlankness(q1);
    LowerKeepsBlankness(q2);
    if !Blank(q1) {
      var k1 := (e: LibEntry) => Matches(e, Lower(q1));
      var k2 := (e: LibEntry) => Matches(e, Lower(q2));
      FilterCongruent(entries, k1, k2);
    }
  }

  /** A query and its lowercase form give the same results. */
  lemma SearchLoweredQuery(entries: seq<LibEntry>, query: string)
    ensures Search(entries, Lower(query)) == Search(entries, query)
  {
    LowerIdempotent(query);
    SearchIgnoresCase(entries, Lower(query), query);
  }

  /** An entry titled "Cable" that the leading space of a query misses. */
  function CableEntry(): LibEntry {
    LibEntry(Some("Cable"), None, None, None)
  }

  /** The title "Cable" lowered. */
  lemma CableLowered()
    ensures Lower("Cable") == "cable"
  {
  }

  /** Surrounding spaces are part of the needle: `" cable"` misses a title that `"CABLE"` finds. */
  lemma SearchDoesNotStripQuery()
    ensures Search([CableEntry()], "CABLE") == [CableEntry()]
    ensures Search([CableEntry()], " cable") == []
  {
    CableLowered();
    assert Lower("CABLE") == "cable";
    assert IsInfix("cable", "cable");
    assert Lower(" cable") == " cable";
    assert !Blank(" cable") by {
      assert !IsSpace(" cable"[1]);
    }
    assert !IsInfix(" cable", "cable");
    assert Lower("") == "";
    assert !IsInfix(" cable", "");
    assert !Matches(CableEntry(), " cable");
    assert !Blank("CABLE") by {
      assert !IsSpace("CABLE"[0]);
    }
    assert Matches(CableEntry(), "cable");
    assert multiset(Search([CableEntry()], " cable"))[CableEntry()] == 0;
  }
}
