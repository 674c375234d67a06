/**
 * The planning logic of `LibraryBuilder.build`: group the manifest by
 * category, walk the categories in sorted order, count every entry, skip
 * blank texts and failed analyses, and build one catalogue entry per saved
 * tree. The model call and JSON parsing are one abstract `analyze`; the
 * validator is the model of `TreeBuilder.validate`.
 */
module LibraryBuilder {
  import opened Results
  import opened PyJson
  import opened Text
  import opened Order
  import opened OrderedMaps
  import opened Seqs
  import opened TreeBuilder
  import opened BulkIngestor

  /** One `(rel_str, entry)` pair of `manifest.items()`. */
  datatype Item = Item(relPath: string, entry: ManifestEntry)

  /** `entry.get("category", "Uncategorized")`: the group an entry goes to. */
  function GroupKey(it: Item): string {
    it.entry.category.GetOr("Uncategorized")
  }

  /** `manifest.items()`, in insertion order. */
  function Items(m: Manifest): (r: seq<Item>)
    requires m.Valid()
    ensures |r| == |m.keys|
    ensures forall i :: 0 <= i < |r| ==> r[i].relPath == m.keys[i] && m.keys[i] in m.values && r[i].entry == m.values[m.keys[i]]
  {
    seq(|m.keys|, i requires 0 <= i < |m.keys| => assert m.keys[i] in m.values; Item(m.keys[i], m.values[m.keys[i]]))
  }

  // ---------------------------------------------------------------------
  // Grouping
  // ---------------------------------------------------------------------

  /** The groups: category to its items. */
  type Groups = OrderedMap<string, seq<Item>>

  /** The items grouped under `c` so far (none when `c` has no group yet). */
  function GroupOf(g: Groups, c: string): seq<Item> {
    if c in g.values then g.values[c] else []
  }

  /** Reference definition of a group: the items of category `c`, in order. */
  function InCategory(items: seq<Item>, c: string): (r: seq<Item>)
    ensures |r| <= |items|
    decreases |items|
  {
    if items == [] then []
    else (if GroupKey(items[0]) == c then [items[0]] else []) + InCategory(items[1..], c)
  }

  /** Some item has category `c`. */
  ghost predicate HasCategory(items: seq<Item>, c: string) {
    exists i :: 0 <= i < |items| && GroupKey(items[i]) == c
  }

  /** `categories.setdefault(cat, []).append((rel_str, entry))` for each item in turn. */
  function GroupFrom(items: seq<Item>, acc: Groups): (r: Groups)
    requires acc.Valid()
    ensures r.Valid()
    decreases |items|
  {
    if items == [] then acc
    else
      var c := GroupKey(items[0]);
      GroupFrom(items[1..], Put(acc, c, GroupOf(acc, c) + [items[0]]))
  }

  /** Appending to one group leaves the others alone. */
  lemma GroupOfPut(acc: Groups, k: string, v: seq<Item>, c: string)
    requires acc.Valid()
    ensures GroupOf(Put(acc, k, v), c) == if c == k then v else GroupOf(acc, c)
  {
  }

  /** The reference group of a non-empty list, split at its first item. */
  lemma InCategoryCons(items: seq<Item>, c: string)
    requires items != []
    ensures InCategory(items, c) == (if GroupKey(items[0]) == c then [items[0]] else []) + InCategory(items[1..], c)
  {
  }

  /** One step of the grouping fold. */
  lemma GroupFromStep(items: seq<Item>, acc: Groups)
    requires acc.Valid() && items != []
    ensures Put(acc, GroupKey(items[0]), GroupOf(acc, GroupKey(items[0])) + [items[0]]).Valid()
    ensures GroupFrom(items, acc) == GroupFrom(items[1..], Put(acc, GroupKey(items[0]), GroupOf(acc, GroupKey(items[0])) + [items[0]]))
  {
  }

  /** Each group is what it held before plus the items of its category, in order. */
  lemma {:induction false} GroupFromContents(items: seq<Item>, acc: Groups, c: string)
    requires acc.Valid()
    ensures GroupOf(GroupFrom(items, acc), c) == GroupOf(acc, c) + InCategory(items, c)
    decreases |items|
  {
    if items != [] {
      var k := GroupKey(items[0]);
      var v := GroupOf(acc, k) + [items[0]];
      var acc' := Put(acc, k, v);
      var front := if k == c then [items[0]] else [];
      GroupFromStep(items, acc);
      GroupFromContents(items[1..], acc', c);
      GroupOfPut(acc, k, v, c);
      assert GroupOf(acc', c) == GroupOf(acc, c) + front;
      InCategoryCons(items, c);
      AppendAssoc(GroupOf(acc, c), front, InCategory(items[1..], c));
      calc {
        GroupOf(GroupFrom(items, acc), c);
        GroupOf(GroupFrom(items[1..], acc'), c);
        GroupOf(acc', c) + InCategory(items[1..], c);
        GroupOf(acc, c) + front + InCategory(items[1..], c);
        GroupOf(acc, c) + (front + InCategory(items[1..], c));
        GroupOf(acc, c) + InCategory(items, c);
      }
    } else {
      assert GroupFrom(items, acc) == acc;
      assert InCategory(items, c) == [];
      assert GroupOf(acc, c) + [] == GroupOf(acc, c);
    }
  }

  /** Whether a non-empty list has category `c`, split at its first item. */
  lemma HasCategoryCons(items: seq<Item>, c: string)
    requires items != []
    ensures HasCategory(items, c) <==> GroupKey(items[0]) == c || HasCategory(items[1..], c)
  {
    if HasCategory(items[1..], c) {
      var i :| 0 <= i < |items[1..]| && GroupKey(items[1..][i]) == c;
      assert items[i + 1] == items[1..][i];
    }
    if HasCategory(items, c) && GroupKey(items[0]) != c {
      var i :| 0 <= i < |items| && GroupKey(items[i]) == c;
      assert items[1..][i - 1] == items[i];
    }
  }

  /** The groups are those already there and one per category of the items. */
  lemma {:induction false} GroupFromKeys(items: seq<Item>, acc: Groups)
    requires acc.Valid()
    ensures forall c :: c in GroupFrom(items, acc).values <==> c in acc.values || HasCategory(items, c)
    decreases |items|
  {
    if items != [] {
      var k := GroupKey(items[0]);
      var acc' := Put(acc, k, GroupOf(acc, k) + [items[0]]);
      GroupFromStep(items, acc);
      GroupFromKeys(items[1..], acc');
      forall c ensures c in GroupFrom(items, acc).values <==> c in acc.values || HasCategory(items, c) {
        HasCategoryCons(items, c);
      }
    }
  }

  /** The grouping of a manifest. */
  function Group(m: Manifest): (g: Groups)
    requires m.Valid()
    ensures g.Valid()
  {
    GroupFrom(Items(m), Empty())
  }

  /** Each group holds exactly the entries of its category, in manifest order, and there is a group per category present. */
  lemma GroupsAreFilters(m: Manifest, c: string)
    requires m.Valid()
    ensures GroupOf(Group(m), c) == InCategory(Items(m), c)
    ensures c in Group(m).values <==> HasCategory(Items(m), c)
  {
    GroupFromContents(Items(m), Empty(), c);
    GroupFromKeys(Items(m), Empty());
  }

  // ---------------------------------------------------------------------
  // Counting
  // ---------------------------------------------------------------------

  /** No category is listed twice. */
  ghost predicate Distinct(cs: seq<string>) {
    forall i, j :: 0 <= i < j < |cs| ==> cs[i] != cs[j]
  }

  /** The number of items over the categories `cs`. */
  function SumSizes(items: seq<Item>, cs: seq<string>): nat
    decreases |cs|
  {
    if cs == [] then 0 else |InCategory(items, cs[0])| + SumSizes(items, cs[1..])
  }

  /** Adding one item in front adds one to the count when its category is listed. */
  lemma {:induction false} SumSizesCons(x: Item, rest: seq<Item>, cs: seq<string>)
    requires Distinct(cs)
    ensures SumSizes([x] + rest, cs) == SumSizes(rest, cs) + (if GroupKey(x) in cs then 1 else 0)
    decreases |cs|
  {
    if cs != [] {
      assert ([x] + rest)[1..] == rest;
      assert Distinct(cs[1..]) by {
        forall i, j | 0 <= i < j < |cs[1..]| ensures cs[1..][i] != cs[1..][j] {
          assert cs[1..][i] == cs[i + 1] && cs[1..][j] == cs[j + 1];
        }
      }
      SumSizesCons(x, rest, cs[1..]);
      if GroupKey(x) == cs[0] {
        assert GroupKey(x) !in cs[1..] by {
          forall j | 0 <= j < |cs[1..]| ensures cs[1..][j] != cs[0] {
            assert cs[1..][j] == cs[j + 1];
          }
        }
      }
      assert GroupKey(x) in cs <==> GroupKey(x) == cs[0] || GroupKey(x) in cs[1..];
    }
  }

  /** Over distinct categories covering every item, the groups add up to all the items. */
  lemma {:induction false} SumSizesCovers(items: seq<Item>, cs: seq<string>)
    requires Distinct(cs)
    requires forall i :: 0 <= i < |items| ==> GroupKey(items[i]) in cs
    ensures SumSizes(items, cs) == |items|
    decreases |items|
  {
    if items == [] {
      SumSizesEmpty(cs);
    } else {
      assert items == [items[0]] + items[1..];
      SumSizesCons(items[0], items[1..], cs);
      assert forall i :: 0 <= i < |items[1..]| ==> items[1..][i] == items[i + 1];
      SumSizesCovers(items[1..], cs);
    }
  }

  /** No items, no count. */
  lemma {:induction false} SumSizesEmpty(cs: seq<string>)
    ensures SumSizes([], cs) == 0
    decreases |cs|
  {
    if cs != [] {
      SumSizesEmpty(cs[1..]);
    }
  }

  /** `sum(len(v) for v in categories.values())`, the sizes of the groups `cs`. */
  function Total(g: Groups, cs: seq<string>): nat
    decreases |cs|
  {
    if cs == [] then 0 else |GroupOf(g, cs[0])| + Total(g, cs[1..])
  }

  /** Over any categories, the group sizes of a manifest are the sizes of the reference groups. */
  lemma {:induction false} TotalIsSumSizes(m: Manifest, cs: seq<string>)
    requires m.Valid()
    ensures Total(Group(m), cs) == SumSizes(Items(m), cs)
    decreases |cs|
  {
    if cs != [] {
      GroupsAreFilters(m, cs[0]);
      TotalIsSumSizes(m, cs[1..]);
    }
  }

  /** Every item's category has a group. */
  lemma GroupKeysCover(m: Manifest)
    requires m.Valid()
    ensures forall i :: 0 <= i < |Items(m)| ==> GroupKey(Items(m)[i]) in Group(m).values
  {
    forall i | 0 <= i < |Items(m)| ensures GroupKey(Items(m)[i]) in Group(m).values {
      GroupsAreFilters(m, GroupKey(Items(m)[i]));
    }
  }

  /** `total` is the number of manifest entries. */
  lemma TotalIsManifestSize(m: Manifest)
    requires m.Valid()
    ensures Total(Group(m), Group(m).keys) == |m.keys|
  {
    TotalIsSumSizes(m, Group(m).keys);
    GroupKeysCover(m);
    SumSizesCovers(Items(m), Group(m).keys);
  }

  // ---------------------------------------------------------------------
  // Processing order
  // ---------------------------------------------------------------------

  /** One step of the nested loop: the category being walked and the item. */
  datatype Planned = Planned(category: string, item: Item)

  /** The items of one group, each tagged with the group's category. */
  function Tagged(c: string, items: seq<Item>): (r: seq<Planned>)
    ensures |r| == |items|
    ensures forall i :: 0 <= i < |r| ==> r[i] == Planned(c, items[i])
  {
    seq(|items|, i requires 0 <= i < |items| => Planned(c, items[i]))
  }

  /** The nested loop over the categories `cs` and the items of each group. */
  function PlanFrom(g: Groups, cs: seq<string>): (r: seq<Planned>)
    ensures |r| == Total(g, cs)
    ensures forall i :: 0 <= i < |r| ==> r[i].category in cs
    decreases |cs|
  {
    if cs == [] then []
    else
      var r := Tagged(cs[0], GroupOf(g, cs[0])) + PlanFrom(g, cs[1..]);
      assert forall i :: |GroupOf(g, cs[0])| <= i < |r| ==> r[i] == PlanFrom(g, cs[1..])[i - |GroupOf(g, cs[0])|];
      r
  }

  /** `for category in sorted(categories.keys()): for rel_str, entry in categories[category]`. */
  function Plan(m: Manifest): seq<Planned>
    requires m.Valid()
  {
    PlanFrom(Group(m), SortedSet(Group(m).keys))
  }

  /** The nested loop, split at its first category. */
  lemma PlanFromCons(g: Groups, cs: seq<string>)
    requires cs != []
    ensures PlanFrom(g, cs) == Tagged(cs[0], GroupOf(g, cs[0])) + PlanFrom(g, cs[1..])
  {
  }

  /** A strictly increasing list lists each element once. */
  lemma SortedDistinct(cs: seq<string>)
    requires StrictlySorted(cs)
    ensures Distinct(cs)
  {
    forall i, j | 0 <= i < j < |cs| ensures cs[i] != cs[j] {
      LessIrreflexive(cs[i]);
    }
  }

  /** The loop body runs once per manifest entry, however the groups are ordered. */
  lemma PlanSize(m: Manifest)
    requires m.Valid()
    ensures |Plan(m)| == |m.keys|
  {
    var cs := SortedSet(Group(m).keys);
    TotalIsSumSizes(m, cs);
    SortedDistinct(cs);
    GroupKeysCover(m);
    SumSizesCovers(Items(m), cs);
  }

  /** `Less` is asymmetric. */
  lemma LessAsymmetric(a: string, b: string)
    requires Less(a, b)
    ensures !Less(b, a)
  {
    if Less(b, a) {
      LessTransitive(a, b, a);
      LessIrreflexive(a);
    }
  }

  /** No later step has a smaller category than an earlier one. */
  ghost predicate InCategoryOrder(p: seq<Planned>) {
    forall i, j :: 0 <= i < j < |p| ==> !Less(p[j].category, p[i].category)
  }

  /** The tail of a strictly increasing list is strictly increasing and lies above its head. */
  lemma SortedTail(cs: seq<string>)
    requires StrictlySorted(cs) && cs != []
    ensures StrictlySorted(cs[1..])
    ensures forall c :: c in cs[1..] ==> !Less(c, cs[0])
  {
    forall i, j | 0 <= i < j < |cs[1..]| ensures Less(cs[1..][i], cs[1..][j]) {
      assert cs[1..][i] == cs[i + 1] && cs[1..][j] == cs[j + 1];
    }
    forall c | c in cs[1..] ensures !Less(c, cs[0]) {
      var k :| 0 <= k < |cs[1..]| && cs[1..][k] == c;
      assert Less(cs[0], cs[k + 1]);
      LessAsymmetric(cs[0], c);
    }
  }

  /** Steps of one category followed by ordered steps of categories not below it are ordered. */
  lemma InCategoryOrderAppend(head: seq<Planned>, tail: seq<Planned>, c: string)
    requires forall i :: 0 <= i < |head| ==> head[i].category == c
    requires forall j :: 0 <= j < |tail| ==> !Less(tail[j].category, c)
    requires InCategoryOrder(tail)
    ensures InCategoryOrder(head + tail)
  {
    var r := head + tail;
    LessIrreflexive(c);
    forall i, j | 0 <= i < j < |r| ensures !Less(r[j].category, r[i].category) {
      if j < |head| {
        assert r[i] == head[i] && r[j] == head[j];
      } else if i < |head| {
        assert r[i] == head[i] && r[j] == tail[j - |head|];
      } else {
        assert r[i] == tail[i - |head|] && r[j] == tail[j - |head|];
      }
    }
  }

  /** Walking strictly increasing categories visits them in order: no later step has a smaller category. */
  lemma {:induction false} PlanInCategoryOrder(g: Groups, cs: seq<string>)
    requires StrictlySorted(cs)
    ensures InCategoryOrder(PlanFrom(g, cs))
    decreases |cs|
  {
    if cs != [] {
      var tail := PlanFrom(g, cs[1..]);
      PlanFromCons(g, cs);
      SortedTail(cs);
      PlanInCategoryOrder(g, cs[1..]);
      InCategoryOrderAppend(Tagged(cs[0], GroupOf(g, cs[0])), tail, cs[0]);
    }
  }

  /** Every manifest entry is visited by the loop. */
  lemma PlanCoversManifest(m: Manifest, i: int)
    requires m.Valid() && 0 <= i < |m.keys|
    ensures exists j :: 0 <= j < |Plan(m)| && Plan(m)[j].item == Items(m)[i]
  {
    var g := Group(m);
    var it := Items(m)[i];
    var c := GroupKey(it);
    var cs := SortedSet(g.keys);
    GroupsAreFilters(m, c);
    GroupKeysCover(m);
    assert c in g.keys;
    assert c in cs;
    var n :| 0 <= n < |cs| && cs[n] == c;
    InCategoryHolds(Items(m), i);
    var k :| 0 <= k < |InCategory(Items(m), c)| && InCategory(Items(m), c)[k] == it;
    assert GroupOf(g, cs[n])[k] == it;
    PlanFromHolds(g, cs, n, k);
    assert Plan(m) == PlanFrom(g, cs);
  }

  /** Each item is in the reference group of its own category. */
  lemma {:induction false} InCategoryHolds(items: seq<Item>, i: int)
    requires 0 <= i < |items|
    ensures exists k :: 0 <= k < |InCategory(items, GroupKey(items[i]))| && InCategory(items, GroupKey(items[i]))[k] == items[i]
    decreases |items|
  {
    var c := GroupKey(items[i]);
    if i == 0 {
      assert InCategory(items, c)[0] == items[0];
    } else {
      assert items[1..][i - 1] == items[i];
      InCategoryHolds(items[1..], i - 1);
      var k :| 0 <= k < |InCategory(items[1..], c)| && InCategory(items[1..], c)[k] == items[i];
      var front := if GroupKey(items[0]) == c then [items[0]] else [];
      assert InCategory(items, c) == front + InCategory(items[1..], c);
      assert InCategory(items, c)[|front| + k] == items[i];
    }
  }

  /** The `k`-th item of the group of the `n`-th category is visited. */
  lemma {:induction false} PlanFromHolds(g: Groups, cs: seq<string>, n: int, k: int)
    requires 0 <= n < |cs| && 0 <= k < |GroupOf(g, cs[n])|
    ensures exists j :: 0 <= j < |PlanFrom(g, cs)| && PlanFrom(g, cs)[j].item == GroupOf(g, cs[n])[k]
    decreases |cs|
  {
    var head := Tagged(cs[0], GroupOf(g, cs[0]));
    var tail := PlanFrom(g, cs[1..]);
    PlanFromCons(g, cs);
    if n == 0 {
      assert (head + tail)[k] == head[k];
    } else {
      assert cs[1..][n - 1] == cs[n];
      PlanFromHolds(g, cs[1..], n - 1, k);
      var j :| 0 <= j < |tail| && tail[j].item == GroupOf(g, cs[n])[k];
      assert (head + tail)[|head| + j] == tail[j];
    }
  }

  // ---------------------------------------------------------------------
  // One document
  // ---------------------------------------------------------------------

  /** What `analyzer.analyze(text)` did: returned a parsed value, raised `ValueError` on unparsable output, or raised anything else. */
  datatype Analysis =
    | Parsed(tree: Json)
    | NotJson
    | ApiFailure

  /** A `library.json` entry. */
  datatype CatalogueEntry = CatalogueEntry(
    title: Json,
    description: Json,
    category: string,
    treeFile: string,
    sourceDoc: string,
    symptoms: seq<string>)

  /** What became of one manifest entry. */
  datatype ItemResult =
    | Skipped                  // blank text
    | ValidationFailed         // a `ValueError`, from parsing or from the validator
    | AnalysisFailed           // any other exception
    | Saved(entry: CatalogueEntry)

  /** A file-name stem: every `".docx"` removed, then every character outside `[\w-]` replaced by `_`. */
  function SafeStem(relPath: string): (r: string)
    ensures |r| == |RemoveAll(relPath, ".docx")|
    ensures forall k :: 0 <= k < |r| ==> IsSafeChar(r[k])
  {
    Sanitize(RemoveAll(relPath, ".docx"))
  }

  /** A string without a dot contains no `".docx"`. */
  lemma NoDotNoDocx(s: string)
    requires '.' !in s
    ensures !IsInfix(".docx", s)
  {
    IsInfixIffOccurs(".docx", s);
    forall i ensures !OccursAt(".docx", s, i) {
      if 0 <= i && i + 5 <= |s| {
        assert s[i..i + 5][0] == s[i];
      }
    }
  }

  /** A stem is its own stem. */
  lemma SafeStemIdempotent(relPath: string)
    ensures SafeStem(SafeStem(relPath)) == SafeStem(relPath)
  {
    var s := SafeStem(relPath);
    NoDotNoDocx(s);
    RemoveAllAbsent(s, ".docx");
    SanitizeFixedPoints(s);
  }

  /** For a dotless stem, the extension goes and the stem is sanitised. */
  lemma {:induction false} DocxDropped(stem: string)
    requires '.' !in stem
    ensures RemoveAll(stem + ".docx", ".docx") == stem
    ensures SafeStem(stem + ".docx") == Sanitize(stem)
    decreases |stem|
  {
    if stem == [] {
      RemoveAllFront(".docx", "");
      assert stem + ".docx" == ".docx" + "";
    } else {
      assert stem + ".docx" == [stem[0]] + (stem[1..] + ".docx");
      RemoveAllKeep(stem[0], stem[1..] + ".docx", ".docx");
      DocxDropped(stem[1..]);
    }
  }

  /** The stems `"a b"` and `"a_b"` sanitise alike. */
  lemma SanitizeSpaceAsUnderscore()
    ensures Sanitize("a b") == "a_b" && Sanitize("a_b") == "a_b"
  {
    assert !IsSafeChar(' ') && IsSafeChar('a') && IsSafeChar('_') && IsSafeChar('b');
    assert Sanitize("a b")[1] == '_';
  }

  /** Two documents whose paths differ only in a space and an underscore get the same stem, so one tree file. */
  lemma SafeStemCollision()
    ensures "a b.docx" != "a_b.docx"
    ensures SafeStem("a b.docx") == SafeStem("a_b.docx") == "a_b"
  {
    DocxDropped("a b");
    DocxDropped("a_b");
    assert "a b" + ".docx" == "a b.docx";
    assert "a_b" + ".docx" == "a_b.docx";
    SanitizeSpaceAsUnderscore();
  }

  /** `tree_filename`. */
  function TreeFileName(relPath: string): string {
    SafeStem(relPath) + ".json"
  }

  /** The catalogue entry for a saved tree. */
  function EntryFor(category: string, relPath: string, tree: Json): (e: CatalogueEntry)
    requires tree.JObject?
    ensures e.category == category && e.symptoms == []
    ensures e.treeFile == "trees/" + SafeStem(relPath) + ".json"
    ensures e.sourceDoc == "docs/" + relPath
  {
    CatalogueEntry(
      Get(tree.fields, "title", JStr(relPath)),
      Get(tree.fields, "description", JStr("")),
      category,
      "trees/" + TreeFileName(relPath),
      "docs/" + relPath,
      [])
  }

  /** The text of an entry, `entry.get("text", "")`. */
  function TextOf(it: Item): string {
    it.entry.text.GetOr("")
  }

  /**
   * The loop body for one entry. Blank text is skipped; otherwise the entry
   * is saved exactly when analysis yields a tree the validator accepts, a
   * `ValueError` counts as a validation failure, and any other exception as
   * an analysis failure.
   */
  function ProcessItem(p: Planned, analyze: string -> Analysis): (r: ItemResult)
    ensures r.Skipped? <==> Blank(TextOf(p.item))
    ensures r.Saved? <==> !Blank(TextOf(p.item)) && analyze(TextOf(p.item)).Parsed? && Validate(analyze(TextOf(p.item)).tree) == Pass
    ensures r.ValidationFailed? <==>
              && !Blank(TextOf(p.item))
              && (|| analyze(TextOf(p.item)).NotJson?
                  || (analyze(TextOf(p.item)).Parsed? && Validate(analyze(TextOf(p.item)).tree).Fail?
                      && Validate(analyze(TextOf(p.item)).tree).error.IsValueError()))
  {
    var text := TextOf(p.item);
    if Strip(text) == [] then Skipped
    else match analyze(text)
      case NotJson => ValidationFailed
      case ApiFailure => AnalysisFailed
      case Parsed(tree) =>
        match Validate(tree)
        case Pass => Saved(EntryFor(p.category, p.item.relPath, tree))
        case Fail(e) => if e.IsValueError() then ValidationFailed else AnalysisFailed
  }

  /** A saved entry is filed under the category being walked, takes its title from the tree, never from the path, and points at its tree and document. */
  lemma SavedEntryShape(p: Planned, analyze: string -> Analysis)
    requires ProcessItem(p, analyze).Saved?
    ensures analyze(TextOf(p.item)).Parsed?
    ensures ProcessItem(p, analyze).entry.title == analyze(TextOf(p.item)).tree.fields["title"]
    ensures ProcessItem(p, analyze).entry.description == Get(analyze(TextOf(p.item)).tree.fields, "description", JStr(""))
    ensures ProcessItem(p, analyze).entry.category == p.category
    ensures ProcessItem(p, analyze).entry.treeFile == "trees/" + SafeStem(p.item.relPath) + ".json"
    ensures ProcessItem(p, analyze).entry.sourceDoc == "docs/" + p.item.relPath
    ensures ProcessItem(p, analyze).entry.symptoms == []
  {
  }

  // ---------------------------------------------------------------------
  // The whole run
  // ---------------------------------------------------------------------

  /** A progress step: the category, the document, `current` and `total`, and what became of it. */
  datatype Progress = Progress(category: string, relPath: string, current: nat, total: nat, result: ItemResult)

  /** The loop from counter value `current` on, `process` giving each entry's outcome: the counter goes up by one per entry, skipped or not. */
  function RunFrom(plan: seq<Planned>, current: nat, total: nat, process: Planned -> ItemResult): (r: seq<Progress>)
    ensures |r| == |plan|
    ensures forall i :: 0 <= i < |r| ==> r[i].current == current + i + 1 && r[i].total == total
    ensures forall i :: 0 <= i < |r| ==> r[i].category == plan[i].category && r[i].relPath == plan[i].item.relPath
    ensures forall i :: 0 <= i < |r| ==> r[i].result == process(plan[i])
    decreases |plan|
  {
    if plan == [] then []
    else
      var rest := RunFrom(plan[1..], current + 1, total, process);
      assert forall i :: 1 <= i < |plan| ==> plan[1..][i - 1] == plan[i];
      [Progress(plan[0].category, plan[0].item.relPath, current + 1, total, process(plan[0]))] + rest
  }

  /** `library_entries`: the saved entries, in processing order. */
  function SavedEntries(report: seq<Progress>): (r: seq<CatalogueEntry>)
    ensures |r| <= |report|
    ensures forall j :: 0 <= j < |r| ==> exists i :: 0 <= i < |report| && report[i].result == Saved(r[j])
    ensures forall i :: 0 <= i < |report| && report[i].result.Saved? ==> report[i].result.entry in r
    decreases |report|
  {
    if report == [] then []
    else
      var rest := SavedEntries(report[1..]);
      assert forall i :: 0 <= i < |report[1..]| ==> report[1..][i] == report[i + 1];
      if report[0].result.Saved? then [report[0].result.entry] + rest else rest
  }

  /** The step saved its tree. */
  predicate IsSaved(x: ItemResult) {
    x.Saved?
  }

  /** What became of each step, in order. */
  function ResultsOf(report: seq<Progress>): (r: seq<ItemResult>)
    ensures |r| == |report| && forall i :: 0 <= i < |r| ==> r[i] == report[i].result
  {
    seq(|report|, i requires 0 <= i < |report| => report[i].result)
  }

  /** Catalogue entries seen as step outcomes. */
  function AsSaved(entries: seq<CatalogueEntry>): (r: seq<ItemResult>)
    ensures |r| == |entries| && forall j :: 0 <= j < |r| ==> r[j] == Saved(entries[j])
  {
    seq(|entries|, j requires 0 <= j < |entries| => Saved(entries[j]))
  }

  /** One step of `SavedEntries`. */
  lemma SavedEntriesStep(report: seq<Progress>)
    requires report != []
    ensures SavedEntries(report)
            == (if report[0].result.Saved? then [report[0].result.entry] else []) + SavedEntries(report[1..])
  {
    if !report[0].result.Saved? {
      assert [] + SavedEntries(report[1..]) == SavedEntries(report[1..]);
    }
  }

  /** Catalogue entries as outcomes, split after the first entries. */
  lemma AsSavedAppend(front: seq<CatalogueEntry>, rest: seq<CatalogueEntry>)
    ensures AsSaved(front + rest) == AsSaved(front) + AsSaved(rest)
  {
  }

  /** The saved entries of a non-empty run, split at its first step. */
  lemma SavedEntriesCons(report: seq<Progress>)
    requires report != []
    ensures AsSaved(SavedEntries(report))
            == (if IsSaved(report[0].result) then [report[0].result] else []) + AsSaved(SavedEntries(report[1..]))
  {
    var e := if report[0].result.Saved? then [report[0].result.entry] else [];
    SavedEntriesStep(report);
    AsSavedAppend(e, SavedEntries(report[1..]));
    assert AsSaved(e) == (if IsSaved(report[0].result) then [report[0].result] else []);
  }

  /** The outcomes of a non-empty run, split at its first step. */
  lemma ResultsOfCons(report: seq<Progress>)
    requires report != []
    ensures ResultsOf(report) == [report[0].result] + ResultsOf(report[1..])
  {
    assert ResultsOf(report)[1..] == ResultsOf(report[1..]);
  }

  /**
   * The catalogue lists the saved entries in the order they were processed:
   * seen as outcomes, it is exactly the saved outcomes of the steps, each
   * once, in order.
   */
  lemma {:induction false} SavedEntriesInOrder(report: seq<Progress>)
    ensures AsSaved(SavedEntries(report)) == Filter(ResultsOf(report), IsSaved)
    decreases |report|
  {
    if report != [] {
      var x := report[0].result;
      var front := if IsSaved(x) then [x] else [];
      SavedEntriesInOrder(report[1..]);
      SavedEntriesCons(report);
      ResultsOfCons(report);
      FilterCons([x], ResultsOf(report[1..]), IsSaved);
      calc {
        AsSaved(SavedEntries(report));
        front + AsSaved(SavedEntries(report[1..]));
        front + Filter(ResultsOf(report[1..]), IsSaved);
        Filter([x] + ResultsOf(report[1..]), IsSaved);
        Filter(ResultsOf(report), IsSaved);
      }
    } else {
      assert ResultsOf(report) == [];
    }
  }

  /** Hence the catalogue, as outcomes, is a subsequence of the steps' outcomes. */
  lemma SavedEntriesSubsequence(report: seq<Progress>)
    ensures IsSubsequence(AsSaved(SavedEntries(report)), ResultsOf(report))
  {
    SavedEntriesInOrder(report);
    FilterIsSubsequence(ResultsOf(report), IsSaved);
  }

  /** The outcome of `build`: the progress steps and the entries of `library.json`. */
  datatype BuildReport = BuildReport(steps: seq<Progress>, entries: seq<CatalogueEntry>)

  /**
   * `build`: every manifest entry gets a step, counted `1..total` with
   * `total` the manifest size; no failure stops the run; there are at most
   * as many catalogue entries as manifest entries.
   */
  function Build(m: Manifest, analyze: string -> Analysis): (r: BuildReport)
    requires m.Valid()
    ensures |r.steps| == |m.keys|
    ensures forall i :: 0 <= i < |r.steps| ==> r.steps[i].current == i + 1 && r.steps[i].total == |m.keys|
    ensures |r.entries| <= |m.keys|
  {
    var g := Group(m);
    TotalIsManifestSize(m);
    PlanSize(m);
    var steps := RunFrom(Plan(m), 0, Total(g, g.keys), p => ProcessItem(p, analyze));
    BuildReport(steps, SavedEntries(steps))
  }

  /** The catalogue of a run is exactly the entries of its saved steps, in step order. */
  lemma BuildCatalogueIsSaved(m: Manifest, analyze: string -> Analysis)
    requires m.Valid()
    ensures AsSaved(Build(m, analyze).entries) == Filter(ResultsOf(Build(m, analyze).steps), IsSaved)
    ensures forall i :: 0 <= i < |Build(m, analyze).steps| && Build(m, analyze).steps[i].result.Saved?
                        ==> Build(m, analyze).steps[i].result.entry in Build(m, analyze).entries
  {
    SavedEntriesInOrder(Build(m, analyze).steps);
  }

  /** The steps follow the sorted category order. */
  lemma BuildInCategoryOrder(m: Manifest, analyze: string -> Analysis)
    requires m.Valid()
    ensures forall i, j :: 0 <= i < j < |Build(m, analyze).steps| ==>
              !Less(Build(m, analyze).steps[j].category, Build(m, analyze).steps[i].category)
  {
    var p := Plan(m);
    var steps := Build(m, analyze).steps;
    PlanInCategoryOrder(Group(m), SortedSet(Group(m).keys));
    forall i, j | 0 <= i < j < |steps| ensures !Less(steps[j].category, steps[i].category) {
      assert steps[i].category == p[i].category && steps[j].category == p[j].category;
    }
  }

  /** Every manifest entry is processed, under its own category. */
  lemma BuildCoversManifest(m: Manifest, analyze: string -> Analysis, i: int)
    requires m.Valid() && 0 <= i < |m.keys|
    ensures exists j :: 0 <= j < |Build(m, analyze).steps| && Build(m, analyze).steps[j].relPath == m.keys[i]
  {
    PlanCoversManifest(m, i);
    var j :| 0 <= j < |Plan(m)| && Plan(m)[j].item == Items(m)[i];
    assert Build(m, analyze).steps[j].relPath == m.keys[i];
  }

  /** A blank text never produces a catalogue entry, and every catalogue entry comes from a saved step. */
  lemma BlankTextYieldsNoEntry(m: Manifest, analyze: string -> Analysis, j: int)
    requires m.Valid() && 0 <= j < |Build(m, analyze).entries|
    ensures exists i :: 0 <= i < |Build(m, analyze).steps|
                        && Build(m, analyze).steps[i].result == Saved(Build(m, analyze).entries[j])
                        && !Blank(TextOf(Plan(m)[i].item))
  {
    var r := Build(m, analyze);
    var i :| 0 <= i < |r.steps| && r.steps[i].result == Saved(r.entries[j]);
    assert r.steps[i].result == ProcessItem(Plan(m)[i], analyze);
  }
}
