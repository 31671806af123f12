/**
 * The checklist panel: the item record, grouping of items by category,
 * and the plain-text export that both the copy and the download buttons
 * produce.
 */
module RealEstateChecklist {
  import opened Wrappers
  import opened JsText
  import opened Categories

  /** One question on the checklist; `answer` is absent until the user replies. */
  datatype ChecklistItem = ChecklistItem(
    id: string,
    category: string,
    question: string,
    explanation: string,
    answer: Option<string>)

  /** JavaScript truthiness of `item.answer`: present and not the empty string. */
  predicate HasAnswer(item: ChecklistItem) {
    item.answer.Some? && item.answer.value != ""
  }

  /** Display names of the known categories. */
  const CategoryNames: map<string, string> := map[
    "agent_relationship" := "Agent Relationship",
    "local_knowledge" := "Local Knowledge",
    "process_familiarity" := "Process Familiarity",
    "communication_availability" := "Communication & Availability",
    "budget_fees" := "Budget, Fees & Commission",
    "loan_eligibility" := "Loan Eligibility",
    "property_type" := "Property Type",
    "lifestyle_cultural_fit" := "Lifestyle & Cultural Fit"
  ]

  /** `CATEGORY_NAMES[category] || category`. */
  function DisplayName(category: string): string {
    if category in CategoryNames && CategoryNames[category] != "" then CategoryNames[category]
    else category
  }

  /** The display table names exactly the eight categories, and renames each of them. */
  lemma DisplayNamesCoverCategories()
    ensures CategoryNames.Keys == set c | c in AllCategories
    ensures forall c :: c in AllCategories ==> DisplayName(c) == CategoryNames[c] != c
    ensures forall c :: c !in CategoryNames ==> DisplayName(c) == c
  {
  }

  // ---------------------------------------------------------------------
  // Grouping

  /** One entry of the grouped record: a category and its items. */
  datatype Group = Group(category: string, items: seq<ChecklistItem>)

  /** The distinct categories of `items`, in the order they first appear. */
  function FirstSeen(items: seq<ChecklistItem>): seq<string> {
    if items == [] then []
    else
      var prev := FirstSeen(items[..|items| - 1]);
      var c := items[|items| - 1].category;
      if c in prev then prev else prev + [c]
  }

  /** The items of `items` whose category is `c`, in input order. */
  function ItemsIn(items: seq<ChecklistItem>, c: string): seq<ChecklistItem> {
    if items == [] then []
    else
      var prev := ItemsIn(items[..|items| - 1], c);
      var last := items[|items| - 1];
      if last.category == c then prev + [last] else prev
  }

  /** A category is first-seen exactly when some item carries it. */
  lemma {:induction false} FirstSeenMembers(items: seq<ChecklistItem>, c: string)
    ensures c in FirstSeen(items) <==> exists k :: 0 <= k < |items| && items[k].category == c
  {
    if items != [] {
      var init := items[..|items| - 1];
      FirstSeenMembers(init, c);
      if exists k :: 0 <= k < |items| && items[k].category == c {
        var k :| 0 <= k < |items| && items[k].category == c;
        if k < |init| { assert init[k].category == c; }
      }
      if exists k :: 0 <= k < |init| && init[k].category == c {
        var k :| 0 <= k < |init| && init[k].category == c;
        assert items[k].category == c;
      }
    }
  }

  /** Every item of a category's list carries that category, and the list is empty for an unseen one. */
  lemma {:induction false} ItemsInCategory(items: seq<ChecklistItem>, c: string)
    ensures forall x :: x in ItemsIn(items, c) ==> x.category == c
    ensures c !in FirstSeen(items) ==> ItemsIn(items, c) == []
  {
    if items != [] {
      ItemsInCategory(items[..|items| - 1], c);
    }
  }

  /** One group per listed category, holding that category's items. */
  function GroupsOf(cats: seq<string>, items: seq<ChecklistItem>): seq<Group> {
    seq(|cats|, k requires 0 <= k < |cats| => Group(cats[k], ItemsIn(items, cats[k])))
  }

  /** The grouped record as `Object.entries` lists it: one group per first-seen category. */
  function Grouped(items: seq<ChecklistItem>): seq<Group> {
    GroupsOf(FirstSeen(items), items)
  }

  /**
   * The `items.reduce` that fills a record keyed by category, followed by
   * `Object.entries` of that record.
   */
  method GroupByCategory(items: seq<ChecklistItem>) returns (groups: seq<Group>)
    ensures groups == Grouped(items)
  {
    var keys: seq<string> := [];
    var acc: map<string, seq<ChecklistItem>> := map[];
    for i := 0 to |items|
      invariant keys == FirstSeen(items[..i])
      invariant acc.Keys == set c | c in keys
      invariant forall c :: c in acc ==> acc[c] == ItemsIn(items[..i], c)
    {
      var item := items[i];
      assert items[..i + 1][..i] == items[..i];
      ItemsInCategory(items[..i], item.category);
      if item.category !in acc {
        keys := keys + [item.category];
        acc := acc[item.category := []];
      }
      acc := acc[item.category := acc[item.category] + [item]];
    }
    assert items[..|items|] == items;
    groups := seq(|keys|, k requires 0 <= k < |keys| => Group(keys[k], acc[keys[k]]));
  }

  /** No category is seen twice. */
  lemma {:induction false} FirstSeenDistinct(items: seq<ChecklistItem>)
    ensures Distinct(FirstSeen(items))
  {
    if items != [] {
      FirstSeenDistinct(items[..|items| - 1]);
    }
  }

  /** Categories are listed in first-seen order: those of a prefix come first, in the same order. */
  lemma {:induction false} FirstSeenPrefix(items: seq<ChecklistItem>, k: nat)
    requires k <= |items|
    ensures FirstSeen(items[..k]) <= FirstSeen(items)
    decreases |items|
  {
    if k < |items| {
      var init := items[..|items| - 1];
      assert items[..k] == init[..k];
      FirstSeenPrefix(init, k);
    } else {
      assert items[..k] == items;
    }
  }

  /**
   * Items keep their input order within a group: the list a category has
   * for a prefix of the input is a prefix of its list for the whole input,
   * so an item seen earlier is listed earlier.
   */
  lemma {:induction false} ItemsInPrefix(items: seq<ChecklistItem>, k: nat, c: string)
    requires k <= |items|
    ensures ItemsIn(items[..k], c) <= ItemsIn(items, c)
    decreases |items|
  {
    if k < |items| {
      var init := items[..|items| - 1];
      assert items[..k] == init[..k];
      ItemsInPrefix(init, k, c);
    } else {
      assert items[..k] == items;
    }
  }

  /** Each item is in the list of its own category. */
  lemma {:induction false} ItemsInContains(items: seq<ChecklistItem>, k: nat)
    requires k < |items|
    ensures items[k] in ItemsIn(items, items[k].category)
  {
    var init := items[..|items| - 1];
    if k < |init| {
      assert init[k] == items[k];
      ItemsInContains(init, k);
    }
  }

  /**
   * Every input item lands in the group of its own category and in no
   * other, and there is exactly one group per category.
   */
  lemma ItemInOwnGroup(items: seq<ChecklistItem>, k: nat)
    requires k < |items|
    ensures var gs := Grouped(items);
      && (exists g :: 0 <= g < |gs| && gs[g].category == items[k].category && items[k] in gs[g].items)
      && (forall g :: 0 <= g < |gs| && items[k] in gs[g].items ==> gs[g].category == items[k].category)
      && (forall g, h :: 0 <= g < h < |gs| ==> gs[g].category != gs[h].category)
  {
    var gs := Grouped(items);
    var cats := FirstSeen(items);
    var c := items[k].category;
    FirstSeenMembers(items, c);
    FirstSeenDistinct(items);
    var g :| 0 <= g < |cats| && cats[g] == c;
    ItemsInContains(items, k);
    assert gs[g].category == c && items[k] in gs[g].items;
    forall h | 0 <= h < |gs| && items[k] in gs[h].items
      ensures gs[h].category == c
    {
      ItemsInCategory(items, cats[h]);
    }
  }

  /** The items of all groups, one group after the other. */
  function Flatten(gs: seq<Group>): seq<ChecklistItem> {
    if gs == [] then [] else Flatten(gs[..|gs| - 1]) + gs[|gs| - 1].items
  }

  /** The lists of the given categories, one after the other. */
  function FlattenCats(cats: seq<string>, items: seq<ChecklistItem>): seq<ChecklistItem> {
    if cats == [] then [] else FlattenCats(cats[..|cats| - 1], items) + ItemsIn(items, cats[|cats| - 1])
  }

  lemma {:induction false} FlattenGroupsOf(cats: seq<string>, items: seq<ChecklistItem>)
    ensures Flatten(GroupsOf(cats, items)) == FlattenCats(cats, items)
  {
    if cats != [] {
      var init := cats[..|cats| - 1];
      assert GroupsOf(cats, items)[..|cats| - 1] == GroupsOf(init, items);
      FlattenGroupsOf(init, items);
    }
  }

  /** Appending an item adds it once to the lists of distinct categories that include its own. */
  lemma {:induction false} FlattenCatsSnoc(cats: seq<string>, items: seq<ChecklistItem>, x: ChecklistItem)
    requires Distinct(cats)
    ensures multiset(FlattenCats(cats, items + [x]))
         == multiset(FlattenCats(cats, items)) + (if x.category in cats then multiset{x} else multiset{})
  {
    assert (items + [x])[..|items|] == items;
    if cats != [] {
      var init := cats[..|cats| - 1];
      assert Distinct(init);
      FlattenCatsSnoc(init, items, x);
      assert x.category in cats <==> x.category in init || x.category == cats[|cats| - 1];
    }
  }

  /** Concatenating the groups gives back the input items, rearranged. */
  lemma {:induction false} GroupsArePermutation(items: seq<ChecklistItem>)
    ensures multiset(Flatten(Grouped(items))) == multiset(items)
    ensures |Flatten(Grouped(items))| == |items|
  {
    GroupsPermutationCats(items);
    FlattenGroupsOf(FirstSeen(items), items);
    assert |Flatten(Grouped(items))| == |multiset(Flatten(Grouped(items)))|;
  }

  lemma {:induction false} GroupsPermutationCats(items: seq<ChecklistItem>)
    ensures multiset(FlattenCats(FirstSeen(items), items)) == multiset(items)
  {
    if items != [] {
      var init := items[..|items| - 1];
      var x := items[|items| - 1];
      assert items == init + [x];
      var cats := FirstSeen(init);
      GroupsPermutationCats(init);
      FirstSeenDistinct(init);
      FlattenCatsSnoc(cats, init, x);
      if x.category !in cats {
        assert FirstSeen(items) == cats + [x.category];
        assert (cats + [x.category])[..|cats|] == cats;
        ItemsInCategory(init, x.category);
        assert ItemsIn(items, x.category) == [x];
      }
    }
  }

  /** An empty checklist has no groups. */
  lemma GroupedEmpty()
    ensures Grouped([]) == []
  {
  }

  // ---------------------------------------------------------------------
  // Export text (the string handed to the clipboard or to the download)

  /** The block for the item numbered `n`: number, question, explanation and, when answered, the answer. */
  function ItemLine(item: ChecklistItem, n: nat): string {
    NatToDecimal(n) + ". " + item.question + "\n   - " + item.explanation
      + (if HasAnswer(item) then "\n   User Answer: " + item.answer.value else "")
  }

  /** `items.map((item, idx) => ...)` with numbering starting at `start`. */
  function ItemLines(items: seq<ChecklistItem>, start: nat): seq<string> {
    if items == [] then [] else [ItemLine(items[0], start)] + ItemLines(items[1..], start + 1)
  }

  function Heading(g: Group): string {
    "## " + DisplayName(g.category) + "\n"
  }

  /** One section of the export: heading line, then the numbered items joined by newlines. */
  function Section(g: Group): string {
    Heading(g) + Join(ItemLines(g.items, 1), "\n")
  }

  function Sections(gs: seq<Group>): seq<string> {
    seq(|gs|, k requires 0 <= k < |gs| => Section(gs[k]))
  }

  /** The sections joined by a blank line. */
  function ExportText(gs: seq<Group>): string {
    Join(Sections(gs), "\n\n")
  }

  /** The text both `handleCopy` and `handleDownload` build from the grouped items. */
  function ChecklistText(items: seq<ChecklistItem>): string {
    ExportText(Grouped(items))
  }

  /** Items are numbered consecutively from `start`, one line block per item. */
  lemma {:induction false} ItemLinesNumbered(items: seq<ChecklistItem>, start: nat)
    ensures |ItemLines(items, start)| == |items|
    ensures forall k :: 0 <= k < |items| ==> ItemLines(items, start)[k] == ItemLine(items[k], start + k)
  {
    if items != [] {
      ItemLinesNumbered(items[1..], start + 1);
    }
  }

  /** The leading run of decimal digits of a string. */
  function LeadingDigits(s: string): (d: string)
    ensures forall i :: 0 <= i < |d| ==> IsDigit(d[i])
  {
    if s != [] && IsDigit(s[0]) then [s[0]] + LeadingDigits(s[1..]) else []
  }

  lemma {:induction false} LeadingDigitsOf(d: string, rest: string)
    requires forall i :: 0 <= i < |d| ==> IsDigit(d[i])
    requires rest != [] && !IsDigit(rest[0])
    ensures LeadingDigits(d + rest) == d
  {
    if d != [] {
      assert (d + rest)[1..] == d[1..] + rest;
      LeadingDigitsOf(d[1..], rest);
    }
  }

  /** The number that opens an item's block reads back as `n`. */
  lemma ItemLineNumber(item: ChecklistItem, n: nat)
    ensures DecimalValue(LeadingDigits(ItemLine(item, n))) == n
  {
    var rest := ". " + item.question + "\n   - " + item.explanation
      + (if HasAnswer(item) then "\n   User Answer: " + item.answer.value else "");
    assert ItemLine(item, n) == NatToDecimal(n) + rest;
    LeadingDigitsOf(NatToDecimal(n), rest);
    DecimalRoundTrip(n);
  }

  /** Within every section the `k`-th item (from 0) carries the number `k + 1`; numbering restarts per section. */
  lemma SectionNumbering(g: Group, k: nat)
    requires k < |g.items|
    ensures |ItemLines(g.items, 1)| == |g.items|
    ensures DecimalValue(LeadingDigits(ItemLines(g.items, 1)[k])) == k + 1
  {
    ItemLinesNumbered(g.items, 1);
    ItemLineNumber(g.items[k], k + 1);
  }

  /** A `User Answer:` line closes an item's block exactly when the item is answered. */
  lemma UserAnswerLine(item: ChecklistItem, n: nat)
    ensures var head := NatToDecimal(n) + ". " + item.question + "\n   - " + item.explanation;
      && (HasAnswer(item) ==> ItemLine(item, n) == head + "\n   User Answer: " + item.answer.value)
      && (!HasAnswer(item) ==> ItemLine(item, n) == head)
      && (HasAnswer(item) <==> |ItemLine(item, n)| > |head|)
  {
  }

  /** A section opens with `## ` and the category's display name on a line of its own. */
  lemma SectionHeading(g: Group)
    ensures var h := "## " + DisplayName(g.category) + "\n";
      |Section(g)| >= |h| && Section(g)[..|h|] == h
  {
  }

  /** One section per group, separated by a blank line; no groups give the empty text. */
  lemma ExportSections(gs: seq<Group>, g: Group)
    ensures ExportText([]) == ""
    ensures ExportText([g]) == Section(g)
    ensures gs != [] ==> ExportText(gs + [g]) == ExportText(gs) + "\n\n" + Section(g)
  {
    if gs != [] {
      assert Sections(gs + [g]) == Sections(gs) + [Section(g)];
      JoinAppend(Sections(gs), Section(g), "\n\n");
    }
  }

  /** An empty checklist exports the empty text. */
  lemma ChecklistTextEmpty()
    ensures ChecklistText([]) == ""
  {
  }
}
