/**
 * The blog index page: the posts grouped by day, week, month, year or
 * category, the group keys in display order, and the edit mode in which
 * posts are selected, removed from the list and the removals saved.
 */
module BlogPage {
  import opened Wrappers
  import Js
  import JsMap
  import Sorting
  import Auth
  import opened Feedback

  // ---------------------------------------------------------------------------
  // Posts and their group keys
  // ---------------------------------------------------------------------------

  /**
   * The calendar reading of a post's `date` string: `getTime()` and the
   * dayjs fields `YYYY`, `MM` (1-12), `DD` and `week()`.
   */
  datatype PostDate = PostDate(time: int, year: nat, month: nat, day: nat, week: nat)

  /** An entry of the blog index; `category` is `None` when the post has none. */
  datatype BlogItem = BlogItem(slug: string, date: PostDate, category: Option<string>)

  datatype DisplayMode = Day | Week | Month | Year | Category

  /** The key of posts without a category (or with an empty one). */
  const Uncategorized: string := "未分类"

  /** `Number.MAX_SAFE_INTEGER`, the rank of a category missing from the list. */
  const MaxSafeInteger: nat := 9007199254740991

  /** dayjs `YYYY`: the year padded to four digits. */
  function Year4(year: nat): string {
    Js.PadZeros(Js.NatToString(year), 4)
  }

  /** dayjs `MM`/`DD` and `padStart(2, '0')`. */
  function Two(n: nat): string {
    Js.PadZeros(Js.NatToString(n), 2)
  }

  function WeekKey(year: nat, week: nat): string {
    Year4(year) + "-W" + Two(week)
  }

  /** The key of the group a post falls into under a display mode. */
  function GroupKey(item: BlogItem, mode: DisplayMode): (key: string)
    ensures mode == Category && (item.category == None || item.category == Some("")) ==> key == Uncategorized
    ensures mode == Category && item.category.Some? && item.category.value != "" ==> key == item.category.value
    ensures mode == Week ==> key == WeekKey(item.date.year, item.date.week)
  {
    var d := item.date;
    match mode
    case Category => if item.category.Some? && item.category.value != "" then item.category.value else Uncategorized
    case Day => Year4(d.year) + "-" + Two(d.month) + "-" + Two(d.day)
    case Week => WeekKey(d.year, d.week)
    case Month => Year4(d.year) + "-" + Two(d.month)
    case Year => Year4(d.year)
  }

  /** The key function of a display mode. */
  function KeyOf(mode: DisplayMode): BlogItem -> string {
    item => GroupKey(item, mode)
  }

  // ---------------------------------------------------------------------------
  // Newest-first order and grouping
  // ---------------------------------------------------------------------------

  /** The date comparator `b - a` on `getTime()`: a newer post comes first. */
  function NewerFirst(a: BlogItem, b: BlogItem): bool {
    a.date.time > b.date.time
  }

  /** The displayed posts, newest first (a stable sort, so equal dates keep list order). */
  function Newest(items: seq<BlogItem>): (sorted: seq<BlogItem>)
    ensures multiset(sorted) == multiset(items)
    ensures Sorting.SortedBy(sorted, NewerFirst)
  {
    Sorting.SortBySorted(items, NewerFirst);
    Sorting.SortBy(items, NewerFirst)
  }

  /** The posts of `s` whose key is `key`, in the order of `s`. */
  function Members(s: seq<BlogItem>, keyOf: BlogItem -> string, key: string): (r: seq<BlogItem>)
    ensures |r| <= |s|
    decreases |s|
  {
    if s == [] then []
    else Members(s[..|s| - 1], keyOf, key) + (if keyOf(s[|s| - 1]) == key then [s[|s| - 1]] else [])
  }

  /** A group holds exactly the posts with its key. */
  lemma {:induction false} MembersSpec(s: seq<BlogItem>, keyOf: BlogItem -> string, key: string)
    ensures forall x | x in Members(s, keyOf, key) :: x in s && keyOf(x) == key
    ensures forall i | 0 <= i < |s| && keyOf(s[i]) == key :: s[i] in Members(s, keyOf, key)
    decreases |s|
  {
    if s != [] {
      var init := s[..|s| - 1];
      MembersSpec(init, keyOf, key);
      assert forall i | 0 <= i < |s| - 1 :: s[i] == init[i];
    }
  }

  /** The `reduce` into `{ [key]: { items } }`: each post appended to its key's group. */
  function Grouped(sorted: seq<BlogItem>, keyOf: BlogItem -> string): (groups: JsMap.Entries<string, seq<BlogItem>>)
    decreases |sorted|
  {
    if sorted == [] then []
    else
      var acc := Grouped(sorted[..|sorted| - 1], keyOf);
      var item := sorted[|sorted| - 1];
      var key := keyOf(item);
      JsMap.Set(acc, key, Joined(acc, key, item))
  }

  /** The group under `key`, if the posts of `sorted` have that key. */
  function GroupOf(sorted: seq<BlogItem>, keyOf: BlogItem -> string, key: string): Option<seq<BlogItem>> {
    if Members(sorted, keyOf, key) == [] then None else Some(Members(sorted, keyOf, key))
  }

  /** The group a post joins in one step of the `reduce`. */
  function Joined(acc: JsMap.Entries<string, seq<BlogItem>>, key: string, item: BlogItem): seq<BlogItem> {
    match JsMap.Get(acc, key) case Some(xs) => xs + [item] case None => [item]
  }

  /** One step of the `reduce`, seen from one key. */
  lemma GroupedStepAt(init: seq<BlogItem>, item: BlogItem, keyOf: BlogItem -> string, key: string)
    requires JsMap.Get(Grouped(init, keyOf), key) == GroupOf(init, keyOf, key)
    requires JsMap.Get(Grouped(init, keyOf), keyOf(item)) == GroupOf(init, keyOf, keyOf(item))
    ensures JsMap.Get(Grouped(init + [item], keyOf), key) == GroupOf(init + [item], keyOf, key)
  {
    var s := init + [item];
    assert s[..|s| - 1] == init && s[|s| - 1] == item;
    var acc := Grouped(init, keyOf);
    var joined := Joined(acc, keyOf(item), item);
    assert Grouped(s, keyOf) == JsMap.Set(acc, keyOf(item), joined);
    JsMap.SetGet(acc, keyOf(item), joined, key);
    if key == keyOf(item) {
      GroupedStepSame(init, item, keyOf, joined);
    } else {
      GroupedStepOther(init, item, keyOf, key);
    }
  }

  /** The key of the post just added: its group is the old one with the post at the end. */
  lemma GroupedStepSame(init: seq<BlogItem>, item: BlogItem, keyOf: BlogItem -> string, joined: seq<BlogItem>)
    requires JsMap.Get(Grouped(init, keyOf), keyOf(item)) == GroupOf(init, keyOf, keyOf(item))
    requires joined == Joined(Grouped(init, keyOf), keyOf(item), item)
    ensures GroupOf(init + [item], keyOf, keyOf(item)) == Some(joined)
  {
    var s := init + [item];
    var k0 := keyOf(item);
    assert s[..|s| - 1] == init && s[|s| - 1] == item;
    var before := Members(init, keyOf, k0);
    assert Members(s, keyOf, k0) == before + [item];
    if before == [] {
      assert before + [item] == [item];
    }
  }

  /** Any other key: its group is untouched. */
  lemma GroupedStepOther(init: seq<BlogItem>, item: BlogItem, keyOf: BlogItem -> string, key: string)
    requires key != keyOf(item)
    ensures GroupOf(init + [item], keyOf, key) == GroupOf(init, keyOf, key)
  {
    var s := init + [item];
    assert s[..|s| - 1] == init && s[|s| - 1] == item;
    assert Members(s, keyOf, key) == Members(init, keyOf, key) + [];
    assert Members(init, keyOf, key) + [] == Members(init, keyOf, key);
  }

  /**
   * A key has a group exactly when some post has that key, and the group holds
   * exactly the posts with that key, in the order of the sorted list.
   */
  lemma {:induction false} GroupedSpec(sorted: seq<BlogItem>, keyOf: BlogItem -> string)
    ensures JsMap.DistinctKeys(Grouped(sorted, keyOf))
    ensures forall key :: JsMap.Get(Grouped(sorted, keyOf), key) == GroupOf(sorted, keyOf, key)
  {
    if sorted != [] {
      var init := sorted[..|sorted| - 1];
      var item := sorted[|sorted| - 1];
      var acc := Grouped(init, keyOf);
      GroupedSpec(init, keyOf);
      var k0 := keyOf(item);
      JsMap.SetDistinct(acc, k0, Joined(acc, k0, item));
      assert sorted == init + [item];
      forall key ensures JsMap.Get(Grouped(sorted, keyOf), key) == GroupOf(sorted, keyOf, key) {
        GroupedStepAt(init, item, keyOf, key);
      }
    }
  }

  /** Members of a newest-first list are newest first. */
  lemma {:induction false} MembersSorted(s: seq<BlogItem>, keyOf: BlogItem -> string, key: string)
    requires Sorting.SortedBy(s, NewerFirst)
    ensures Sorting.SortedBy(Members(s, keyOf, key), NewerFirst)
  {
    if s != [] {
      var init := s[..|s| - 1];
      var last := s[|s| - 1];
      assert Sorting.SortedBy(init, NewerFirst);
      MembersSorted(init, keyOf, key);
      var m := Members(init, keyOf, key);
      if keyOf(last) == key {
        MembersSpec(init, keyOf, key);
        forall x | x in m ensures !NewerFirst(last, x) {
          var i :| 0 <= i < |init| && init[i] == x;
        }
      }
    }
  }

  /**
   * Every displayed post falls into exactly one group, the group of its own
   * key, and every group lists its posts newest first.
   */
  lemma GroupsPartition(items: seq<BlogItem>, keyOf: BlogItem -> string)
    ensures var groups := Grouped(Newest(items), keyOf);
      JsMap.DistinctKeys(groups) &&
      (forall x | x in items :: JsMap.Get(groups, keyOf(x)).Some? && x in JsMap.Get(groups, keyOf(x)).value) &&
      (forall i | 0 <= i < |groups| :: groups[i].1 != [] &&
        Sorting.SortedBy(groups[i].1, NewerFirst) &&
        forall x | x in groups[i].1 :: x in items && keyOf(x) == groups[i].0)
  {
    var sorted := Newest(items);
    var groups := Grouped(sorted, keyOf);
    GroupedSpec(sorted, keyOf);
    forall x | x in items
      ensures JsMap.Get(groups, keyOf(x)).Some? && x in JsMap.Get(groups, keyOf(x)).value
    {
      assert x in multiset(sorted);
      var i :| 0 <= i < |sorted| && sorted[i] == x;
      MembersSpec(sorted, keyOf, keyOf(x));
      assert x in Members(sorted, keyOf, keyOf(x));
    }
    forall i | 0 <= i < |groups|
      ensures groups[i].1 != [] && Sorting.SortedBy(groups[i].1, NewerFirst) &&
        forall x | x in groups[i].1 :: x in items && keyOf(x) == groups[i].0
    {
      JsMap.GetEntry(groups, i);
      MembersSorted(sorted, keyOf, groups[i].0);
      MembersSpec(sorted, keyOf, groups[i].0);
      forall x | x in groups[i].1 ensures x in items {
        assert x in multiset(sorted);
      }
    }
  }

  // ---------------------------------------------------------------------------
  // Group key order
  // ---------------------------------------------------------------------------

  /** `localeCompare` read as code-unit order: a proper prefix comes first. */
  predicate StrLess(a: string, b: string)
    decreases |a|
  {
    if a == [] then b != []
    else b != [] && (a[0] < b[0] || (a[0] == b[0] && StrLess(a[1..], b[1..])))
  }

  lemma {:induction false} StrLessIrreflexive(a: string)
    ensures !StrLess(a, a)
  {
    if a != [] {
      StrLessIrreflexive(a[1..]);
    }
  }

  lemma {:induction false} StrLessTransitive(a: string, b: string, c: string)
    requires StrLess(a, b) && StrLess(b, c)
    ensures StrLess(a, c)
  {
    if a != [] && a[0] == b[0] && b[0] == c[0] {
      StrLessTransitive(a[1..], b[1..], c[1..]);
    }
  }

  /** Two different strings are ordered one way or the other. */
  lemma {:induction false} StrLessTotal(a: string, b: string)
    requires a != b
    ensures StrLess(a, b) || StrLess(b, a)
  {
    if a != [] && b != [] && a[0] == b[0] {
      assert a == [a[0]] + a[1..] && b == [b[0]] + b[1..];
      StrLessTotal(a[1..], b[1..]);
    }
  }

  /**
   * `new Map(categoryList.map((c, i) => [c, i])).get(k)`: a later duplicate
   * overwrites an earlier one, so a listed category ranks at its last
   * position; an unlisted one ranks at `Number.MAX_SAFE_INTEGER`.
   */
  function CategoryRank(cats: seq<string>, k: string): (rank: nat)
    ensures k in cats ==> rank < |cats| && cats[rank] == k && forall i | rank < i < |cats| :: cats[i] != k
    ensures k !in cats ==> rank == MaxSafeInteger
    decreases |cats|
  {
    if cats == [] then MaxSafeInteger
    else if cats[|cats| - 1] == k then |cats| - 1
    else
      var init := cats[..|cats| - 1];
      assert forall i | 0 <= i < |init| :: init[i] == cats[i];
      assert k in cats ==> k in init by {
        if k in cats {
          var i :| 0 <= i < |cats| && cats[i] == k;
          assert init[i] == k;
        }
      }
      CategoryRank(init, k)
  }

  /** `Number` of the `i`-th part of `k.split('-W')`; `None` is NaN, a missing part included. */
  function WeekPart(k: string, i: nat): Option<int> {
    var parts := Js.Split(k, "-W");
    if i < |parts| then Js.ToNumber(parts[i]) else None
  }

  /**
   * The key comparator returns a negative number: `a` is listed before `b`.
   * A NaN result counts as equal, so week keys that do not parse come before
   * nothing.
   */
  predicate KeyFirst(mode: DisplayMode, cats: seq<string>, a: string, b: string) {
    match mode
    case Category =>
      var ra := CategoryRank(cats, a);
      var rb := CategoryRank(cats, b);
      ra < rb || (ra == rb && StrLess(a, b))
    case Week =>
      var ya := WeekPart(a, 0);
      var yb := WeekPart(b, 0);
      var wa := WeekPart(a, 1);
      var wb := WeekPart(b, 1);
      ya.Some? && yb.Some? &&
      (ya.value > yb.value || (ya.value == yb.value && wa.Some? && wb.Some? && wa.value > wb.value))
    case _ => StrLess(b, a)
  }

  /** The key comparator of every mode is a strict order, so the sort respects it. */
  lemma KeyOrderStrict(mode: DisplayMode, cats: seq<string>)
    ensures Sorting.StrictOrder((a, b) => KeyFirst(mode, cats, a, b))
  {
    var before := (a, b) => KeyFirst(mode, cats, a, b);
    forall a ensures !before(a, a) {
      StrLessIrreflexive(a);
    }
    forall a, b, c | before(a, b) && before(b, c) ensures before(a, c) {
      if mode == Category {
        if CategoryRank(cats, a) == CategoryRank(cats, b) == CategoryRank(cats, c) {
          StrLessTransitive(a, b, c);
        }
      } else if mode != Week {
        StrLessTransitive(c, b, a);
      }
    }
  }

  /** `Object.keys(grouped).sort(...)`. */
  function GroupKeys(groups: JsMap.Entries<string, seq<BlogItem>>, mode: DisplayMode, cats: seq<string>): seq<string> {
    Sorting.SortBy(JsMap.Keys(groups), (a, b) => KeyFirst(mode, cats, a, b))
  }

  /** The displayed keys are the group keys, each once, and no key is listed after one it precedes. */
  lemma GroupKeysOrdered(groups: JsMap.Entries<string, seq<BlogItem>>, mode: DisplayMode, cats: seq<string>)
    ensures multiset(GroupKeys(groups, mode, cats)) == multiset(JsMap.Keys(groups))
    ensures forall i, j | 0 <= i < j < |GroupKeys(groups, mode, cats)| ::
      !KeyFirst(mode, cats, GroupKeys(groups, mode, cats)[j], GroupKeys(groups, mode, cats)[i])
  {
    KeyOrderStrict(mode, cats);
    Sorting.SortBySorted(JsMap.Keys(groups), (a, b) => KeyFirst(mode, cats, a, b));
  }

  /**
   * Category mode: a listed category comes before an unlisted one, listed
   * categories follow their (last) position in the list, and categories of
   * equal rank follow string order.
   */
  lemma CategoryKeyOrder(cats: seq<string>, a: string, b: string)
    requires |cats| < MaxSafeInteger
    ensures a in cats && b !in cats ==> KeyFirst(Category, cats, a, b)
    ensures a in cats && b in cats ==>
      (KeyFirst(Category, cats, a, b) <==> CategoryRank(cats, a) < CategoryRank(cats, b))
    ensures a !in cats && b !in cats ==> (KeyFirst(Category, cats, a, b) <==> StrLess(a, b))
  {
    if a in cats && b in cats && CategoryRank(cats, a) == CategoryRank(cats, b) {
      StrLessIrreflexive(a);
    }
  }

  /** A generated week key reads back as its year and week. */
  lemma WeekKeyParts(year: nat, week: nat)
    ensures WeekPart(WeekKey(year, week), 0) == Some(year)
    ensures WeekPart(WeekKey(year, week), 1) == Some(week)
  {
    Js.PaddedValue(year, 4);
    Js.PaddedValue(week, 2);
    WeekPartsOf(Year4(year), Two(week));
  }

  /** A key made of two numerals around `-W` splits back into their values. */
  lemma WeekPartsOf(y: string, w: string)
    requires Js.AllDigits(y) && Js.AllDigits(w) && y != "" && w != ""
    ensures WeekPart(y + "-W" + w, 0) == Some(Js.DigitsValue(y))
    ensures WeekPart(y + "-W" + w, 1) == Some(Js.DigitsValue(w))
  {
    Js.SplitPair(y, w, "-W");
    Js.ToNumberOfDigits(y);
    Js.ToNumberOfDigits(w);
  }

  /** Week mode: a later year comes first, and within a year a later week. */
  lemma WeekKeyOrder(y1: nat, w1: nat, y2: nat, w2: nat, cats: seq<string>)
    ensures KeyFirst(Week, cats, WeekKey(y1, w1), WeekKey(y2, w2)) <==> y1 > y2 || (y1 == y2 && w1 > w2)
  {
    WeekKeyParts(y1, w1);
    WeekKeyParts(y2, w2);
  }

  /** Every other mode: reverse string order. */
  lemma ReverseKeyOrder(mode: DisplayMode, cats: seq<string>, a: string, b: string)
    requires mode != Category && mode != Week && a != b
    ensures KeyFirst(mode, cats, a, b) <==> !KeyFirst(mode, cats, b, a)
  {
    StrLessTotal(a, b);
    if StrLess(a, b) && StrLess(b, a) {
      StrLessTransitive(a, b, a);
      StrLessIrreflexive(a);
    }
  }

  // ---------------------------------------------------------------------------
  // Selection, deletion and change detection
  // ---------------------------------------------------------------------------

  /** The slugs of a list of posts. */
  function SlugSet(items: seq<BlogItem>): set<string> {
    set x | x in items :: x.slug
  }

  /** `toggleSelect`: the slug flips, every other slug keeps its state. */
  function Toggle(selected: set<string>, slug: string): (r: set<string>)
    ensures slug in r <==> slug !in selected
    ensures r - {slug} == selected - {slug}
  {
    if slug in selected then selected - {slug} else selected + {slug}
  }

  /** Toggling twice restores the selection. */
  lemma ToggleTwice(selected: set<string>, slug: string)
    ensures Toggle(Toggle(selected, slug), slug) == selected
  {
    var once := Toggle(selected, slug);
    var twice := Toggle(once, slug);
    assert twice - {slug} == selected - {slug};
    assert slug in twice <==> slug in selected;
  }

  /** `prev.filter(item => !selectedSlugs.has(item.slug))`. */
  function Without(items: seq<BlogItem>, selected: set<string>): (r: seq<BlogItem>)
    ensures forall x | x in r :: x in items && x.slug !in selected
    ensures forall x | x in items && x.slug !in selected :: x in r
    ensures |r| <= |items|
    decreases |items|
  {
    if items == [] then []
    else (if items[0].slug in selected then [] else [items[0]]) + Without(items[1..], selected)
  }

  /** Some post of `items` has this slug (`items.some(e => e.slug === slug)`). */
  predicate HasSlug(items: seq<BlogItem>, slug: string) {
    exists x | x in items :: x.slug == slug
  }

  /** `removedSlugs`: the loaded posts' slugs that no edited post carries, in loaded order. */
  function RemovedSlugs(items: seq<BlogItem>, editable: seq<BlogItem>): (r: seq<string>)
    ensures |r| <= |items|
    ensures forall s | s in r :: !HasSlug(editable, s) && HasSlug(items, s)
    ensures forall i | 0 <= i < |items| && !HasSlug(editable, items[i].slug) :: items[i].slug in r
    decreases |items|
  {
    if items == [] then []
    else (if HasSlug(editable, items[0].slug) then [] else [items[0].slug]) + RemovedSlugs(items[1..], editable)
  }

  /** The slugs of the posts whose slug is selected, in list order. */
  function SelectedSlugs(items: seq<BlogItem>, selected: set<string>): (r: seq<string>)
    ensures |r| <= |items|
    ensures forall s | s in r :: s in selected && HasSlug(items, s)
    ensures forall i | 0 <= i < |items| && items[i].slug in selected :: items[i].slug in r
    decreases |items|
  {
    if items == [] then []
    else (if items[0].slug in selected then [items[0].slug] else []) + SelectedSlugs(items[1..], selected)
  }

  /**
   * The removed slugs, in loaded order, are the slugs of the loaded posts
   * selected by "missing from the edited list", whatever edits led there.
   */
  lemma RemovedInLoadedOrder(items: seq<BlogItem>, editable: seq<BlogItem>)
    ensures RemovedSlugs(items, editable) == SelectedSlugs(items, SlugSet(items) - SlugSet(editable))
  {
    RemovedAsSelected(items, items, editable);
  }

  lemma {:induction false} RemovedAsSelected(xs: seq<BlogItem>, items: seq<BlogItem>, editable: seq<BlogItem>)
    requires forall x | x in xs :: x in items
    ensures RemovedSlugs(xs, editable) == SelectedSlugs(xs, SlugSet(items) - SlugSet(editable))
    decreases |xs|
  {
    if xs != [] {
      var x := xs[0];
      assert x in items;
      assert HasSlug(editable, x.slug) <==> x.slug in SlugSet(editable);
      RemovedAsSelected(xs[1..], items, editable);
    }
  }

  lemma {:induction false} RemovedAfterDeleteFrom(xs: seq<BlogItem>, items: seq<BlogItem>, selected: set<string>)
    requires forall x | x in xs :: x in items
    ensures RemovedSlugs(xs, Without(items, selected)) == SelectedSlugs(xs, selected)
  {
    if xs != [] {
      var x := xs[0];
      var kept := Without(items, selected);
      if x.slug in selected {
        assert !HasSlug(kept, x.slug);
      } else {
        assert x in kept;
      }
      RemovedAfterDeleteFrom(xs[1..], items, selected);
    }
  }

  /** Deleting a selection from the loaded list removes exactly the selected posts' slugs. */
  lemma RemovedAfterDelete(items: seq<BlogItem>, selected: set<string>)
    ensures RemovedSlugs(items, Without(items, selected)) == SelectedSlugs(items, selected)
  {
    RemovedAfterDeleteFrom(items, items, selected);
  }

  /** An unedited list removes nothing. */
  lemma {:induction false} NothingRemoved(xs: seq<BlogItem>, items: seq<BlogItem>)
    requires forall x | x in xs :: x in items
    ensures RemovedSlugs(xs, items) == []
  {
    if xs != [] {
      assert xs[0] in items;
      NothingRemoved(xs[1..], items);
    }
  }

  /** `categoriesFromServer || []`. */
  function ServerList(server: Option<seq<string>>): seq<string> {
    match server case Some(cats) => cats case None => []
  }

  /** `hasChanges`: a post was removed, or the normalised category list differs from the server's. */
  predicate HasChanges(items: seq<BlogItem>, editable: seq<BlogItem>, cats: seq<string>, server: Option<seq<string>>) {
    |RemovedSlugs(items, editable)| > 0 || Js.TrimNonEmpty(cats) != Js.TrimNonEmpty(ServerList(server))
  }

  /** With the server's own category list, a save has changes exactly when a post was removed. */
  lemma ChangesAreRemovals(items: seq<BlogItem>, editable: seq<BlogItem>, server: Option<seq<string>>)
    ensures HasChanges(items, editable, ServerList(server), server) <==> RemovedSlugs(items, editable) != []
  {
  }

  /** Cancelling leaves nothing to save. */
  lemma UneditedHasNoChanges(items: seq<BlogItem>, server: Option<seq<string>>)
    ensures !HasChanges(items, items, ServerList(server), server)
  {
    NothingRemoved(items, items);
  }

  /** The slugs of a prefix grow by one slug per post. */
  lemma SlugSetStep(s: seq<BlogItem>, i: nat)
    requires i < |s|
    ensures SlugSet(s[..i + 1]) == SlugSet(s[..i]) + {s[i].slug}
  {
    assert s[..i + 1] == s[..i] + [s[i]];
  }

  /**
   * The selection after `handleSelectGroup`: when every post of the group is
   * already selected the whole group is deselected, otherwise the whole group
   * is selected; slugs outside the group keep their state, and an unknown key
   * changes nothing.
   */
  function SelectGroup(selected: set<string>, group: Option<seq<BlogItem>>): (r: set<string>)
    ensures group.None? ==> r == selected
    ensures group.Some? ==> r - SlugSet(group.value) == selected - SlugSet(group.value)
    ensures group.Some? && SlugSet(group.value) <= selected ==> SlugSet(group.value) !! r
    ensures group.Some? && !(SlugSet(group.value) <= selected) ==> SlugSet(group.value) <= r
  {
    match group
    case None => selected
    case Some(members) =>
      if SlugSet(members) <= selected then selected - SlugSet(members) else selected + SlugSet(members)
  }

  /** The `forEach` over the group: each member's slug deleted or added. */
  method SelectMembers(selected: set<string>, members: seq<BlogItem>, allSelected: bool) returns (next: set<string>)
    requires allSelected <==> forall x | x in members :: x.slug in selected
    ensures next == SelectGroup(selected, Some(members))
  {
    next := selected;
    for i := 0 to |members|
      invariant next == if allSelected then selected - SlugSet(members[..i]) else selected + SlugSet(members[..i])
    {
      SlugSetStep(members, i);
      if allSelected {
        next := next - {members[i].slug};
      } else {
        next := next + {members[i].slug};
      }
    }
    assert members[..|members|] == members;
  }

  // ---------------------------------------------------------------------------
  // The page
  // ---------------------------------------------------------------------------

  /** The arguments of `saveBlogEdits(items, editableItems, categories, rawPem)`. */
  datatype SaveRequest = SaveRequest(items: seq<BlogItem>, editable: seq<BlogItem>, categories: seq<string>, key: string)

  /** The shortcut guard: Ctrl/Cmd + `,` outside edit mode. */
  predicate ShortcutApplies(editMode: bool, ctrlKey: bool, metaKey: bool, key: string) {
    !editMode && (ctrlKey || metaKey) && key == ","
  }

  class BlogIndexState {
    /** `useBlogIndex().items`. */
    var items: seq<BlogItem>
    /** `useCategories().categories`. */
    var serverCategories: Option<seq<string>>
    var editMode: bool
    var editableItems: seq<BlogItem>
    var selectedSlugs: set<string>
    var saving: bool
    var displayMode: DisplayMode
    var categoryModalOpen: bool
    var categoryList: seq<string>
    var notice: Option<Notice>

    /** The page as it mounts, after its two effects have run. */
    constructor (loaded: seq<BlogItem>, server: Option<seq<string>>)
      ensures items == loaded && serverCategories == server
      ensures !editMode && editableItems == loaded && selectedSlugs == {} && !saving
      ensures displayMode == Year && !categoryModalOpen && categoryList == ServerList(server) && notice == None
      ensures Valid()
    {
      items := loaded;
      serverCategories := server;
      editMode := false;
      editableItems := loaded;
      selectedSlugs := {};
      saving := false;
      displayMode := Year;
      categoryModalOpen := false;
      categoryList := ServerList(server);
      notice := None;
    }

    /**
     * Outside edit mode the editable list mirrors the loaded one and nothing
     * is selected; the category list is the server's.
     */
    ghost predicate Valid()
      reads this
    {
      (!editMode ==> editableItems == items && selectedSlugs == {}) &&
      categoryList == ServerList(serverCategories)
    }

    /** `editMode ? editableItems : items`. */
    function DisplayItems(): seq<BlogItem>
      reads this
    {
      if editMode then editableItems else items
    }

    /** `groupedItems` of the memo. */
    function Groups(): JsMap.Entries<string, seq<BlogItem>>
      reads this
    {
      Grouped(Newest(DisplayItems()), KeyOf(displayMode))
    }

    /** The first effect: a reloaded index replaces the editable list unless editing. */
    method IndexLoaded(loaded: seq<BlogItem>)
      modifies this
      ensures items == loaded
      ensures editableItems == (if editMode then old(editableItems) else loaded)
      ensures editMode == old(editMode) && selectedSlugs == old(selectedSlugs) && saving == old(saving)
      ensures displayMode == old(displayMode) && categoryModalOpen == old(categoryModalOpen)
      ensures categoryList == old(categoryList) && serverCategories == old(serverCategories) && notice == old(notice)
      ensures old(Valid()) ==> Valid()
    {
      items := loaded;
      if !editMode {
        editableItems := loaded;
      }
    }

    /** The second effect: the category list follows the server's. */
    method CategoriesLoaded(server: Option<seq<string>>)
      modifies this
      ensures serverCategories == server && categoryList == ServerList(server)
      ensures items == old(items) && editableItems == old(editableItems) && editMode == old(editMode)
      ensures selectedSlugs == old(selectedSlugs) && saving == old(saving) && displayMode == old(displayMode)
      ensures categoryModalOpen == old(categoryModalOpen) && notice == old(notice)
      ensures old(Valid()) ==> Valid()
    {
      serverCategories := server;
      categoryList := ServerList(server);
    }

    method SetDisplayMode(mode: DisplayMode)
      modifies this
      ensures displayMode == mode
      ensures items == old(items) && editableItems == old(editableItems) && editMode == old(editMode)
      ensures selectedSlugs == old(selectedSlugs) && saving == old(saving) && categoryList == old(categoryList)
      ensures serverCategories == old(serverCategories) && categoryModalOpen == old(categoryModalOpen) && notice == old(notice)
      ensures old(Valid()) ==> Valid()
    {
      displayMode := mode;
    }

    /** `toggleEditMode`: leaving edit mode restores the loaded list and clears the selection. */
    method ToggleEditMode()
      modifies this
      ensures editMode == !old(editMode)
      ensures old(editMode) ==> editableItems == items && selectedSlugs == {}
      ensures !old(editMode) ==> editableItems == old(editableItems) && selectedSlugs == old(selectedSlugs)
      ensures items == old(items) && saving == old(saving) && displayMode == old(displayMode)
      ensures categoryList == old(categoryList) && serverCategories == old(serverCategories)
      ensures categoryModalOpen == old(categoryModalOpen) && notice == old(notice)
      ensures old(Valid()) ==> Valid()
    {
      var wasEditing := editMode;
      editMode := !editMode;
      if wasEditing {
        editableItems := items;
        selectedSlugs := {};
      }
    }

    method ToggleSelect(slug: string)
      modifies this
      ensures selectedSlugs == Toggle(old(selectedSlugs), slug)
      ensures items == old(items) && editableItems == old(editableItems) && editMode == old(editMode)
      ensures saving == old(saving) && displayMode == old(displayMode) && categoryList == old(categoryList)
      ensures serverCategories == old(serverCategories) && categoryModalOpen == old(categoryModalOpen) && notice == old(notice)
      ensures old(Valid()) && editMode ==> Valid()
    {
      selectedSlugs := Toggle(selectedSlugs, slug);
    }

    /** `handleItemClick`: outside edit mode the click follows the link. */
    method HandleItemClick(slug: string) returns (prevented: bool)
      modifies this
      ensures prevented == old(editMode)
      ensures selectedSlugs == (if old(editMode) then Toggle(old(selectedSlugs), slug) else old(selectedSlugs))
      ensures items == old(items) && editableItems == old(editableItems) && editMode == old(editMode)
      ensures saving == old(saving) && displayMode == old(displayMode) && categoryList == old(categoryList)
      ensures serverCategories == old(serverCategories) && categoryModalOpen == old(categoryModalOpen) && notice == old(notice)
      ensures old(Valid()) ==> Valid()
    {
      prevented := false;
      if editMode {
        prevented := true;
        ToggleSelect(slug);
      }
    }

    /** `handleSelectAll`: every editable post is selected. */
    method HandleSelectAll()
      modifies this
      ensures selectedSlugs == SlugSet(editableItems)
      ensures items == old(items) && editableItems == old(editableItems) && editMode == old(editMode)
      ensures saving == old(saving) && displayMode == old(displayMode) && categoryList == old(categoryList)
      ensures serverCategories == old(serverCategories) && categoryModalOpen == old(categoryModalOpen) && notice == old(notice)
      ensures old(Valid()) && editMode ==> Valid()
    {
      selectedSlugs := SlugSet(editableItems);
    }

    method HandleDeselectAll()
      modifies this
      ensures selectedSlugs == {}
      ensures items == old(items) && editableItems == old(editableItems) && editMode == old(editMode)
      ensures saving == old(saving) && displayMode == old(displayMode) && categoryList == old(categoryList)
      ensures serverCategories == old(serverCategories) && categoryModalOpen == old(categoryModalOpen) && notice == old(notice)
      ensures old(Valid()) ==> Valid()
    {
      selectedSlugs := {};
    }

    /** `handleSelectGroup` on the group under the key, if there is one. */
    method HandleSelectGroup(groupKey: string)
      modifies this
      ensures selectedSlugs == SelectGroup(old(selectedSlugs), JsMap.Get(old(Groups()), groupKey))
      ensures items == old(items) && editableItems == old(editableItems) && editMode == old(editMode)
      ensures saving == old(saving) && displayMode == old(displayMode) && categoryList == old(categoryList)
      ensures serverCategories == old(serverCategories) && categoryModalOpen == old(categoryModalOpen) && notice == old(notice)
      ensures old(Valid()) && editMode ==> Valid()
    {
      var group := JsMap.Get(Groups(), groupKey);
      if group.None? {
        return;
      }
      var members := group.value;
      var allSelected := forall x | x in members :: x.slug in selectedSlugs;
      var next := SelectMembers(selectedSlugs, members, allSelected);
      selectedSlugs := next;
    }

    /** `handleDeleteSelected`: drops the selected posts, keeps the rest in order, clears the selection. */
    method HandleDeleteSelected()
      modifies this
      ensures old(selectedSlugs) == {} ==> editableItems == old(editableItems) && selectedSlugs == {}
      ensures old(selectedSlugs) != {} ==> editableItems == Without(old(editableItems), old(selectedSlugs)) && selectedSlugs == {}
      ensures items == old(items) && editMode == old(editMode)
      ensures saving == old(saving) && displayMode == old(displayMode) && categoryList == old(categoryList)
      ensures serverCategories == old(serverCategories) && categoryModalOpen == old(categoryModalOpen) && notice == old(notice)
      ensures old(Valid()) ==> Valid()
    {
      if |selectedSlugs| == 0 {
        return;
      }
      editableItems := Without(editableItems, selectedSlugs);
      selectedSlugs := {};
    }

    /** `handleCancel`: the loaded list comes back, nothing is selected, edit mode ends. */
    method HandleCancel()
      modifies this
      ensures editableItems == items && selectedSlugs == {} && !editMode
      ensures items == old(items) && saving == old(saving) && displayMode == old(displayMode)
      ensures categoryList == old(categoryList) && serverCategories == old(serverCategories)
      ensures categoryModalOpen == old(categoryModalOpen) && notice == old(notice)
      ensures old(Valid()) ==> Valid()
    {
      editableItems := items;
      selectedSlugs := {};
      editMode := false;
    }

    /**
     * `handleSave`. Without changes it only reports so; without a key in
     * memory it fails; otherwise it sends the request, and `saveSucceeds` is
     * the outcome of `saveBlogEdits`. A successful save leaves edit mode,
     * after which the first effect restores the loaded list.
     */
    method HandleSave(store: Auth.ConfigStore, saveSucceeds: bool) returns (request: Option<SaveRequest>)
      modifies this
      ensures request.Some? <==> old(HasChanges(items, editableItems, categoryList, serverCategories)) && store.rawPem != ""
      ensures request.Some? ==>
        request.value == SaveRequest(items, old(editableItems), Js.TrimNonEmpty(old(categoryList)), store.rawPem)
      ensures !old(HasChanges(items, editableItems, categoryList, serverCategories)) ==> notice == Some(Info)
      ensures old(HasChanges(items, editableItems, categoryList, serverCategories)) && store.rawPem == "" ==>
        notice == Some(Failure)
      ensures request.Some? && saveSucceeds ==>
        !editMode && editableItems == items && selectedSlugs == {} && !categoryModalOpen && notice == Some(Success)
      ensures request.Some? && !saveSucceeds ==> notice == Some(Failure)
      ensures !(request.Some? && saveSucceeds) ==>
        editMode == old(editMode) && editableItems == old(editableItems) && selectedSlugs == old(selectedSlugs) &&
        categoryModalOpen == old(categoryModalOpen)
      ensures saving == (old(saving) && request.None?)
      ensures items == old(items) && displayMode == old(displayMode)
      ensures categoryList == old(categoryList) && serverCategories == old(serverCategories)
      ensures old(Valid()) ==> Valid()
    {
      var changed := HasChanges(items, editableItems, categoryList, serverCategories);
      request := None;
      if !changed {
        notice := Some(Info);
      } else if store.rawPem == "" {
        notice := Some(Failure);
      } else {
        saving := true;
        request := Some(SaveRequest(items, editableItems, Js.TrimNonEmpty(categoryList), store.rawPem));
        SaveSettled(saveSucceeds);
      }
    }

    /** What follows `saveBlogEdits`: the outcome reported, edit mode left on success, `saving` reset. */
    method SaveSettled(saveSucceeds: bool)
      modifies this
      ensures saveSucceeds ==>
        !editMode && editableItems == items && selectedSlugs == {} && !categoryModalOpen && notice == Some(Success)
      ensures !saveSucceeds ==>
        notice == Some(Failure) && editMode == old(editMode) && editableItems == old(editableItems) &&
        selectedSlugs == old(selectedSlugs) && categoryModalOpen == old(categoryModalOpen)
      ensures !saving
      ensures items == old(items) && displayMode == old(displayMode)
      ensures categoryList == old(categoryList) && serverCategories == old(serverCategories)
      ensures old(Valid()) ==> Valid()
    {
      if saveSucceeds {
        editMode := false;
        selectedSlugs := {};
        categoryModalOpen := false;
        editableItems := items;
        notice := Some(Success);
      } else {
        notice := Some(Failure);
      }
      saving := false;
    }

    /** The Ctrl/Cmd + `,` shortcut: outside edit mode it is taken, and enters edit mode only with a key. */
    method HandleKeyDown(ctrlKey: bool, metaKey: bool, key: string, store: Auth.ConfigStore) returns (prevented: bool)
      modifies this
      ensures prevented == ShortcutApplies(old(editMode), ctrlKey, metaKey, key)
      ensures editMode == (old(editMode) || (prevented && store.rawPem != ""))
      ensures items == old(items) && editableItems == old(editableItems) && selectedSlugs == old(selectedSlugs)
      ensures saving == old(saving) && displayMode == old(displayMode) && categoryList == old(categoryList)
      ensures serverCategories == old(serverCategories) && categoryModalOpen == old(categoryModalOpen) && notice == old(notice)
      ensures old(Valid()) ==> Valid()
    {
      prevented := false;
      if ShortcutApplies(editMode, ctrlKey, metaKey, key) {
        prevented := true;
        if store.rawPem != "" {
          ToggleEditMode();
        }
      }
    }
  }
}
