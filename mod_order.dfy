/**
 * Reordering the mods of one tab of the mod list (`ModValuesList`): a drag
 * that moves a row, the drag's end, which renumbers the tab and rewrites the
 * mod lines of `openmw.cfg`, and the "Mod Mover" dialog, which sends one mod
 * to a chosen position and rewrites the file too. After each rewrite the
 * list is read back from the file. The tabs are the lists of the `data`,
 * `content` and `groundcover` mods, in that order.
 */
module ModOrder {
  import opened Wrappers
  import opened Text
  import opened Seqs
  import opened ModValues

  // ---------------------------------------------------------------------------
  // Moving one element (`removeAt` then `add`)

  /** The list with the element at `from` taken out and put back in at `to`. */
  function Moved<T>(xs: seq<T>, from: int, to: int): (r: seq<T>)
    requires 0 <= from < |xs| && 0 <= to < |xs|
    ensures |r| == |xs|
    ensures multiset(r) == multiset(xs)
  {
    var rest := xs[..from] + xs[from + 1..];
    assert xs == xs[..from] + [xs[from]] + xs[from + 1..];
    assert rest == rest[..to] + rest[to..];
    assert multiset(xs) == multiset(rest) + multiset{xs[from]};
    rest[..to] + [xs[from]] + rest[to..]
  }

  /** Where every element ends up: the moved one at `to`, the ones in between shifted by one towards `from`, the others in place. */
  lemma MovedPositions<T>(xs: seq<T>, from: int, to: int)
    requires 0 <= from < |xs| && 0 <= to < |xs|
    ensures Moved(xs, from, to)[to] == xs[from]
    ensures forall i | 0 <= i < |xs| && i < from && i < to :: Moved(xs, from, to)[i] == xs[i]
    ensures forall i | 0 <= i < |xs| && i > from && i > to :: Moved(xs, from, to)[i] == xs[i]
    ensures forall i | from <= i < to :: Moved(xs, from, to)[i] == xs[i + 1]
    ensures forall i | to < i <= from :: Moved(xs, from, to)[i] == xs[i - 1]
  {
  }

  /** Moving the element back from `to` to `from` restores the list. */
  lemma {:induction false} MoveBack<T>(xs: seq<T>, from: int, to: int)
    requires 0 <= from < |xs| && 0 <= to < |xs|
    ensures Moved(Moved(xs, from, to), to, from) == xs
  {
    var ys := Moved(xs, from, to);
    MovedPositions(xs, from, to);
    MovedPositions(ys, to, from);
    var zs := Moved(ys, to, from);
    forall i | 0 <= i < |xs| ensures zs[i] == xs[i] {
    }
  }

  // ---------------------------------------------------------------------------
  // Tabs

  /** The tabs shown after reading the mod list: one list per category, in file order. */
  function TabsOf(values: seq<ModValue>): seq<seq<ModValue>> {
    seq(|CATEGORIES|, k requires 0 <= k < |CATEGORIES| => OfCategory(values, CATEGORIES[k]))
  }

  /** Every mod of the list belongs to the category `c` and has a trimmed value. */
  predicate InTab(ms: seq<ModValue>, c: string) {
    forall m | m in ms :: m.category == c && Trimmed(m.value)
  }

  /** Three tabs, each holding only mods of its own category. */
  predicate Tabbed(tabs: seq<seq<ModValue>>) {
    |tabs| == |CATEGORIES| && forall k | 0 <= k < |CATEGORIES| :: InTab(tabs[k], CATEGORIES[k])
  }

  /** The tabs one after the other (`flatten`). */
  function Flatten<T>(tabs: seq<seq<T>>): (r: seq<T>)
    ensures forall k, x | 0 <= k < |tabs| && x in tabs[k] :: x in r
  {
    if tabs == [] then [] else tabs[0] + Flatten(tabs[1..])
  }

  lemma {:induction false} FlattenThree<T>(tabs: seq<seq<T>>)
    requires |tabs| == 3
    ensures Flatten(tabs) == tabs[0] + tabs[1] + tabs[2]
  {
    assert tabs[1..][1..] == tabs[2..];
    assert Flatten(tabs[2..]) == tabs[2] + Flatten(tabs[3..]);
    assert tabs[3..] == [];
  }

  /** A drag step (`onMove`): the row at `from` of the selected tab goes to `to`; the other tabs are untouched. */
  function Reordered(tabs: seq<seq<ModValue>>, selected: int, from: int, to: int): (r: seq<seq<ModValue>>)
    requires 0 <= selected < |tabs| && 0 <= from < |tabs[selected]| && 0 <= to < |tabs[selected]|
    ensures |r| == |tabs| && r[selected] == Moved(tabs[selected], from, to)
    ensures forall k | 0 <= k < |tabs| && k != selected :: r[k] == tabs[k]
  {
    tabs[selected := Moved(tabs[selected], from, to)]
  }

  /** A drag step keeps every mod in its own tab. */
  lemma ReorderedTabbed(tabs: seq<seq<ModValue>>, selected: int, from: int, to: int)
    requires 0 <= selected < |tabs| && 0 <= from < |tabs[selected]| && 0 <= to < |tabs[selected]|
    requires Tabbed(tabs)
    ensures Tabbed(Reordered(tabs, selected, from, to))
  {
    var moved := Moved(tabs[selected], from, to);
    forall m | m in moved ensures m in tabs[selected] {
      assert m in multiset(moved);
    }
  }

  // ---------------------------------------------------------------------------
  // Renumbering (`forEachIndexed`)

  /** The list with each mod's load-order index replaced by its position plus `base`. */
  function Renumbered(ms: seq<ModValue>, base: int): (r: seq<ModValue>)
    ensures |r| == |ms|
    ensures forall i | 0 <= i < |ms| :: r[i] == ms[i].(originalIndex := i + base)
  {
    seq(|ms|, i requires 0 <= i < |ms| => ms[i].(originalIndex := i + base))
  }

  /** Renumbering changes no mod's category, value or state and leaves the list in load order. */
  lemma RenumberedKeeps(ms: seq<ModValue>, base: int, c: string)
    ensures EntriesOf(Renumbered(ms, base)) == EntriesOf(ms)
    ensures Sorted(Renumbered(ms, base), false)
    ensures InTab(ms, c) ==> InTab(Renumbered(ms, base), c)
  {
    var r := Renumbered(ms, base);
    if InTab(ms, c) {
      forall m | m in r ensures m.category == c && Trimmed(m.value) {
        var i :| 0 <= i < |r| && r[i] == m;
        assert ms[i] in ms;
      }
    }
  }

  /** Renumbering the list in place, position by position. */
  method Renumber(ms: seq<ModValue>, base: int) returns (r: seq<ModValue>)
    ensures r == Renumbered(ms, base)
  {
    r := ms;
    for i := 0 to |ms|
      invariant |r| == |ms|
      invariant forall j | 0 <= j < i :: r[j] == ms[j].(originalIndex := j + base)
      invariant forall j | i <= j < |ms| :: r[j] == ms[j]
    {
      r := r[i := r[i].(originalIndex := i + base)];
    }
  }

  // ---------------------------------------------------------------------------
  // Reading the tabs back

  lemma RankOfCategory(k: int)
    requires 0 <= k < |CATEGORIES|
    ensures Rank(CATEGORIES[k]) == k
  {
  }

  /** Joining two sorted lists where nothing of the first comes after anything of the second. */
  lemma SortedAppend(xs: seq<ModValue>, ys: seq<ModValue>, byTab: bool)
    requires Sorted(xs, byTab) && Sorted(ys, byTab)
    requires forall x, y | x in xs && y in ys :: NotAfter(x, y, byTab)
    ensures Sorted(xs + ys, byTab)
  {
    var zs := xs + ys;
    forall i, j | 0 <= i < j < |zs| ensures NotAfter(zs[i], zs[j], byTab) {
      if j < |xs| {
        assert zs[i] == xs[i] && zs[j] == xs[j];
      } else if i >= |xs| {
        assert zs[i] == ys[i - |xs|] && zs[j] == ys[j - |xs|];
      } else {
        assert zs[i] in xs && zs[j] in ys;
      }
    }
  }

  /** A tab in load order is also in file order, since all its mods have the same category. */
  lemma TabSorted(ms: seq<ModValue>, k: int)
    requires 0 <= k < |CATEGORIES| && InTab(ms, CATEGORIES[k]) && Sorted(ms, false)
    ensures Sorted(ms, true)
  {
    forall i, j | 0 <= i < j < |ms| ensures NotAfter(ms[i], ms[j], true) {
      assert ms[i] in ms && ms[j] in ms;
      assert NotAfter(ms[i], ms[j], false);
    }
  }

  /** Tabs in load order, joined, are in the order the file is written in, and can be written. */
  lemma {:induction false} FlatSorted(tabs: seq<seq<ModValue>>)
    requires Tabbed(tabs)
    requires forall k | 0 <= k < |tabs| :: Sorted(tabs[k], false)
    ensures Sorted(Flatten(tabs), true)
    ensures Writable(Flatten(tabs))
  {
    FlattenThree(tabs);
    RankOfCategory(0);
    RankOfCategory(1);
    RankOfCategory(2);
    TabSorted(tabs[0], 0);
    TabSorted(tabs[1], 1);
    TabSorted(tabs[2], 2);
    SortedAppend(tabs[0], tabs[1], true);
    SortedAppend(tabs[0] + tabs[1], tabs[2], true);
    var flat := Flatten(tabs);
    forall i | 0 <= i < |flat| ensures IsCategory(flat[i].category) && Trimmed(flat[i].value) {
      assert flat[i] in tabs[0] || flat[i] in tabs[1] || flat[i] in tabs[2];
    }
  }

  /** The tab of category `k` picks out of the joined tabs exactly the `k`-th tab. */
  lemma {:induction false} OfCategoryOfFlat(tabs: seq<seq<ModValue>>, k: int)
    requires Tabbed(tabs) && 0 <= k < |CATEGORIES|
    ensures OfCategory(Flatten(tabs), CATEGORIES[k]) == tabs[k]
  {
    FlattenThree(tabs);
    InTabAllOf(tabs[0], CATEGORIES[0]);
    InTabAllOf(tabs[1], CATEGORIES[1]);
    InTabAllOf(tabs[2], CATEGORIES[2]);
    OfCategoryOfJoin(tabs, k);
  }

  /** Every mod of the list belongs to the category `c`. */
  predicate AllOf(ms: seq<ModValue>, c: string) {
    forall m | m in ms :: m.category == c
  }

  lemma InTabAllOf(ms: seq<ModValue>, c: string)
    requires InTab(ms, c)
    ensures AllOf(ms, c)
  {
  }

  lemma {:induction false} OfCategoryOfJoin(tabs: seq<seq<ModValue>>, k: int)
    requires |tabs| == |CATEGORIES| && 0 <= k < |CATEGORIES|
    requires AllOf(tabs[0], CATEGORIES[0]) && AllOf(tabs[1], CATEGORIES[1]) && AllOf(tabs[2], CATEGORIES[2])
    ensures OfCategory(tabs[0] + tabs[1] + tabs[2], CATEGORIES[k]) == tabs[k]
  {
    var a, b, c := tabs[0], tabs[1], tabs[2];
    var p := InCategory(CATEGORIES[k]);
    FilterThree(a, b, c, p);
    if k == 0 {
      FilterOwnTab(a, CATEGORIES[0]);
      FilterOtherTab(b, CATEGORIES[1], CATEGORIES[0]);
      FilterOtherTab(c, CATEGORIES[2], CATEGORIES[0]);
      assert a + [] + [] == a;
    } else if k == 1 {
      FilterOtherTab(a, CATEGORIES[0], CATEGORIES[1]);
      FilterOwnTab(b, CATEGORIES[1]);
      FilterOtherTab(c, CATEGORIES[2], CATEGORIES[1]);
      assert [] + b + [] == b;
    } else {
      FilterOtherTab(a, CATEGORIES[0], CATEGORIES[2]);
      FilterOtherTab(b, CATEGORIES[1], CATEGORIES[2]);
      FilterOwnTab(c, CATEGORIES[2]);
      assert [] + [] + c == c;
    }
  }

  lemma {:induction false} FilterThree<T(!new)>(a: seq<T>, b: seq<T>, c: seq<T>, p: T -> bool)
    ensures Filter(a + b + c, p) == Filter(a, p) + Filter(b, p) + Filter(c, p)
  {
    FilterAppend(a + b, c, p);
    FilterAppend(a, b, p);
  }

  /** A tab's own category keeps the whole tab. */
  lemma FilterOwnTab(ms: seq<ModValue>, c: string)
    requires AllOf(ms, c)
    ensures Filter(ms, InCategory(c)) == ms
  {
    forall i | 0 <= i < |ms| ensures InCategory(c)(ms[i]) {
      assert ms[i] in ms;
    }
    FilterAll(ms, InCategory(c));
  }

  /** Another tab's category keeps nothing of the tab. */
  lemma FilterOtherTab(ms: seq<ModValue>, c: string, d: string)
    requires AllOf(ms, c) && c != d
    ensures Filter(ms, InCategory(d)) == []
  {
    forall i | 0 <= i < |ms| ensures !InCategory(d)(ms[i]) {
      assert ms[i] in ms;
    }
    FilterNone(ms, InCategory(d));
  }

  /** Which mods a tab shows depends only on the entries of the list, not on their numbering. */
  lemma {:induction false} OfCategorySameEntries(ms: seq<ModValue>, ns: seq<ModValue>, c: string)
    requires EntriesOf(ms) == EntriesOf(ns)
    ensures EntriesOf(OfCategory(ms, c)) == EntriesOf(OfCategory(ns, c))
  {
    if ms != [] {
      assert EntriesOf(ms)[0] == EntryOf(ms[0]) && EntriesOf(ns)[0] == EntryOf(ns[0]);
      assert EntriesOf(ms[1..]) == EntriesOf(ns[1..]) by {
        assert EntriesOf(ms[1..]) == EntriesOf(ms)[1..];
        assert EntriesOf(ns[1..]) == EntriesOf(ns)[1..];
      }
      OfCategorySameEntries(ms[1..], ns[1..], c);
      EntriesOfCons(OfCategory(ms[1..], c), ms[0]);
      EntriesOfCons(OfCategory(ns[1..], c), ns[0]);
    }
  }

  lemma EntriesOfCons(ms: seq<ModValue>, m: ModValue)
    ensures EntriesOf([m] + ms) == [EntryOf(m)] + EntriesOf(ms)
  {
  }

  /**
   * When the file lists the mods of well-formed tabs one tab after the other,
   * reading it back shows each tab with the same mods, in the same order and
   * in the same state.
   */
  lemma {:induction false} ReloadShowsTabs(tabs: seq<seq<ModValue>>, lines: seq<string>)
    requires Tabbed(tabs)
    requires ParsedEntries(lines) == EntriesOf(Flatten(tabs))
    ensures forall k | 0 <= k < |CATEGORIES| :: EntriesOf(TabsOf(Numbered(ParsedEntries(lines)))[k]) == EntriesOf(tabs[k])
  {
    var values := Numbered(ParsedEntries(lines));
    forall k | 0 <= k < |CATEGORIES| ensures EntriesOf(TabsOf(values)[k]) == EntriesOf(tabs[k]) {
      OfCategorySameEntries(values, Flatten(tabs), CATEGORIES[k]);
      OfCategoryOfFlat(tabs, k);
    }
  }

  /** Tabs read from a file are well-formed and each is in load order. */
  lemma {:induction false} LoadedTabs(lines: seq<string>)
    ensures Tabbed(TabsOf(Numbered(ParsedEntries(lines))))
    ensures forall k | 0 <= k < |CATEGORIES| :: Sorted(TabsOf(Numbered(ParsedEntries(lines)))[k], false)
  {
    var values := Numbered(ParsedEntries(lines));
    assert Tabbed(TabsOf(values)) by {
      ReadValuesWritable(lines);
      forall k | 0 <= k < |CATEGORIES| ensures InTab(TabsOf(values)[k], CATEGORIES[k]) {
        forall m | m in TabsOf(values)[k] ensures m.category == CATEGORIES[k] && Trimmed(m.value) {
          var i :| 0 <= i < |values| && values[i] == m;
        }
      }
    }
    forall k | 0 <= k < |CATEGORIES| ensures Sorted(TabsOf(values)[k], false) {
      assert forall i, j | 0 <= i < j < |values| :: values[i].originalIndex < values[j].originalIndex;
      FilterKeepsOrder(values, InCategory(CATEGORIES[k]), (a: ModValue, b: ModValue) => a.originalIndex < b.originalIndex);
    }
  }

  // ---------------------------------------------------------------------------
  // The end of a drag (`onDragStopped`)

  /** The mod lines written at the end of a drag: every mod of every tab, by tab and then by load-order index, with a `#` before each disabled one. */
  function DragStopLines(tabs: seq<seq<ModValue>>): seq<string> {
    ModLines(Sort(Flatten(tabs), true))
  }

  /**
   * The end of a drag: the selected tab is renumbered from 1 in its new order,
   * the file is rewritten from all tabs and the tabs are read back from it.
   */
  method DragStop(tabs: seq<seq<ModValue>>, selected: int) returns (shown: seq<seq<ModValue>>, lines: seq<string>, reloaded: seq<seq<ModValue>>)
    requires 0 <= selected < |tabs|
    ensures shown == tabs[selected := Renumbered(tabs[selected], 1)]
    ensures lines == DragStopLines(shown)
    ensures reloaded == TabsOf(Numbered(ParsedEntries(lines)))
    ensures DragPrecondition(tabs, selected) ==> forall k | 0 <= k < |CATEGORIES| :: EntriesOf(reloaded[k]) == EntriesOf(tabs[k])
  {
    var current := Renumber(tabs[selected], 1);
    shown := tabs[selected := current];
    lines := DragStopLines(shown);
    var values := ReadModValues(lines);
    reloaded := TabsOf(values);
    if DragPrecondition(tabs, selected) {
      DragStopKeepsOrder(tabs, selected);
    }
  }

  /** The tabs are well-formed and every tab but the dragged one is still in load order, as after any reload. */
  predicate DragPrecondition(tabs: seq<seq<ModValue>>, selected: int) {
    Tabbed(tabs) && 0 <= selected < |tabs| && forall k | 0 <= k < |tabs| && k != selected :: Sorted(tabs[k], false)
  }

  /**
   * After a drag, reading the rewritten file back shows every tab with the
   * mods in the order they were dragged into, each still enabled or disabled
   * as before.
   */
  lemma {:induction false} DragStopKeepsOrder(tabs: seq<seq<ModValue>>, selected: int)
    requires DragPrecondition(tabs, selected)
    ensures var shown := tabs[selected := Renumbered(tabs[selected], 1)];
      ParsedEntries(DragStopLines(shown)) == EntriesOf(Flatten(shown))
    ensures var shown := tabs[selected := Renumbered(tabs[selected], 1)];
      forall k | 0 <= k < |CATEGORIES| :: EntriesOf(TabsOf(Numbered(ParsedEntries(DragStopLines(shown))))[k]) == EntriesOf(tabs[k])
  {
    var shown := tabs[selected := Renumbered(tabs[selected], 1)];
    RenumberedKeeps(tabs[selected], 1, CATEGORIES[selected]);
    assert Tabbed(shown);
    FlatSorted(shown);
    SortOfSorted(Flatten(shown), true);
    ModLinesRoundTrip(Flatten(shown));
    ReloadShowsTabs(shown, DragStopLines(shown));
  }

  // ---------------------------------------------------------------------------
  // The "Mod Mover" dialog

  /** `indexOfFirst`: the position of the first mod with the given load-order index, or -1 when there is none. */
  function IndexOfKey(ms: seq<ModValue>, key: int): (r: int)
    ensures -1 <= r < |ms|
    ensures r >= 0 ==> ms[r].originalIndex == key && forall i | 0 <= i < r :: ms[i].originalIndex != key
    ensures r == -1 ==> forall i | 0 <= i < |ms| :: ms[i].originalIndex != key
  {
    if ms == [] then -1
    else if ms[0].originalIndex == key then 0
    else
      var r := IndexOfKey(ms[1..], key);
      if r == -1 then -1 else r + 1
  }

  /** The mod lines the dialog writes: every mod of every tab, in tab order, as `category=value`. */
  function MoveLines(tabs: seq<seq<ModValue>>): (lines: seq<string>)
    ensures |lines| == |Flatten(tabs)|
  {
    var flat := Flatten(tabs);
    seq(|flat|, i requires 0 <= i < |flat| => flat[i].category + "=" + flat[i].value)
  }

  /** The tabs after the move, before the file is rewritten: the mod taken to `target` and the tab renumbered from 0. */
  function MovedTabs(tabs: seq<seq<ModValue>>, selected: int, current: int, target: int): (r: seq<seq<ModValue>>)
    requires 0 <= selected < |tabs| && 0 <= current < |tabs[selected]| && 0 <= target < |tabs[selected]|
    ensures |r| == |tabs| && forall k | 0 <= k < |tabs| && k != selected :: r[k] == tabs[k]
    ensures EntriesOf(r[selected]) == EntriesOf(Moved(tabs[selected], current, target))
  {
    RenumberedKeeps(Moved(tabs[selected], current, target), 0, "");
    tabs[selected := Renumbered(Moved(tabs[selected], current, target), 0)]
  }

  /**
   * Confirming the dialog for the mod with load-order index `key` and the
   * position `target` picked on the number picker. Nothing happens when the
   * mod is not found or already stands there; otherwise the mod is moved,
   * the tab renumbered from 0, the file rewritten with `MoveLines` and the
   * tabs read back. `written` is what was written, if anything.
   */
  method ConfirmMove(tabs: seq<seq<ModValue>>, selected: int, key: int, target: int) returns (written: Option<seq<string>>, reloaded: seq<seq<ModValue>>)
    requires 0 <= selected < |tabs| && 0 <= target < |tabs[selected]|
    ensures written.None? <==> IndexOfKey(tabs[selected], key) == -1 || IndexOfKey(tabs[selected], key) == target
    ensures written.None? ==> reloaded == tabs
    ensures written.Some? ==> written.value == MoveLines(MovedTabs(tabs, selected, IndexOfKey(tabs[selected], key), target))
    ensures written.Some? ==> reloaded == TabsOf(Numbered(ParsedEntries(written.value)))
    ensures written.Some? && Tabbed(tabs) ==> ParsedEntries(written.value) == EntriesOf(Enabled(Flatten(MovedTabs(tabs, selected, IndexOfKey(tabs[selected], key), target))))
  {
    var initial := IndexOfKey(tabs[selected], key);
    if target == initial {
      return None, tabs;
    }
    var current := IndexOfKey(tabs[selected], key);
    if current == -1 {
      return None, tabs;
    }
    var moved := Moved(tabs[selected], current, target);
    var renumbered := Renumber(moved, 0);
    var lines := MoveLines(tabs[selected := renumbered]);
    if Tabbed(tabs) {
      MovedTabsTabbed(tabs, selected, current, target);
      MoveLinesEnableAll(tabs[selected := renumbered]);
    }
    var values := ReadModValues(lines);
    written, reloaded := Some(lines), TabsOf(values);
  }

  /** Every mod of the list marked enabled. */
  function Enabled(ms: seq<ModValue>): (r: seq<ModValue>)
    ensures |r| == |ms|
  {
    seq(|ms|, i requires 0 <= i < |ms| => ms[i].(isChecked := true))
  }

  /** As written, the dialog's lines read back as every mod enabled: a disabled mod loses its `#`. */
  lemma {:induction false} MoveLinesEnableAll(tabs: seq<seq<ModValue>>)
    requires Tabbed(tabs)
    ensures ParsedEntries(MoveLines(tabs)) == EntriesOf(Enabled(Flatten(tabs)))
  {
    var flat := Flatten(tabs);
    assert MoveLines(tabs) == ModLines(Enabled(flat)) by {
      forall i | 0 <= i < |flat| ensures MoveLines(tabs)[i] == ModLines(Enabled(flat))[i] {
        assert ModLine(flat[i].category, flat[i].value, true) == flat[i].category + "=" + flat[i].value;
      }
    }
    FlatWritable(tabs);
    ModLinesRoundTrip(Enabled(flat));
  }

  lemma {:induction false} FlatWritable(tabs: seq<seq<ModValue>>)
    requires Tabbed(tabs)
    ensures Writable(Flatten(tabs)) && Writable(Enabled(Flatten(tabs)))
  {
    FlattenThree(tabs);
    var flat := Flatten(tabs);
    forall i | 0 <= i < |flat| ensures IsCategory(flat[i].category) && Trimmed(flat[i].value) {
      assert flat[i] in tabs[0] || flat[i] in tabs[1] || flat[i] in tabs[2];
    }
  }

  /** So a move writes a file that no longer says a disabled mod is disabled. */
  lemma {:induction false} MoveEnablesDisabledMod(tabs: seq<seq<ModValue>>, k: int, i: int)
    requires Tabbed(tabs) && 0 <= k < |tabs| && 0 <= i < |tabs[k]| && !tabs[k][i].isChecked
    ensures ParsedEntries(MoveLines(tabs)) != EntriesOf(Flatten(tabs))
  {
    MoveLinesEnableAll(tabs);
    var m := tabs[k][i];
    assert m in tabs[k];
    EnabledDiffers(Flatten(tabs), m);
  }

  lemma EnabledDiffers(ms: seq<ModValue>, m: ModValue)
    requires m in ms && !m.isChecked
    ensures EntriesOf(Enabled(ms)) != EntriesOf(ms)
  {
    var j :| 0 <= j < |ms| && ms[j] == m;
    assert EntriesOf(Enabled(ms))[j].isChecked != EntriesOf(ms)[j].isChecked;
  }

  /** The lines the dialog should write: each mod as `ModLine`, keeping the `#` of a disabled one. */
  function MoveLinesCorrected(tabs: seq<seq<ModValue>>): seq<string> {
    ModLines(Flatten(tabs))
  }

  /** With the corrected lines, reading the file back shows every tab in its new order with each mod's state kept. */
  lemma {:induction false} MoveCorrectedKeepsState(tabs: seq<seq<ModValue>>)
    requires Tabbed(tabs)
    ensures ParsedEntries(MoveLinesCorrected(tabs)) == EntriesOf(Flatten(tabs))
    ensures forall k | 0 <= k < |CATEGORIES| :: EntriesOf(TabsOf(Numbered(ParsedEntries(MoveLinesCorrected(tabs))))[k]) == EntriesOf(tabs[k])
  {
    FlatWritable(tabs);
    ModLinesRoundTrip(Flatten(tabs));
    ReloadShowsTabs(tabs, MoveLinesCorrected(tabs));
  }

  /** A move keeps the tabs well-formed. */
  lemma {:induction false} MovedTabsTabbed(tabs: seq<seq<ModValue>>, selected: int, current: int, target: int)
    requires Tabbed(tabs)
    requires 0 <= selected < |tabs| && 0 <= current < |tabs[selected]| && 0 <= target < |tabs[selected]|
    ensures Tabbed(MovedTabs(tabs, selected, current, target))
  {
    ReorderedTabbed(tabs, selected, current, target);
    RenumberedKeeps(Moved(tabs[selected], current, target), 0, CATEGORIES[selected]);
  }
}
