/**
 * The mod list of `openmw.cfg` as the mod assistant sees it: every line
 * `data=…`, `content=…` or `groundcover=…`, enabled unless it is commented
 * out with `#`, numbered in file order. Reading, searching and the
 * `(tab, load order)` sort the file writers use.
 */
module ModValues {
  import opened Wrappers
  import opened Text
  import opened Seqs

  /** One mod line of the configuration (`ModValue`). */
  datatype ModValue = ModValue(id: int, category: string, value: string, isChecked: bool, originalIndex: int)

  /** What a mod line says, without the numbering: its category, its value and whether it is enabled. */
  datatype Entry = Entry(category: string, value: string, isChecked: bool)

  /** The three tabs, in the order the file's groups are written. */
  const CATEGORIES: seq<string> := ["data", "content", "groundcover"]

  predicate IsCategory(c: string) {
    c == "data" || c == "content" || c == "groundcover"
  }

  function EntryOf(m: ModValue): Entry {
    Entry(m.category, m.value, m.isChecked)
  }

  function EntriesOf(ms: seq<ModValue>): (es: seq<Entry>)
    ensures |es| == |ms|
    ensures forall i | 0 <= i < |ms| :: es[i] == EntryOf(ms[i])
  {
    seq(|ms|, i requires 0 <= i < |ms| => EntryOf(ms[i]))
  }

  lemma EntriesOfSnoc(ms: seq<ModValue>)
    requires ms != []
    ensures EntriesOf(ms) == EntriesOf(ms[..|ms| - 1]) + [EntryOf(ms[|ms| - 1])]
  {
    var es := EntriesOf(ms);
    assert es[..|ms| - 1] == EntriesOf(ms[..|ms| - 1]);
  }

  /** The line the assistant writes for a mod: `category=value`, behind a `#` when it is disabled. */
  function ModLine(category: string, value: string, isChecked: bool): string {
    (if isChecked then "" else "#") + category + "=" + value
  }

  // ---------------------------------------------------------------------------
  // Reading (`readModValues`)

  /**
   * One line of the file: trimmed, it must hold a `=`; it is enabled unless
   * it starts with `#`; one leading `#` is dropped, the text is split at the
   * first `=`, both parts are trimmed, and the first must name a tab.
   */
  function ParseModLine(line: string): (r: Option<Entry>)
    ensures '=' !in Trim(line) ==> r.None?
    ensures r.Some? ==> IsCategory(r.value.category)
    ensures r.Some? ==> (r.value.isChecked <==> !StartsWith(Trim(line), "#"))
    ensures r.Some? ==> Trimmed(r.value.value)
  {
    ParseTrimmed(Trim(line))
  }

  function ParseTrimmed(trimmed: string): (r: Option<Entry>)
    ensures '=' !in trimmed ==> r.None?
    ensures r.Some? ==> IsCategory(r.value.category)
    ensures r.Some? ==> (r.value.isChecked <==> !StartsWith(trimmed, "#"))
    ensures r.Some? ==> Trimmed(r.value.value)
  {
    if '=' !in trimmed then None
    else SplitEntry(RemovePrefix(trimmed, "#"), !StartsWith(trimmed, "#"))
  }

  /** `split("=", limit = 2)` of the line without its `#`, both parts trimmed; kept when the first part names a tab. */
  function SplitEntry(body: string, isChecked: bool): (r: Option<Entry>)
    ensures r.Some? ==> IsCategory(r.value.category) && r.value.isChecked == isChecked
    ensures r.Some? ==> Trimmed(r.value.value)
  {
    match IndexOf(body, '=')
    case None => None
    case Some(k) =>
      var category := Trim(body[..k]);
      var value := Trim(body[k + 1..]);
      if IsCategory(category) then Some(Entry(category, value, isChecked)) else None
  }

  /** The entries of the mod lines of a file, in file order. */
  function ParsedEntries(lines: seq<string>): (es: seq<Entry>)
    ensures |es| <= |lines|
  {
    if lines == [] then []
    else
      var prev := ParsedEntries(lines[..|lines| - 1]);
      var parsed := ParseModLine(lines[|lines| - 1]);
      if parsed.Some? then prev + [parsed.value] else prev
  }

  /** Reading a file with one more line at the end. */
  lemma ParsedEntriesSnoc(lines: seq<string>, line: string)
    ensures ParsedEntries(lines + [line])
         == ParsedEntries(lines) + (if ParseModLine(line).Some? then [ParseModLine(line).value] else [])
  {
    assert (lines + [line])[..|lines|] == lines;
  }

  /** The entries numbered in order: ids from 0 and load-order indexes from 1. */
  function Numbered(es: seq<Entry>): (ms: seq<ModValue>)
    ensures EntriesOf(ms) == es
  {
    seq(|es|, i requires 0 <= i < |es| => ModValue(i, es[i].category, es[i].value, es[i].isChecked, i + 1))
  }

  /** `readModValues` over the lines of the configuration file. */
  method ReadModValues(lines: seq<string>) returns (values: seq<ModValue>)
    ensures values == Numbered(ParsedEntries(lines))
    ensures EntriesOf(values) == ParsedEntries(lines)
    ensures forall i | 0 <= i < |values| :: values[i].id == i && values[i].originalIndex == values[i].id + 1
    ensures Writable(values)
  {
    values := [];
    for n := 0 to |lines|
      invariant values == Numbered(ParsedEntries(lines[..n]))
    {
      PrefixSnoc(lines, n);
      ParsedEntriesSnoc(lines[..n], lines[n]);
      match ParseModLine(lines[n])
      case None =>
      case Some(e) =>
        NumberedSnoc(ParsedEntries(lines[..n]), e);
        values := values + [ModValue(|values|, e.category, e.value, e.isChecked, |values| + 1)];
    }
    WholePrefix(lines);
    NumberedIds(ParsedEntries(lines));
    ReadValuesWritable(lines);
  }

  /** Numbered entries carry their position as id and the next position as load-order index. */
  lemma NumberedIds(es: seq<Entry>)
    ensures forall i | 0 <= i < |Numbered(es)| :: Numbered(es)[i].id == i && Numbered(es)[i].originalIndex == Numbered(es)[i].id + 1
  {
  }

  lemma NumberedSnoc(es: seq<Entry>, e: Entry)
    ensures Numbered(es + [e]) == Numbered(es) + [ModValue(|es|, e.category, e.value, e.isChecked, |es| + 1)]
  {
    assert Numbered(es + [e])[..|es|] == Numbered(es);
  }

  // ---------------------------------------------------------------------------
  // Trimming facts used by the round trips

  lemma {:induction false} IndexOfFirst(a: string, c: char, b: string)
    requires c !in a
    ensures IndexOf(a + [c] + b, c) == Some(|a|)
  {
    var s := a + [c] + b;
    assert s[|a|] == c;
  }

  /** What the round trip needs of a category: non-blank ends, no `#` in front and no `=`. */
  lemma CategoryShape(category: string)
    requires IsCategory(category)
    ensures category != [] && category[0] != '#' && '=' !in category
    ensures !IsWhitespace(category[0]) && !IsWhitespace(category[|category| - 1])
  {
  }

  lemma {:induction false} SplitEntryOfLine(category: string, value: string, isChecked: bool)
    requires IsCategory(category) && Trimmed(value)
    ensures SplitEntry(category + "=" + value, isChecked) == Some(Entry(category, value, isChecked))
  {
    CategoryShape(category);
    var body := category + "=" + value;
    IndexOfFirst(category, '=', value);
    assert body[..|category|] == category && body[|category| + 1..] == value;
  }

  lemma {:induction false} ModLineTrimmed(category: string, value: string, isChecked: bool)
    requires IsCategory(category) && Trimmed(value)
    ensures Trimmed(ModLine(category, value, isChecked))
  {
    CategoryShape(category);
    var line := ModLine(category, value, isChecked);
    assert line[0] == if isChecked then category[0] else '#';
    if value != [] {
      assert line[|line| - 1] == value[|value| - 1];
    }
  }

  lemma {:induction false} ModLineBody(category: string, value: string, isChecked: bool)
    requires IsCategory(category)
    ensures ParseTrimmed(ModLine(category, value, isChecked)) == SplitEntry(category + "=" + value, isChecked)
  {
    CategoryShape(category);
    var body := category + "=" + value;
    var line := ModLine(category, value, isChecked);
    assert body[|category|] == '=';
    if isChecked {
      assert line == body;
      assert !StartsWith(line, "#") by {
        assert line[0] == category[0];
      }
      assert RemovePrefix(line, "#") == body;
    } else {
      assert line == "#" + body;
      assert line[|category| + 1] == '=';
      assert StartsWith(line, "#");
      assert RemovePrefix(line, "#") == body;
    }
  }

  /** A line the assistant writes reads back as the mod it was written for. */
  lemma {:induction false} ModLineRoundTrip(category: string, value: string, isChecked: bool)
    requires IsCategory(category) && Trimmed(value)
    ensures ParseModLine(ModLine(category, value, isChecked)) == Some(Entry(category, value, isChecked))
  {
    ModLineTrimmed(category, value, isChecked);
    ModLineBody(category, value, isChecked);
    SplitEntryOfLine(category, value, isChecked);
  }

  /** The lines written for a list of mods, each with its own enabled flag. */
  function ModLines(ms: seq<ModValue>): (lines: seq<string>)
    ensures |lines| == |ms|
  {
    seq(|ms|, i requires 0 <= i < |ms| => ModLine(ms[i].category, ms[i].value, ms[i].isChecked))
  }

  /** Mods that can be written and read back: a tab's category and a value without surrounding blanks. */
  predicate Writable(ms: seq<ModValue>) {
    forall i | 0 <= i < |ms| :: IsCategory(ms[i].category) && Trimmed(ms[i].value)
  }

  /** Writing mods line by line and reading the file back gives the same mods in the same order. */
  lemma {:induction false} ModLinesRoundTrip(ms: seq<ModValue>)
    requires Writable(ms)
    ensures ParsedEntries(ModLines(ms)) == EntriesOf(ms)
  {
    if ms != [] {
      var init := ms[..|ms| - 1];
      var last := ms[|ms| - 1];
      var lines := ModLines(ms);
      assert lines[..|ms| - 1] == ModLines(init);
      assert Writable(init) by {
        assert forall i | 0 <= i < |init| :: init[i] == ms[i];
      }
      ModLinesRoundTrip(init);
      ModLineRoundTrip(last.category, last.value, last.isChecked);
      assert ParsedEntries(lines) == EntriesOf(init) + [EntryOf(last)];
      EntriesOfSnoc(ms);
    }
  }

  /** Every entry read names a tab and has a trimmed value. */
  lemma {:induction false} ParsedEntryShape(lines: seq<string>, i: int)
    requires 0 <= i < |ParsedEntries(lines)|
    ensures IsCategory(ParsedEntries(lines)[i].category)
    ensures Trimmed(ParsedEntries(lines)[i].value)
  {
    var init := lines[..|lines| - 1];
    if i < |ParsedEntries(init)| {
      ParsedEntryShape(init, i);
    }
  }

  /** Mods read from any file can be written back and read again unchanged. */
  lemma ReadValuesWritable(lines: seq<string>)
    ensures Writable(Numbered(ParsedEntries(lines)))
  {
    var ms := Numbered(ParsedEntries(lines));
    forall i | 0 <= i < |ms| ensures IsCategory(ms[i].category) && Trimmed(ms[i].value) {
      ParsedEntryShape(lines, i);
      assert EntriesOf(ms)[i] == EntryOf(ms[i]);
    }
  }

  /** A trimmed line without `#` whose part before its first `=` names no tab once trimmed is not read. */
  lemma {:induction false} NoTabDropped(head: string, rest: string)
    requires head != [] && head[0] != '#' && '=' !in head && !IsCategory(Trim(head))
    ensures ParseTrimmed(head + "=" + rest).None?
  {
    var t := head + "=" + rest;
    assert t[0] == head[0];
    assert RemovePrefix(t, "#") == t;
    IndexOfFirst(head, '=', rest);
    assert t[..|head|] == head;
  }

  /** A first part that starts with U+0085 is left as it is by `trim()` and names no tab. */
  lemma NextLineHead(category: string)
    requires category != [] && '=' !in category && !IsWhitespace(category[|category| - 1])
    ensures var head := "\U{85}" + category;
            head[0] != '#' && '=' !in head && !IsWhitespace(head[0]) && !IsCategory(Trim(head))
  {
    var head := "\U{85}" + category;
    assert head[0] == '\U{85}' && head[1..] == category;
    assert head[|head| - 1] == category[|category| - 1];
    assert Trimmed(head);
    assert Trim(head) == head;
    assert head != "data" && head != "content" && head != "groundcover";
  }

  /**
   * `trim()` keeps the control U+0085 (NEL), so a line such as
   * "\u0085data=Foo.esp" has a first part that names no tab, and it is not
   * read.
   */
  lemma {:induction false} LeadingNextLineDropped(category: string, value: string)
    requires category != [] && '=' !in category && !IsWhitespace(category[|category| - 1])
    ensures ParseModLine("\U{85}" + category + "=" + value).None?
  {
    var head := "\U{85}" + category;
    NextLineHead(category);
    var line := head + "=" + value;
    assert line[|head|] == '=' && line[0] == head[0];
    TrimKeepsPrefix(line, |head|);
    PrefixOfJoin(head, '=', value, |Trim(line)|);
    NoTabDropped(head, value[..|Trim(line)| - |head| - 1]);
  }

  // ---------------------------------------------------------------------------
  // Tabs and searching (`searchMods`)

  /** The test a tab applies to a mod. */
  function InCategory(category: string): ModValue -> bool {
    (m: ModValue) => m.category == category
  }

  /** The mods shown on one tab: those of its category, in list order. */
  function OfCategory(mods: seq<ModValue>, category: string): (r: seq<ModValue>)
    ensures forall m :: m in r <==> m in mods && m.category == category
    ensures multiset(r) <= multiset(mods)
  {
    Filter(mods, InCategory(category))
  }

  /** A mod matches a search when it is in the chosen tab (if any) and its value holds the query, ignoring case. */
  predicate Matches(query: string, category: Option<string>, m: ModValue) {
    (category.None? || m.category == category.value) && ContainsIgnoreCase(m.value, query)
  }

  function SearchMods(query: string, mods: seq<ModValue>, category: Option<string>): (r: seq<ModValue>)
    ensures forall m :: m in r <==> m in mods && Matches(query, category, m)
  {
    Filter(mods, m => Matches(query, category, m))
  }

  /** The results keep the order of the list searched. */
  lemma SearchKeepsOrder(query: string, mods: seq<ModValue>, category: Option<string>)
    requires forall i, j | 0 <= i < j < |mods| :: mods[i].originalIndex < mods[j].originalIndex
    ensures var r := SearchMods(query, mods, category);
      forall i, j | 0 <= i < j < |r| :: r[i].originalIndex < r[j].originalIndex
  {
    FilterKeepsOrder(mods, m => Matches(query, category, m), (a: ModValue, b: ModValue) => a.originalIndex < b.originalIndex);
  }

  /** An empty query over all tabs finds every mod. */
  lemma EmptySearchFindsAll(mods: seq<ModValue>)
    ensures SearchMods("", mods, None) == mods
  {
    forall i | 0 <= i < |mods| ensures Matches("", None, mods[i]) {
      assert OccursIgnoreCaseAt(mods[i].value, "", 0);
    }
    FilterAll(mods, m => Matches("", None, m));
  }

  // ---------------------------------------------------------------------------
  // Ordering by (tab, load order)

  /** A tab's position in the list of tabs, -1 for any other category (`categories.indexOf`). */
  function Rank(category: string): (k: int)
    ensures -1 <= k < |CATEGORIES|
    ensures k >= 0 ==> CATEGORIES[k] == category
    ensures k == -1 <==> !IsCategory(category)
  {
    if category == "data" then 0 else if category == "content" then 1 else if category == "groundcover" then 2 else -1
  }

  /** Whether `a` may come before `b`: by tab first when `byTab`, then by load-order index. */
  predicate NotAfter(a: ModValue, b: ModValue, byTab: bool) {
    if byTab && Rank(a.category) != Rank(b.category) then Rank(a.category) < Rank(b.category)
    else a.originalIndex <= b.originalIndex
  }

  predicate Sorted(ms: seq<ModValue>, byTab: bool) {
    forall i, j | 0 <= i < j < |ms| :: NotAfter(ms[i], ms[j], byTab)
  }

  /** Inserting after every element that may come before it. */
  function Insert(x: ModValue, s: seq<ModValue>, byTab: bool): (r: seq<ModValue>)
    ensures multiset(r) == multiset(s) + multiset{x}
  {
    if s == [] then [x]
    else if NotAfter(s[0], x, byTab) then
      assert s == [s[0]] + s[1..];
      [s[0]] + Insert(x, s[1..], byTab)
    else
      [x] + s
  }

  lemma {:induction false} InsertSorted(x: ModValue, s: seq<ModValue>, byTab: bool)
    requires Sorted(s, byTab)
    ensures Sorted(Insert(x, s, byTab), byTab)
  {
    if s != [] && NotAfter(s[0], x, byTab) {
      var tail := s[1..];
      SortedTail(s, byTab);
      InsertSorted(x, tail, byTab);
      var rest := Insert(x, tail, byTab);
      forall j | 0 <= j < |rest| ensures NotAfter(s[0], rest[j], byTab) {
        HeadBeforeInserted(x, s, byTab, rest[j]);
      }
      SortedCons(s[0], rest, byTab);
    }
  }

  lemma SortedTail(s: seq<ModValue>, byTab: bool)
    requires s != [] && Sorted(s, byTab)
    ensures Sorted(s[1..], byTab)
  {
    var tail := s[1..];
    forall i, j | 0 <= i < j < |tail| ensures NotAfter(tail[i], tail[j], byTab) {
      assert tail[i] == s[i + 1] && tail[j] == s[j + 1];
    }
  }

  lemma HeadBeforeInserted(x: ModValue, s: seq<ModValue>, byTab: bool, y: ModValue)
    requires s != [] && Sorted(s, byTab) && NotAfter(s[0], x, byTab)
    requires y in multiset(Insert(x, s[1..], byTab))
    ensures NotAfter(s[0], y, byTab)
  {
    if y != x {
      assert y in multiset(s[1..]);
      var k :| 0 <= k < |s[1..]| && s[1..][k] == y;
      assert s[k + 1] == y;
    }
  }

  lemma SortedCons(h: ModValue, rest: seq<ModValue>, byTab: bool)
    requires Sorted(rest, byTab)
    requires forall j | 0 <= j < |rest| :: NotAfter(h, rest[j], byTab)
    ensures Sorted([h] + rest, byTab)
  {
    var r := [h] + rest;
    forall i, j | 0 <= i < j < |r| ensures NotAfter(r[i], r[j], byTab) {
      if i > 0 {
        assert r[i] == rest[i - 1];
      }
      assert r[j] == rest[j - 1];
    }
  }

  /** A stable sort (Kotlin's `sortedWith`/`sortedBy`): a sorted permutation. */
  function Sort(ms: seq<ModValue>, byTab: bool): (r: seq<ModValue>)
    ensures multiset(r) == multiset(ms)
    ensures Sorted(r, byTab)
  {
    if ms == [] then []
    else
      assert ms == ms[..|ms| - 1] + [ms[|ms| - 1]];
      InsertSorted(ms[|ms| - 1], Sort(ms[..|ms| - 1], byTab), byTab);
      Insert(ms[|ms| - 1], Sort(ms[..|ms| - 1], byTab), byTab)
  }

  /** Sorting keeps exactly the elements it was given. */
  lemma SortSameElements(ms: seq<ModValue>, byTab: bool)
    ensures forall x :: x in Sort(ms, byTab) <==> x in ms
  {
    var r := Sort(ms, byTab);
    forall x ensures x in r <==> x in ms {
      assert x in r <==> x in multiset(r);
      assert x in ms <==> x in multiset(ms);
    }
  }

  /** A list already in order is left as it is. */
  lemma {:induction false} SortOfSorted(ms: seq<ModValue>, byTab: bool)
    requires Sorted(ms, byTab)
    ensures Sort(ms, byTab) == ms
  {
    if ms != [] {
      var init := ms[..|ms| - 1];
      var last := ms[|ms| - 1];
      SortOfSorted(init, byTab);
      InsertAtEnd(last, init, byTab);
    }
  }

  lemma {:induction false} InsertAtEnd(x: ModValue, s: seq<ModValue>, byTab: bool)
    requires forall i | 0 <= i < |s| :: NotAfter(s[i], x, byTab)
    ensures Insert(x, s, byTab) == s + [x]
  {
    if s != [] {
      InsertAtEnd(x, s[1..], byTab);
      assert s == [s[0]] + s[1..];
    }
  }
}
