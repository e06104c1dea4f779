/**
 * Rewriting the mod lines of `openmw.cfg`: `writeModValuesToFile`, which
 * regroups the file by tab and appends the mods it does not hold yet, and
 * the checkbox handler, which rewrites the lines of one mod as enabled or
 * disabled. Files are their lines; a file that does not exist is `None`.
 */
module ModConfig {
  import opened Wrappers
  import opened Text
  import opened Seqs
  import opened ModValues

  /** The trimmed non-blank lines of the file, in order; none when it does not exist. */
  function ExistingLines(file: Option<seq<string>>): (r: seq<string>)
    ensures forall i | 0 <= i < |r| :: r[i] != [] && Trimmed(r[i])
  {
    if file.None? then [] else TrimmedLines(file.value)
  }

  function TrimmedLines(lines: seq<string>): (r: seq<string>)
    ensures |r| <= |lines|
    ensures forall i | 0 <= i < |r| :: r[i] != [] && Trimmed(r[i])
  {
    if lines == [] then []
    else
      var prev := TrimmedLines(lines[..|lines| - 1]);
      var t := Trim(lines[|lines| - 1]);
      if t != [] then prev + [t] else prev
  }

  /** Reading the existing lines (`forEachLine`, keeping each trimmed line that is not blank). */
  method ReadExistingLines(file: Option<seq<string>>) returns (existing: seq<string>)
    ensures existing == ExistingLines(file)
    ensures ParsedEntries(existing) == (if file.None? then [] else ParsedEntries(file.value))
  {
    existing := [];
    if file.Some? {
      var lines := file.value;
      for n := 0 to |lines|
        invariant existing == TrimmedLines(lines[..n])
      {
        LongerPrefix(lines, n);
        var t := Trim(lines[n]);
        if t != [] {
          existing := existing + [t];
        }
      }
      WholePrefix(lines);
      TrimmedLinesKeepMods(lines);
    }
  }

  /** Trimming the lines and dropping the blank ones changes no mod the file holds. */
  lemma {:induction false} TrimmedLinesKeepMods(lines: seq<string>)
    ensures ParsedEntries(TrimmedLines(lines)) == ParsedEntries(lines)
  {
    if lines != [] {
      var init := lines[..|lines| - 1];
      var last := lines[|lines| - 1];
      TrimmedLinesKeepMods(init);
      var t := Trim(last);
      assert ParseModLine(t) == ParseModLine(last);
      if t != [] {
        assert (TrimmedLines(init) + [t])[..|TrimmedLines(init)|] == TrimmedLines(init);
      }
    }
  }

  // ---------------------------------------------------------------------------
  // `writeModValuesToFile`

  /** The existing lines of a tab's group: those starting with the tab's name (commented lines start with `#` and are in no group). */
  function ExistingGroup(existing: seq<string>, category: string): (r: seq<string>)
    ensures forall l :: l in r <==> l in existing && StartsWith(l, category)
  {
    Filter(existing, (l: string) => StartsWith(l, category))
  }

  /** The mods of one tab, in the order they are considered: by load-order index. */
  function TabMods(mods: seq<ModValue>, category: string): (r: seq<ModValue>)
    ensures multiset(r) == multiset(OfCategory(mods, category))
    ensures forall m :: m in r <==> m in mods && m.category == category
    ensures forall i | 0 <= i < |r| :: r[i].category == category
    ensures Sorted(r, false)
  {
    var own := OfCategory(mods, category);
    SortSameElements(own, false);
    assert forall i | 0 <= i < |Sort(own, false)| :: Sort(own, false)[i] in own;
    Sort(own, false)
  }

  /** Whether some line equals `l` once a leading `#` is dropped from the line. */
  predicate HasModuloHash(lines: seq<string>, l: string) {
    exists i | 0 <= i < |lines| :: RemovePrefix(lines[i], "#") == l
  }

  /** Appending, in order, the line `category=value` of each mod not already in the group and not ignored. */
  function AddNew(group: seq<string>, mods: seq<ModValue>, ignoreList: seq<string>): (r: seq<string>)
    ensures |group| <= |r| && r[..|group|] == group
  {
    if mods == [] then group
    else
      var g := AddNew(group, mods[..|mods| - 1], ignoreList);
      var m := mods[|mods| - 1];
      var line := m.category + "=" + m.value;
      if !HasModuloHash(g, RemovePrefix(line, "#")) && m.value !in ignoreList then g + [line] else g
  }

  /** One tab's group: its existing lines, then the lines of its new mods. */
  function Group(existing: seq<string>, mods: seq<ModValue>, ignoreList: seq<string>, category: string): seq<string> {
    AddNew(ExistingGroup(existing, category), TabMods(mods, category), ignoreList)
  }

  /** The groups of the first `k` tabs, each followed by an empty line. */
  function WrittenUpTo(k: nat, existing: seq<string>, mods: seq<ModValue>, ignoreList: seq<string>): seq<string>
    requires k <= |CATEGORIES|
  {
    if k == 0 then []
    else WrittenUpTo(k - 1, existing, mods, ignoreList) + Group(existing, mods, ignoreList, CATEGORIES[k - 1]) + [""]
  }

  /** The lines `writeModValuesToFile` writes. */
  function WrittenLines(existing: seq<string>, mods: seq<ModValue>, ignoreList: seq<string>): seq<string> {
    WrittenUpTo(|CATEGORIES|, existing, mods, ignoreList)
  }

  /**
   * `writeModValuesToFile`. The source first splits the existing lines into
   * the three groups and then appends to each; the groups are independent,
   * so here each group is built and appended in one pass.
   */
  method WriteModValues(modValues: seq<ModValue>, file: Option<seq<string>>, ignoreList: seq<string>) returns (finalLines: seq<string>)
    ensures finalLines == WrittenLines(ExistingLines(file), modValues, ignoreList)
  {
    var existingLines := ReadExistingLines(file);
    finalLines := [];
    for c := 0 to |CATEGORIES|
      invariant finalLines == WrittenUpTo(c, existingLines, modValues, ignoreList)
    {
      var category := CATEGORIES[c];
      var group := AppendNewMods(ExistingGroup(existingLines, category), TabMods(modValues, category), ignoreList);
      finalLines := finalLines + group + [""];
    }
  }

  /** The inner loop: each mod's line is appended unless the group holds it (ignoring a leading `#`) or its value is ignored. */
  method AppendNewMods(existing: seq<string>, news: seq<ModValue>, ignoreList: seq<string>) returns (group: seq<string>)
    ensures group == AddNew(existing, news, ignoreList)
  {
    group := existing;
    for j := 0 to |news|
      invariant group == AddNew(existing, news[..j], ignoreList)
    {
      LongerPrefix(news, j);
      var modValue := news[j];
      var line := modValue.category + "=" + modValue.value;
      var lineWithoutPrefix := RemovePrefix(line, "#");
      if !HasModuloHash(group, lineWithoutPrefix) && modValue.value !in ignoreList {
        group := group + [line];
      }
    }
    WholePrefix(news);
  }

  /** Every mod of a tab that is not ignored ends up in that tab's group, written or already there (possibly commented out). */
  lemma GroupComplete(existing: seq<string>, mods: seq<ModValue>, ignoreList: seq<string>, k: int, m: ModValue)
    requires 0 <= k < |CATEGORIES| && m in mods && m.category == CATEGORIES[k] && m.value !in ignoreList
    ensures HasModuloHash(Group(existing, mods, ignoreList, CATEGORIES[k]), m.category + "=" + m.value)
  {
    var c := CATEGORIES[k];
    assert IsCategory(c);
    var tab := TabMods(mods, c);
    assert m in tab;
    var j :| 0 <= j < |tab| && tab[j] == m;
    AddNewComplete(ExistingGroup(existing, c), tab, ignoreList, j);
  }

  /** Every mod of any tab that is not ignored is in the written file, as a line of its own or commented out. */
  lemma WrittenComplete(existing: seq<string>, mods: seq<ModValue>, ignoreList: seq<string>, m: ModValue)
    requires m in mods && IsCategory(m.category) && m.value !in ignoreList
    ensures HasModuloHash(WrittenLines(existing, mods, ignoreList), m.category + "=" + m.value)
  {
    var line := m.category + "=" + m.value;
    var g0 := Group(existing, mods, ignoreList, CATEGORIES[0]);
    var g1 := Group(existing, mods, ignoreList, CATEGORIES[1]);
    var g2 := Group(existing, mods, ignoreList, CATEGORIES[2]);
    WrittenLinesGroups(existing, mods, ignoreList);
    var k := Rank(m.category);
    GroupComplete(existing, mods, ignoreList, k, m);
    var e: seq<string> := [""];
    if k == 0 {
      HasModuloHashExtended([], g0, e, line);
      HasModuloHashExtended([], g0 + e, g1, line);
      HasModuloHashExtended([], g0 + e + g1, e, line);
      HasModuloHashExtended([], g0 + e + g1 + e, g2, line);
    } else if k == 1 {
      HasModuloHashExtended(g0 + e, g1, [], line);
      HasModuloHashExtended([], g0 + e + g1, e, line);
      HasModuloHashExtended([], g0 + e + g1 + e, g2, line);
    } else {
      HasModuloHashExtended(g0 + e + g1 + e, g2, [], line);
    }
    HasModuloHashExtended([], g0 + e + g1 + e + g2, e, line);
  }

  /** Lines put before or after a group keep its lines. */
  lemma HasModuloHashExtended(a: seq<string>, g: seq<string>, b: seq<string>, l: string)
    requires HasModuloHash(g, l)
    ensures HasModuloHash(a + g, l) && HasModuloHash(g + b, l)
  {
    var i :| 0 <= i < |g| && RemovePrefix(g[i], "#") == l;
    assert (a + g)[|a| + i] == g[i];
    assert (g + b)[i] == g[i];
  }

  /** The file is the data group, the content group and the groundcover group, each closed by an empty line. */
  lemma WrittenLinesGroups(existing: seq<string>, mods: seq<ModValue>, ignoreList: seq<string>)
    ensures WrittenLines(existing, mods, ignoreList)
         == Group(existing, mods, ignoreList, CATEGORIES[0]) + [""]
          + Group(existing, mods, ignoreList, CATEGORIES[1]) + [""]
          + Group(existing, mods, ignoreList, CATEGORIES[2]) + [""]
  {
    WrittenStep(0, existing, mods, ignoreList);
    WrittenStep(1, existing, mods, ignoreList);
    WrittenStep(2, existing, mods, ignoreList);
    Concat3(WrittenUpTo(0, existing, mods, ignoreList), WrittenUpTo(1, existing, mods, ignoreList),
            WrittenUpTo(2, existing, mods, ignoreList), WrittenUpTo(3, existing, mods, ignoreList),
            Group(existing, mods, ignoreList, CATEGORIES[0]), Group(existing, mods, ignoreList, CATEGORIES[1]),
            Group(existing, mods, ignoreList, CATEGORIES[2]));
  }

  lemma Concat3(w0: seq<string>, w1: seq<string>, w2: seq<string>, w3: seq<string>, a: seq<string>, b: seq<string>, c: seq<string>)
    requires w0 == [] && w1 == w0 + a + [""] && w2 == w1 + b + [""] && w3 == w2 + c + [""]
    ensures w3 == a + [""] + b + [""] + c + [""]
  {
  }

  lemma WrittenStep(k: nat, existing: seq<string>, mods: seq<ModValue>, ignoreList: seq<string>)
    requires k < |CATEGORIES|
    ensures WrittenUpTo(k + 1, existing, mods, ignoreList)
         == WrittenUpTo(k, existing, mods, ignoreList) + Group(existing, mods, ignoreList, CATEGORIES[k]) + [""]
  {
  }

  /** A line whose first character is a tab name's is unchanged by dropping a leading `#`. */
  lemma CategoryLineHasNoHash(category: string, value: string)
    requires IsCategory(category)
    ensures RemovePrefix(category + "=" + value, "#") == category + "=" + value
  {
    CategoryShape(category);
    assert (category + "=" + value)[0] == category[0];
  }

  /** Every line appended is the line of one of the mods, and that mod's value is not ignored. */
  lemma {:induction false} AddNewSound(group: seq<string>, mods: seq<ModValue>, ignoreList: seq<string>, i: int)
    requires |group| <= i < |AddNew(group, mods, ignoreList)|
    ensures exists j | 0 <= j < |mods| :: AddNew(group, mods, ignoreList)[i] == mods[j].category + "=" + mods[j].value && mods[j].value !in ignoreList
  {
    var init := mods[..|mods| - 1];
    var g := AddNew(group, init, ignoreList);
    if i < |g| {
      AddNewSound(group, init, ignoreList, i);
      var j :| 0 <= j < |init| && g[i] == init[j].category + "=" + init[j].value && init[j].value !in ignoreList;
      assert mods[j] == init[j];
    } else {
      assert AddNew(group, mods, ignoreList)[i] == mods[|mods| - 1].category + "=" + mods[|mods| - 1].value;
    }
  }

  /** Every mod of the tab that is not ignored has its line in the group afterwards, written or already there. */
  lemma {:induction false} AddNewComplete(group: seq<string>, mods: seq<ModValue>, ignoreList: seq<string>, j: int)
    requires 0 <= j < |mods| && IsCategory(mods[j].category) && mods[j].value !in ignoreList
    ensures HasModuloHash(AddNew(group, mods, ignoreList), mods[j].category + "=" + mods[j].value)
  {
    var init := mods[..|mods| - 1];
    var g := AddNew(group, init, ignoreList);
    var r := AddNew(group, mods, ignoreList);
    var line := mods[j].category + "=" + mods[j].value;
    CategoryLineHasNoHash(mods[j].category, mods[j].value);
    if j < |init| {
      AddNewComplete(group, init, ignoreList, j);
      assert mods[j] == init[j];
      var k :| 0 <= k < |g| && RemovePrefix(g[k], "#") == line;
      assert r[k] == g[k];
    } else if !HasModuloHash(g, line) {
      assert r[|g|] == line;
    } else {
      var k :| 0 <= k < |g| && RemovePrefix(g[k], "#") == line;
      assert r[k] == g[k];
    }
  }

  /** No line is appended twice, nor when the group already holds it, commented out or not. */
  lemma {:induction false} AddNewFresh(group: seq<string>, mods: seq<ModValue>, ignoreList: seq<string>, i: int)
    requires forall j | 0 <= j < |mods| :: IsCategory(mods[j].category)
    requires |group| <= i < |AddNew(group, mods, ignoreList)|
    ensures !HasModuloHash(AddNew(group, mods, ignoreList)[..i], AddNew(group, mods, ignoreList)[i])
  {
    var init := mods[..|mods| - 1];
    var g := AddNew(group, init, ignoreList);
    var r := AddNew(group, mods, ignoreList);
    if i < |g| {
      AddNewFresh(group, init, ignoreList, i);
      assert r[..i] == g[..i];
    } else {
      var m := mods[|mods| - 1];
      CategoryLineHasNoHash(m.category, m.value);
      assert r[..i] == g;
    }
  }

  // ---------------------------------------------------------------------------
  // The checkbox (`onCheckedChange`)

  /** As written: every line that contains the mod's value becomes the mod's line, enabled or disabled. */
  function ToggleLines(existing: seq<string>, m: ModValue, checked: bool): (r: seq<string>)
    ensures |r| == |existing|
    ensures forall i | 0 <= i < |r| :: !Contains(existing[i], m.value) ==> r[i] == existing[i]
  {
    seq(|existing|, i requires 0 <= i < |existing| =>
      if Contains(existing[i], m.value) then ModLine(m.category, m.value, checked) else existing[i])
  }

  /** Corrected: only the lines that read as this mod (same tab, same value) are rewritten. */
  function ToggleLinesCorrected(existing: seq<string>, m: ModValue, checked: bool): (r: seq<string>)
    ensures |r| == |existing|
  {
    seq(|existing|, i requires 0 <= i < |existing| => ToggledLine(existing[i], m, checked))
  }

  function ToggledLine(line: string, m: ModValue, checked: bool): string {
    if IsLineOf(line, m) then ModLine(m.category, m.value, checked) else line
  }

  predicate IsLineOf(line: string, m: ModValue) {
    var p := ParseModLine(line);
    p.Some? && p.value.category == m.category && p.value.value == m.value
  }

  /** An entry, with its state set to `checked` when it is mod `m`'s. */
  function CheckedEntry(e: Entry, m: ModValue, checked: bool): Entry {
    if e.category == m.category && e.value == m.value then e.(isChecked := checked) else e
  }

  /** The entries with those of mod `m` set to `checked`. */
  function WithChecked(es: seq<Entry>, m: ModValue, checked: bool): (r: seq<Entry>)
    ensures |r| == |es|
  {
    seq(|es|, i requires 0 <= i < |es| => CheckedEntry(es[i], m, checked))
  }

  /** The checkbox handler over the file: the existing lines are read and rewritten. */
  method Toggle(file: Option<seq<string>>, m: ModValue, checked: bool) returns (written: seq<string>)
    ensures written == ToggleLines(ExistingLines(file), m, checked)
  {
    var existingLines := ReadExistingLines(file);
    written := ToggleLines(existingLines, m, checked);
  }

  /** Every line the as-written toggle rewrites reads back as the toggled mod with the new state. */
  lemma ToggledLinesReadBack(existing: seq<string>, m: ModValue, checked: bool, i: int)
    requires IsCategory(m.category) && Trimmed(m.value)
    requires 0 <= i < |existing| && Contains(existing[i], m.value)
    ensures ParseModLine(ToggleLines(existing, m, checked)[i]) == Some(Entry(m.category, m.value, checked))
  {
    ModLineRoundTrip(m.category, m.value, checked);
  }

  /**
   * With the corrected toggle, reading the file back gives the same mods in
   * the same order, only the toggled mod's state changed.
   */
  lemma {:induction false} ToggleCorrectedReadBack(lines: seq<string>, m: ModValue, checked: bool)
    ensures ParsedEntries(ToggleLinesCorrected(lines, m, checked)) == WithChecked(ParsedEntries(lines), m, checked)
  {
    if lines != [] {
      var init := lines[..|lines| - 1];
      var last := lines[|lines| - 1];
      assert lines == init + [last];
      ToggleCorrectedSnoc(init, last, m, checked);
      ToggleCorrectedReadBack(init, m, checked);
      ParsedEntriesSnoc(init, last);
      ParsedEntriesSnoc(ToggleLinesCorrected(init, m, checked), ToggledLine(last, m, checked));
      ToggledLineReadBack(last, m, checked);
      if ParseModLine(last).Some? {
        WithCheckedSnoc(ParsedEntries(init), ParseModLine(last).value, m, checked);
      }
    }
  }

  lemma ToggleCorrectedSnoc(init: seq<string>, last: string, m: ModValue, checked: bool)
    ensures ToggleLinesCorrected(init + [last], m, checked) == ToggleLinesCorrected(init, m, checked) + [ToggledLine(last, m, checked)]
  {
    var r := ToggleLinesCorrected(init + [last], m, checked);
    assert r[..|init|] == ToggleLinesCorrected(init, m, checked);
  }

  /** One line: a line of mod `m` reads back with the new state, any other line reads back as before. */
  lemma ToggledLineReadBack(line: string, m: ModValue, checked: bool)
    ensures ParseModLine(ToggledLine(line, m, checked))
         == (if ParseModLine(line).Some? then Some(CheckedEntry(ParseModLine(line).value, m, checked)) else None)
  {
    if IsLineOf(line, m) {
      ModLineRoundTrip(m.category, m.value, checked);
    }
  }

  lemma WithCheckedSnoc(es: seq<Entry>, e: Entry, m: ModValue, checked: bool)
    ensures WithChecked(es + [e], m, checked) == WithChecked(es, m, checked) + [CheckedEntry(e, m, checked)]
  {
    var all := WithChecked(es + [e], m, checked);
    assert all[..|es|] == WithChecked(es, m, checked);
  }

  // ---------------------------------------------------------------------------
  // The toggle rewrites other mods' lines

  /**
   * As written, toggling mod `m` also rewrites the line of any other mod of
   * the tab whose value contains `m`'s value (toggling `A.esp` rewrites
   * `content=AA.esp`): that line becomes `m`'s, and the other mod leaves the
   * file. The corrected toggle leaves the line alone.
   */
  lemma ToggleHitsOtherMod(m: ModValue, other: string, checked: bool)
    requires IsCategory(m.category) && Trimmed(m.value) && Trimmed(other)
    requires Contains(other, m.value) && other != m.value
    ensures ParseModLine(ModLine(m.category, other, true)) == Some(Entry(m.category, other, true))
    ensures ToggleLines([ModLine(m.category, other, true)], m, checked) == [ModLine(m.category, m.value, checked)]
    ensures ParsedEntries(ToggleLines([ModLine(m.category, other, true)], m, checked)) == [Entry(m.category, m.value, checked)]
    ensures ToggleLinesCorrected([ModLine(m.category, other, true)], m, checked) == [ModLine(m.category, other, true)]
  {
    ModLineRoundTrip(m.category, other, true);
    OtherLineHoldsValue(m.category, other, m.value);
    ToggleOneLine(ModLine(m.category, other, true), m, checked);
    ModLineRoundTrip(m.category, m.value, checked);
    ParsedEntriesSnoc([], ModLine(m.category, m.value, checked));
  }

  lemma OtherLineHoldsValue(category: string, other: string, value: string)
    requires Contains(other, value)
    ensures Contains(ModLine(category, other, true), value)
  {
    var i :| 0 <= i <= |other| && OccursAt(other, value, i);
    var prefix := category + "=";
    var line := ModLine(category, other, true);
    assert line == prefix + other;
    assert line[|prefix| + i..|prefix| + i + |value|] == other[i..i + |value|];
    assert OccursAt(line, value, |prefix| + i);
  }

  lemma ToggleOneLine(line: string, m: ModValue, checked: bool)
    ensures Contains(line, m.value) ==> ToggleLines([line], m, checked) == [ModLine(m.category, m.value, checked)]
    ensures ToggleLinesCorrected([line], m, checked) == [ToggledLine(line, m, checked)]
  {
  }
}
