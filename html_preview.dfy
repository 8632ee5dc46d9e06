/** The preview controller of the settings importer: it filters and orders
    the mapped settings, turns each into a pick-list item, maps the items the
    user picked back to settings and hands their destination halves to the
    importer. The host editor's dialogs, the file reader and the importer
    are outside the model: their results are parameters and the call into
    the importer is the value returned. */
module HtmlPreview {
  import opened Settings
  import opened LocaleOrder
  import opened SettingOrder

  // ---------------------------------------------------------------------
  // getSettings: filter, then sort in place
  // ---------------------------------------------------------------------

  /** The mapped settings that have a destination match, in their original
      order. `hasNoMatch` is the settings module's test, which is not part
      of this model. */
  function Filter(settings: seq<MappedSetting>, hasNoMatch: MappedSetting -> bool): (r: seq<MappedSetting>)
    ensures |r| <= |settings|
    ensures forall k :: 0 <= k < |r| ==> !hasNoMatch(r[k])
    decreases |settings|
  {
    if settings == [] then
      []
    else
      (if hasNoMatch(settings[0]) then [] else [settings[0]]) + Filter(settings[1..], hasNoMatch)
  }

  /** Filtering keeps exactly the settings that have a match, each as many
      times as it occurs in the input. */
  lemma {:induction false} FilterCounts(settings: seq<MappedSetting>, hasNoMatch: MappedSetting -> bool, x: MappedSetting)
    ensures multiset(Filter(settings, hasNoMatch))[x] == if hasNoMatch(x) then 0 else multiset(settings)[x]
    decreases |settings|
  {
    if settings != [] {
      FilterCounts(settings[1..], hasNoMatch, x);
      assert settings == [settings[0]] + settings[1..];
    }
  }

  /** Filtering works element by element: it keeps the relative order of
      what it keeps. */
  lemma {:induction false} FilterAppend(a: seq<MappedSetting>, b: seq<MappedSetting>, hasNoMatch: MappedSetting -> bool)
    ensures Filter(a + b, hasNoMatch) == Filter(a, hasNoMatch) + Filter(b, hasNoMatch)
    decreases |a|
  {
    if a != [] {
      var head := if hasNoMatch(a[0]) then [] else [a[0]];
      FilterAppend(a[1..], b, hasNoMatch);
      assert (a + b)[0] == a[0];
      assert (a + b)[1..] == a[1..] + b;
      assert Filter(a + b, hasNoMatch) == head + Filter(a[1..] + b, hasNoMatch);
      assert Filter(a, hasNoMatch) == head + Filter(a[1..], hasNoMatch);
      assert head + (Filter(a[1..], hasNoMatch) + Filter(b, hasNoMatch))
          == (head + Filter(a[1..], hasNoMatch)) + Filter(b, hasNoMatch);
    } else {
      assert a + b == b;
    }
  }

  /** One step of the insertion: moving `x` left past an element that sorts
      after it. */
  lemma InsertStep(prefix: seq<MappedSetting>, j: nat, x: MappedSetting)
    requires 0 < j <= |prefix|
    requires Compare(prefix[j - 1], x) > 0
    ensures Insert(prefix[..j], x) + prefix[j..] == Insert(prefix[..j - 1], x) + prefix[j - 1..]
  {
    var s, p := prefix[..j], prefix[j - 1];
    assert s[..|s| - 1] == prefix[..j - 1] && s[|s| - 1] == p;
    var t := Insert(prefix[..j - 1], x);
    assert Insert(s, x) == t + [p];
    assert prefix[j - 1..] == [p] + prefix[j..];
    assert (t + [p]) + prefix[j..] == t + ([p] + prefix[j..]);
  }

  /** The same step on the array's contents: swapping `x` with the element
      before it. */
  lemma SwapStep(prefix: seq<MappedSetting>, rest: seq<MappedSetting>, j: nat, x: MappedSetting)
    requires 0 < j <= |prefix|
    ensures (prefix[..j] + [x] + prefix[j..] + rest)[j - 1 := x][j := prefix[j - 1]]
         == prefix[..j - 1] + [x] + prefix[j - 1..] + rest
  {
  }

  /** Where the insertion stops: `x` goes right after `prefix[..j]`. */
  lemma InsertDone(prefix: seq<MappedSetting>, rest: seq<MappedSetting>, j: nat, x: MappedSetting)
    requires j <= |prefix|
    requires j == 0 || Compare(prefix[j - 1], x) <= 0
    requires Insert(prefix, x) == Insert(prefix[..j], x) + prefix[j..]
    ensures prefix[..j] + [x] + prefix[j..] + rest == Insert(prefix, x) + rest
  {
    assert Insert(prefix[..j], x) == prefix[..j] + [x];
  }

  /** Moves a[i] left past every element of a[..i] that sorts after it,
      one swap at a time. */
  method InsertAt(a: array<MappedSetting>, i: nat, ghost prefix: seq<MappedSetting>, ghost x: MappedSetting, ghost rest: seq<MappedSetting>)
    requires |prefix| == i < a.Length
    requires a[..] == prefix + [x] + rest
    modifies a
    ensures a[..] == Insert(prefix, x) + rest
  {
    assert a[i] == x;
    var j := i;
    assert prefix[..j] == prefix && prefix[j..] == [];
    assert a[..] == prefix[..j] + [x] + prefix[j..] + rest;
    while j > 0 && Compare(a[j - 1], a[j]) > 0
      invariant 0 <= j <= i
      invariant a[..] == prefix[..j] + [x] + prefix[j..] + rest
      invariant Insert(prefix, x) == Insert(prefix[..j], x) + prefix[j..]
    {
      ghost var before := a[..];
      assert before[j - 1] == prefix[j - 1] && before[j] == x;
      InsertStep(prefix, j, x);
      SwapStep(prefix, rest, j, x);
      a[j - 1], a[j] := a[j], a[j - 1];
      assert a[..] == before[j - 1 := x][j := prefix[j - 1]];
      j := j - 1;
    }
    assert j > 0 ==> a[..][j - 1] == prefix[j - 1] && a[..][j] == x;
    InsertDone(prefix, rest, j, x);
  }

  lemma SplitAt(sorted: seq<MappedSetting>, input: seq<MappedSetting>, i: nat)
    requires i < |input|
    ensures sorted + input[i..] == sorted + [input[i]] + input[i + 1..]
  {
    assert input[i..] == [input[i]] + input[i + 1..];
  }

  /** Sorts the array in place with the settings comparator. The host's sort
      is stable, so its result is the one the stable insertion sort gives. */
  method SortInPlace(a: array<MappedSetting>)
    modifies a
    ensures a[..] == StableSort(old(a[..]))
  {
    ghost var input := a[..];
    var i := 0;
    while i < a.Length
      invariant 0 <= i <= a.Length
      invariant a[..] == StableSort(input[..i]) + input[i..]
    {
      ghost var sorted := StableSort(input[..i]);
      SplitAt(sorted, input, i);
      InsertAt(a, i, sorted, input[i], input[i + 1..]);
      StableSortSnoc(input, i);
      i := i + 1;
    }
    assert input[..a.Length] == input;
  }

  /** The tail of getSettings: drop the settings with no match, then sort
      the rest, duplicates first and by source name within each group. */
  method GetSettings(mapped: seq<MappedSetting>, hasNoMatch: MappedSetting -> bool)
    returns (settings: seq<MappedSetting>)
    ensures forall x :: multiset(settings)[x] == if hasNoMatch(x) then 0 else multiset(mapped)[x]
    ensures DuplicatesFirst(settings) && NamesOrderedInGroups(settings)
    ensures settings == StableSort(Filter(mapped, hasNoMatch))
  {
    var filtered := Filter(mapped, hasNoMatch);
    var a := new MappedSetting[|filtered|](k requires 0 <= k < |filtered| => filtered[k]);
    assert a[..] == filtered;
    SortInPlace(a);
    settings := a[..];
    StableSortSorted(filtered);
    SortedIffGrouped(settings);
    StableSortPermutes(filtered);
    forall x ensures multiset(settings)[x] == if hasNoMatch(x) then 0 else multiset(mapped)[x] {
      FilterCounts(mapped, hasNoMatch, x);
    }
  }

  // ---------------------------------------------------------------------
  // setting2QuickPickItem
  // ---------------------------------------------------------------------

  /** A pick-list entry: the label (`title`), the detail line under it and whether it
      starts out checked. */
  datatype QuickPickItem = QuickPickItem(title: string, detail: string, picked: bool)

  const Arrow: string := " $(arrow-right) "
  const OverwritesPrefix: string := "$(issue-opened) Overwrites existing value: "

  /** The text the template interpolates for the existing value: the value
      when the existing setting is known, `undefined` otherwise. */
  function ExistingValueText(existing: Option<Setting>): (text: string)
    ensures existing.Some? ==> text == existing.value.value
    ensures existing.None? ==> text == "undefined"
  {
    match existing
    case Some(s) => s.value
    case None => "undefined"
  }

  /** The label names the source setting, then an arrow, then the
      destination setting. */
  function Label(setting: MappedSetting): (text: string)
    ensures |text| == |setting.sublime.name| + |Arrow| + |setting.vscode.name|
    ensures text[..|setting.sublime.name|] == setting.sublime.name
    ensures text[|setting.sublime.name|..|setting.sublime.name| + |Arrow|] == Arrow
    ensures text[|text| - |setting.vscode.name|..] == setting.vscode.name
  {
    setting.sublime.name + Arrow + setting.vscode.name
  }

  /** The pick-list entry for one mapped setting. */
  function ToQuickPickItem(setting: MappedSetting): (item: QuickPickItem)
    ensures item.title == Label(setting)
    ensures item.picked <==> !setting.isDuplicate
    ensures item.detail == [] <==> !setting.isDuplicate
    ensures setting.isDuplicate ==>
      item.detail == OverwritesPrefix + ExistingValueText(setting.duplicateVscodeSetting)
  {
    QuickPickItem(
      title := Label(setting),
      detail := if setting.isDuplicate then OverwritesPrefix + ExistingValueText(setting.duplicateVscodeSetting) else "",
      picked := !setting.isDuplicate)
  }

  function ToQuickPickItems(settings: seq<MappedSetting>): (items: seq<QuickPickItem>)
    ensures |items| == |settings|
    ensures forall k :: 0 <= k < |settings| ==> items[k] == ToQuickPickItem(settings[k])
  {
    seq(|settings|, k requires 0 <= k < |settings| => ToQuickPickItem(settings[k]))
  }

  // ---------------------------------------------------------------------
  // open: what is shown for the filtered and sorted settings
  // ---------------------------------------------------------------------

  /** What the command shows once it has the settings: a browse prompt that
      names the folder when nothing is left to import, the pick-list
      otherwise. */
  datatype Presentation =
    | BrowsePrompt(title: string, detail: string)
    | QuickPick(items: seq<QuickPickItem>)

  const NoNewSettings: string := "$(issue-opened) No new settings to import from"

  function Present(settings: seq<MappedSetting>, settingsPath: string): (r: Presentation)
    ensures r.BrowsePrompt? <==> settings == []
    ensures r.BrowsePrompt? ==> r.title == NoNewSettings && r.detail == settingsPath
    ensures r.QuickPick? ==> r.items == ToQuickPickItems(settings)
    ensures r.QuickPick? ==> |r.items| == |settings|
    ensures r.QuickPick? ==> forall k :: 0 <= k < |settings| ==>
      (r.items[k].picked <==> !settings[k].isDuplicate) && r.items[k].title == Label(settings[k])
  {
    if |settings| == 0 then
      BrowsePrompt(NoNewSettings, settingsPath)
    else
      QuickPick(ToQuickPickItems(settings))
  }

  // ---------------------------------------------------------------------
  // open: mapping picked items back to settings
  // ---------------------------------------------------------------------

  /** `settings[k]` is the first setting of the list labelled `wanted`. */
  ghost predicate FirstWithLabel(settings: seq<MappedSetting>, k: int, wanted: string) {
    && 0 <= k < |settings|
    && Label(settings[k]) == wanted
    && forall m :: 0 <= m < k ==> Label(settings[m]) != wanted
  }

  /** A first match in the tail of a list whose head does not match is the
      first match of the whole list. */
  lemma FirstWithLabelShift(settings: seq<MappedSetting>, wanted: string, found: MappedSetting)
    requires settings != [] && Label(settings[0]) != wanted
    requires exists k :: FirstWithLabel(settings[1..], k, wanted) && settings[1..][k] == found
    ensures exists k :: FirstWithLabel(settings, k, wanted) && settings[k] == found
  {
    var k :| FirstWithLabel(settings[1..], k, wanted) && settings[1..][k] == found;
    assert FirstWithLabel(settings, k + 1, wanted);
  }

  /** The first setting whose pick-list label is `wanted`, if any. */
  function FindByLabel(settings: seq<MappedSetting>, wanted: string): (r: Option<MappedSetting>)
    ensures r.None? <==> forall k :: 0 <= k < |settings| ==> Label(settings[k]) != wanted
    ensures r.Some? ==> exists k :: FirstWithLabel(settings, k, wanted) && settings[k] == r.value
    decreases |settings|
  {
    if settings == [] then
      None
    else if ToQuickPickItem(settings[0]).title == wanted then
      assert FirstWithLabel(settings, 0, wanted);
      Some(settings[0])
    else
      var r := FindByLabel(settings[1..], wanted);
      assert forall k :: 1 <= k < |settings| ==> settings[k] == settings[1..][k - 1];
      if r.Some? then
        FirstWithLabelShift(settings, wanted, r.value);
        r
      else
        r
  }

  /** Each picked item looked up by its label, in the order they were picked.
      `None` stands for the undefined that the lookup yields on a miss. */
  function SelectSettings(picked: seq<QuickPickItem>, settings: seq<MappedSetting>): (r: seq<Option<MappedSetting>>)
    ensures |r| == |picked|
    ensures forall k :: 0 <= k < |picked| ==> r[k] == FindByLabel(settings, picked[k].title)
  {
    seq(|picked|, k requires 0 <= k < |picked| => FindByLabel(settings, picked[k].title))
  }

  /** Picking from the list that was shown never misses: each selected
      setting carries the label of the item picked for it. */
  lemma SelectFromShownList(picked: seq<QuickPickItem>, settings: seq<MappedSetting>)
    requires forall k :: 0 <= k < |picked| ==> picked[k] in ToQuickPickItems(settings)
    ensures forall k :: 0 <= k < |picked| ==>
      SelectSettings(picked, settings)[k].Some? &&
      Label(SelectSettings(picked, settings)[k].value) == picked[k].title
  {
    var items := ToQuickPickItems(settings);
    forall k | 0 <= k < |picked|
      ensures FindByLabel(settings, picked[k].title).Some?
    {
      var m :| 0 <= m < |items| && items[m] == picked[k];
      assert Label(settings[m]) == picked[k].title;
    }
  }

  /** No two settings of the list have the same pick-list label. */
  ghost predicate DistinctLabels(settings: seq<MappedSetting>) {
    forall k, m :: 0 <= k < m < |settings| ==> Label(settings[k]) != Label(settings[m])
  }

  /** When no two settings share a label, looking up the label of a setting
      gives back that very setting. */
  lemma FindOwnLabel(settings: seq<MappedSetting>, i: nat)
    requires i < |settings|
    requires DistinctLabels(settings)
    ensures FindByLabel(settings, Label(settings[i])) == Some(settings[i])
  {
    var r := FindByLabel(settings, Label(settings[i]));
    var k :| FirstWithLabel(settings, k, Label(settings[i])) && settings[k] == r.value;
    assert k == i;
  }

  // ---------------------------------------------------------------------
  // importSelectedSettings
  // ---------------------------------------------------------------------

  /** What reaching the importer amounts to: nothing for an empty selection,
      the destination settings handed to it otherwise, or a failure when a
      selected entry is undefined and its `vscode` field cannot be read. */
  datatype ImportOutcome =
    | NothingImported
    | Imported(vscodeSettings: seq<Setting>)
    | Failed

  /** The destination halves of the selection, in order, or `None` when an
      entry is missing. */
  function VscodeHalves(selected: seq<Option<MappedSetting>>): (r: Option<seq<Setting>>)
    ensures r.None? <==> None in selected
    ensures r.Some? ==> |r.value| == |selected|
    ensures r.Some? ==>
      forall k :: 0 <= k < |selected| ==> r.value[k] == selected[k].value.vscode
    decreases |selected|
  {
    if selected == [] then
      Some([])
    else if selected[0].None? then
      None
    else
      match VscodeHalves(selected[1..])
      case None =>
        assert selected == [selected[0]] + selected[1..];
        None
      case Some(rest) =>
        assert forall k :: 1 <= k < |selected| ==> selected[k] == selected[1..][k - 1];
        Some([selected[0].value.vscode] + rest)
  }

  function ImportSelectedSettings(selected: seq<Option<MappedSetting>>): (r: ImportOutcome)
    ensures r.NothingImported? <==> selected == []
    ensures r.Failed? <==> None in selected
    ensures r.Imported? ==> |r.vscodeSettings| == |selected|
    ensures r.Imported? ==>
      forall k :: 0 <= k < |selected| ==> r.vscodeSettings[k] == selected[k].value.vscode
  {
    if |selected| == 0 then
      NothingImported
    else
      match VscodeHalves(selected)
      case None => Failed
      case Some(halves) => Imported(halves)
  }

  /** The end of the command: `None` is a dismissed pick-list. */
  function OnPicked(picked: Option<seq<QuickPickItem>>, settings: seq<MappedSetting>): (r: ImportOutcome)
    ensures picked.None? ==> r.NothingImported?
    ensures picked.Some? ==> r == ImportSelectedSettings(SelectSettings(picked.value, settings))
  {
    match picked
    case None => NothingImported
    case Some(items) => ImportSelectedSettings(SelectSettings(items, settings))
  }

  /** Confirming a selection from the list that was shown never fails: it
      imports nothing when the selection is empty, and otherwise, in the
      order picked, the destination half of a setting carrying each picked
      label. */
  lemma PickFromShownListImports(picked: seq<QuickPickItem>, settings: seq<MappedSetting>)
    requires forall k :: 0 <= k < |picked| ==> picked[k] in ToQuickPickItems(settings)
    ensures picked == [] ==> OnPicked(Some(picked), settings).NothingImported?
    ensures picked != [] ==> OnPicked(Some(picked), settings).Imported?
    ensures picked != [] ==> |OnPicked(Some(picked), settings).vscodeSettings| == |picked|
    ensures picked != [] ==>
      forall k :: 0 <= k < |picked| ==>
        exists m :: 0 <= m < |settings| && Label(settings[m]) == picked[k].title &&
          OnPicked(Some(picked), settings).vscodeSettings[k] == settings[m].vscode
  {
    var selected := SelectSettings(picked, settings);
    SelectFromShownList(picked, settings);
    assert None !in selected by {
      forall o | o in selected ensures o.Some? {
        var k :| 0 <= k < |selected| && selected[k] == o;
      }
    }
    if picked != [] {
      var out := OnPicked(Some(picked), settings).vscodeSettings;
      forall k | 0 <= k < |picked|
        ensures exists m :: 0 <= m < |settings| && Label(settings[m]) == picked[k].title && out[k] == settings[m].vscode
      {
        var m :| FirstWithLabel(settings, m, picked[k].title) && settings[m] == selected[k].value;
      }
    }
  }

  /** With distinct labels, confirming the items of some settings of the
      list imports exactly those settings' destination halves, in order. */
  lemma PickSettingsImportsTheirVscodeHalves(chosen: seq<MappedSetting>, settings: seq<MappedSetting>)
    requires chosen != []
    requires forall k :: 0 <= k < |chosen| ==> chosen[k] in settings
    requires DistinctLabels(settings)
    ensures OnPicked(Some(ToQuickPickItems(chosen)), settings).Imported?
    ensures |OnPicked(Some(ToQuickPickItems(chosen)), settings).vscodeSettings| == |chosen|
    ensures forall k :: 0 <= k < |chosen| ==>
      OnPicked(Some(ToQuickPickItems(chosen)), settings).vscodeSettings[k] == chosen[k].vscode
  {
    var picked := ToQuickPickItems(chosen);
    var selected := SelectSettings(picked, settings);
    forall k | 0 <= k < |chosen| ensures selected[k] == Some(chosen[k]) {
      var i :| 0 <= i < |settings| && settings[i] == chosen[k];
      FindOwnLabel(settings, i);
    }
    assert None !in selected by {
      forall o | o in selected ensures o.Some? {
        var k :| 0 <= k < |selected| && selected[k] == o;
      }
    }
  }

  // ---------------------------------------------------------------------
  // A worked example
  // ---------------------------------------------------------------------

  /** Source settings `font_size: 12` and `word_wrap: true`, where the
      destination already sets the font size to 10: the font size is flagged,
      shown first, left unchecked, and its detail names the value 10. */
  lemma FontSizeScenario()
    ensures
      var fontSize := MappedSetting(Setting("font_size", "12"), Setting("editor.fontSize", "12"),
                                    true, Some(Setting("editor.fontSize", "10")));
      var wordWrap := MappedSetting(Setting("word_wrap", "true"), Setting("editor.wordWrap", "on"),
                                    false, None);
      && StableSort([wordWrap, fontSize]) == [fontSize, wordWrap]
      && Present(StableSort([wordWrap, fontSize]), "/sublime/User") ==
         QuickPick([QuickPickItem(Label(fontSize), OverwritesPrefix + "10", false),
                    QuickPickItem(Label(wordWrap), "", true)])
  {
    var fontSize := MappedSetting(Setting("font_size", "12"), Setting("editor.fontSize", "12"),
                                  true, Some(Setting("editor.fontSize", "10")));
    var wordWrap := MappedSetting(Setting("word_wrap", "true"), Setting("editor.wordWrap", "on"),
                                  false, None);
    assert [wordWrap, fontSize][..1] == [wordWrap];
    assert StableSort([wordWrap]) == [wordWrap];
    assert Insert([wordWrap], fontSize) == [fontSize, wordWrap];
    var items := ToQuickPickItems([fontSize, wordWrap]);
    assert items == [items[0], items[1]];
  }
}
