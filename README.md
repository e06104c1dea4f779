# launcher-rewind controls and mod assistant, modelled in Dafny

This project models the parts of the OpenMW Android launcher that store,
show and edit the on-screen controls, and the parts of its mod assistant
that read and rewrite the mod list of `openmw.cfg`.

- **Layout store** (`StateManager.kt`). A control is a `ButtonState`: id,
  size, offsets, lock, key code, colour name, alpha and an optional icon
  uri.
  - `saveButtonState` writes one `ButtonID_…(…)` line per control to
    `UI.cfg`, user buttons first and the thumbsticks (ids 99 and 98) last.
  - `loadButtonState` reads the file back through a regular expression,
    line by line, and puts each control into the registry `UIStateManager`,
    an insertion-ordered map.
  - The key picker offers every key no button uses, except W, A, S and D.
  - Adding a button gives it the id one past the largest user id, which
    can be the right thumbstick's id 98.
  - The colour names map to colours and back.
- **Buttons** (`DynamicButtons.kt`). Composing a button seeds its registry
  entry; "+" and "-" resize it; dragging moves it; `saveState` writes it
  back and rewrites the whole layout file. Touching it sends key events,
  and Shift and Alt latch. The icon button sets or removes the icon, and
  `keyCodeToChar` gives the button its label.
- **Thumbsticks**. The left one drives W, A, S and D through a dead zone;
  the right one moves its knob with the finger and centres it on release.
- **Screens** (`EngineActivity.kt`, `ConfigureControls.kt`). Both clear and
  reload the layout, compose the controls and delete buttons.
- **Mod assistant** (`ModAssistant.kt`):
  - `readModValues`, `writeModValuesToFile` and `searchMods`;
  - the drag reorder, with its renumbering and its rewrite of the file;
  - the move dialog;
  - the enable/disable checkbox.
- **UI tools** (`UITools.kt`). `updateResolutionInConfig`, and the
  integer branch of `humanReadableByteCountBin`.

Pure computations are functions with lemmas. What the source keeps in
mutable state is a class with methods:
- the registry `UIStateManager`;
- the layout file `ConfigFile`;
- a control's editable state `ControlWidget`;
- the key latch of a button `KeyButton`;
- the touch state of the two sticks;
- the native key sink `NativeKeys`, as an event log;
- `EngineActivity`'s resolution fields.

Each method's `ensures` ties the new state to the specification functions,
and the lemmas prove what the source promises about those functions:
- the layout file reads back what was saved, and is stable after one save;
- the key picker offers exactly the free keys;
- the stick never holds opposite keys;
- the mod list survives a write and a reload;
- the resolution update is idempotent.

Numbers the source keeps as `Float` are exact decimals (`Decimals.Decimal`),
printed and parsed the way `Float.toString` and `toFloat` do for plain
notation. Files are their lines, and a missing file is `None`. The path of
the user directory (`Constants.USER_UI`) is a parameter `userUi`.

The operations follow the code as written, also where it misbehaves:
- The decoder can throw: `toInt` above `Int.MAX_VALUE`, `toFloat` of a
  token such as `1.2.3`. The load then stops with an exception
  (`crashed`), and so do the screens and handlers that run it.
- The id of a new button can collide with the right thumbstick's id.
- The move dialog writes every mod enabled.

These cases, and two more, are listed under Findings, each with a
corrected definition beside the as-written one: `DecodeLines` and
`LoadFile` skip a line whose conversion is refused, `AddButtonCorrected`
steps over the thumbstick ids. The lemmas about the layout file are stated
for the corrected reading, which the load as written equals whenever no
line throws (`LoadFileAsWrittenAgrees`), and a saved file never throws
(`LoadSavedFileAsWritten`).

## Model

| member | source | states |
|---|---|---|
| ButtonModel.ToColor | app/src/main/java/org/openmw/ui/controls/StateManager.kt:418-429 | the nine palette names give their own colour; every other name, and "Gray", gives gray |
| ButtonModel.ToColorString | app/src/main/java/org/openmw/ui/controls/StateManager.kt:432-443 | every colour gets a palette name; a colour outside the palette gets "Gray" |
| ButtonModel.ColorNameRoundTrip | app/src/main/java/org/openmw/ui/controls/StateManager.kt:418-443 | a stored colour name survives `toColor` then `toColorString` exactly when it is a palette name, and becomes "Gray" otherwise |
| ButtonModel.ColorRoundTrip | app/src/main/java/org/openmw/ui/controls/StateManager.kt:418-443 | every palette colour comes back from its own name |
| ButtonModel.ColorStringInjective | app/src/main/java/org/openmw/ui/controls/StateManager.kt:432-443 | distinct palette colours have distinct names |
| Decimals.ParseUnsigned | app/src/main/java/org/openmw/ui/controls/StateManager.kt:157-163 | `toFloat` of a `[\d.]+` token gives a non-negative number in shortest form, or fails |
| Decimals.ParseToString | app/src/main/java/org/openmw/ui/controls/StateManager.kt:125 | a non-negative number printed as the save does reads back as itself |
| Decimals.NegativeNotNumeral | app/src/main/java/org/openmw/ui/controls/StateManager.kt:145 | a negative number prints with a minus sign, which the pattern's number class refuses |
| Decimals.Add | app/src/main/java/org/openmw/ui/controls/DynamicButtons.kt:259-260 | the `+=` of a drag step, without rounding, in shortest form (`AddValue`: its value is the sum) |
| Decimals.Less | app/src/main/java/org/openmw/ui/controls/DynamicButtons.kt:527 | the comparison of the size with 50 holds exactly when the values compare |
| Text.IntToString | app/src/main/java/org/openmw/ui/controls/StateManager.kt:125 | `Int.toString`: digits only for a non-negative number, a leading minus otherwise |
| Text.ParseIntOfIntToString | app/src/main/java/org/openmw/ui/controls/StateManager.kt:154 | every number's text reads back as the number |
| Text.Trim | app/src/main/java/org/openmw/utils/ModAssistant.kt:93 | `trim()`: the result has no whitespace at either end, and text without any is left as it is; whitespace is that of `Char.isWhitespace` on the JVM, so U+0085 is kept |
| Text.TrimIsSlice | app/src/main/java/org/openmw/utils/ModAssistant.kt:93 | what `trim()` keeps is the part of the text that starts right after its leading whitespace and has only whitespace after it; with the row above this determines the result |
| Text.TrimKeepsPrefix | app/src/main/java/org/openmw/utils/ModAssistant.kt:93 | trimming text that starts with a non-blank character keeps a prefix that reaches past every non-blank position |
| Text.SubstringAfterLast | app/src/main/java/org/openmw/ui/controls/StateManager.kt:122 | `substringAfterLast(".")`: the whole text when it holds no point; otherwise the point-free suffix right after a point, that is after the last one |
| Text.RemovePrefix | app/src/main/java/org/openmw/utils/ModAssistant.kt:96 | `removePrefix`: drops the prefix when the text starts with it, and only then |
| Seqs.Filter | app/src/main/java/org/openmw/ui/controls/StateManager.kt:114-116 | `filter`: the elements that satisfy the test, in order |
| Seqs.FilterPartition | app/src/main/java/org/openmw/ui/controls/StateManager.kt:114-116 | the filters of two complementary tests split the list: together they keep every element exactly once |
| Seqs.Find | app/src/main/java/org/openmw/EngineActivity.kt:145 | `find`: the first element that satisfies the test, or none |
| Seqs.FindIsFirstOfFilter | app/src/main/java/org/openmw/EngineActivity.kt:145 | `find` gives the first element of the filter |
| StateManager.PutKey | app/src/main/java/org/openmw/ui/controls/StateManager.kt:177 | putting into the insertion-ordered map: a new id goes last, a present id keeps its place |
| StateManager.ValuesOf | app/src/main/java/org/openmw/ui/controls/DynamicButtons.kt:200 | `buttonStates.values`: the controls in insertion order, one per id |
| StateManager.Replace | app/src/main/java/org/openmw/ui/controls/StateManager.kt:95 | `buttonStates[id]?.value = v`: replaces a present id, leaves the key set unchanged |
| StateManager.WithoutId | app/src/main/java/org/openmw/EngineActivity.kt:231 | `removeIf { it.id == id }`: exactly the controls of other ids |
| StateManager.RemoveKey | app/src/main/java/org/openmw/EngineActivity.kt:230-233 | the insertion order without an id, which the corrected delete needs |
| StateManager.RemoveKeyDistinct | app/src/main/java/org/openmw/EngineActivity.kt:230-233 | removing an id keeps the order free of duplicates |
| StateManager.ConfigFile.constructor | app/src/main/java/org/openmw/ui/controls/StateManager.kt:109-112 | the layout file holds the given lines, or is missing |
| StateManager.UIStateManager.constructor | app/src/main/java/org/openmw/ui/controls/StateManager.kt:65-84 | the registry and the buttons on screen start empty, and all flags start off |
| StateManager.UIStateManager.UpdateButtonState | app/src/main/java/org/openmw/ui/controls/StateManager.kt:90-99 | replaces the control of a present id; an absent id changes nothing |
| StateManager.UIStateManager.SaveImageUri | app/src/main/java/org/openmw/ui/controls/StateManager.kt:86-88 | sets the uri of a present control; for an absent id the safe call skips the assignment |
| StateManager.UIStateManager.GetOrPut | app/src/main/java/org/openmw/ui/controls/DynamicButtons.kt:167-171 | `getOrPut`: the stored control, or the seed, put last |
| StateManager.UIStateManager.Put | app/src/main/java/org/openmw/ui/controls/StateManager.kt:177 | the control is filed under its id, and the order follows the map's insertion order |
| StateManager.UIStateManager.AddCreated | app/src/main/java/org/openmw/ui/overlay/Overlay.kt:209-215 | `onNewButtonAdded`: the button joins the buttons on screen and nothing else changes |
| StateManager.UIStateManager.SetEditMode | app/src/main/java/org/openmw/ui/controls/StateManager.kt:75 | sets the edit flag only |
| StateManager.UIStateManager.SetConfigureControls | app/src/main/java/org/openmw/ui/controls/StateManager.kt:84 | sets the controls-screen flag only |
| StateManager.UIStateManager.ClearCreated | app/src/main/java/org/openmw/EngineActivity.kt:142 | `createdButtons.clear()` |
| StateManager.UIStateManager.AddAllCreated | app/src/main/java/org/openmw/EngineActivity.kt:146 | `createdButtons.addAll` appends in order |
| StateManager.UIStateManager.RemoveCreated | app/src/main/java/org/openmw/EngineActivity.kt:231 | `removeIf` on the buttons on screen; the registry is unchanged |
| StateManager.UIStateManager.RemoveState | app/src/main/java/org/openmw/EngineActivity.kt:230-233 | the id leaves the map and the order, as the corrected delete needs |
| StateManager.UIStateManager.ClearStates | app/src/main/java/org/openmw/EngineActivity.kt:143 | `buttonStates.clear()` |
| StateManager.SaveButtonState | app/src/main/java/org/openmw/ui/controls/StateManager.kt:108-128 | the file becomes the save of the controls: user buttons first, thumbsticks last, one line each |
| StateManager.WriteLines | app/src/main/java/org/openmw/ui/controls/StateManager.kt:118-127 | the lines written are the encodings of the controls, one per control, in the order given |
| StateManager.LoadButtonState | app/src/main/java/org/openmw/ui/controls/StateManager.kt:130-181 | the load as written: puts each control into the registry as it is read; stops with `crashed` at the first line whose conversion throws, with the earlier controls already put; without a throw returns what the corrected reading returns |
| StateManager.LoadLine | app/src/main/java/org/openmw/ui/controls/StateManager.kt:143-179 | a line that decodes adds its control and puts it into the registry; a line the pattern refuses changes nothing; a line whose conversion throws stops the load without a put |
| StateManager.PutAllSnoc | app/src/main/java/org/openmw/ui/controls/StateManager.kt:143-179 | loading one more line is one more put |
| StateManager.PutWellOrdered | app/src/main/java/org/openmw/ui/controls/StateManager.kt:177 | a put keeps the insertion order exactly the map's keys, once each |
| StateManager.PutAllWellOrdered | app/src/main/java/org/openmw/ui/controls/StateManager.kt:143-179 | a whole load keeps the insertion order well formed |
| StateManager.LaterLinesWin | app/src/main/java/org/openmw/ui/controls/StateManager.kt:177 | after a load each id holds the control of its last line |
| StateManager.PutAllUntouched | app/src/main/java/org/openmw/ui/controls/StateManager.kt:177 | an id that no line carries keeps its entry, or stays absent |
| StateManager.PutAllKeysMatchIds | app/src/main/java/org/openmw/ui/controls/StateManager.kt:177 | a load files every control under its own id |
| StateManager.PutAllKeys | app/src/main/java/org/openmw/ui/controls/StateManager.kt:143-179 | after a load the registry holds exactly the old ids and the ids read |
| LayoutCodec.RunSteps | app/src/main/java/org/openmw/ui/controls/StateManager.kt:145 | the pattern's groups, matched one after another; what they capture has the right length |
| LayoutCodec.RunStepsSound | app/src/main/java/org/openmw/ui/controls/StateManager.kt:145 | each capture fits its group, and the captures put back together give the consumed text |
| LayoutCodec.UriGroup | app/src/main/java/org/openmw/ui/controls/StateManager.kt:145 | the greedy `(.+)\)`: at least one character before the last `)` that precedes a line break |
| LayoutCodec.MatchAtSound | app/src/main/java/org/openmw/ui/controls/StateManager.kt:145 | a match's groups are well formed and the line starts with their text |
| LayoutCodec.MatchOfMatchText | app/src/main/java/org/openmw/ui/controls/StateManager.kt:145 | the pattern matches the text of any well-formed groups, capturing exactly those groups |
| LayoutCodec.Find | app/src/main/java/org/openmw/ui/controls/StateManager.kt:146 | `Regex.find`: none when no position matches, otherwise the match at the leftmost position that matches |
| LayoutCodec.FindAtStart | app/src/main/java/org/openmw/ui/controls/StateManager.kt:146 | a line that matches at its start is matched there |
| LayoutCodec.FindOnlyAtStart | app/src/main/java/org/openmw/ui/controls/StateManager.kt:146 | when `ButtonID_` occurs only at the start of a line, `find` looks nowhere else |
| LayoutCodec.EncodeLineFormat | app/src/main/java/org/openmw/ui/controls/StateManager.kt:119-125 | the saved line is `ButtonID_<id>(<size>;<x>;<y>;<locked>;<key>;Color.<name>;<alpha>;<uri>)` |
| LayoutCodec.ToInt | app/src/main/java/org/openmw/ui/controls/StateManager.kt:154 | `toInt` of a digit group gives a value in 0..Int.MAX_VALUE, or throws |
| LayoutCodec.FindEncodeLine | app/src/main/java/org/openmw/ui/controls/StateManager.kt:119-146 | the pattern finds the groups a saved line was written with |
| LayoutCodec.ConvertGroupsOf | app/src/main/java/org/openmw/ui/controls/StateManager.kt:153-167 | those groups convert back to the control, with its uri rebuilt |
| LayoutCodec.UriOfUriField | app/src/main/java/org/openmw/ui/controls/StateManager.kt:119-123 | the saved uri field decodes to `file://<USER_UI>/<id>.<ext>`, or to no uri for `null` |
| LayoutCodec.UriForExtension | app/src/main/java/org/openmw/ui/controls/StateManager.kt:156 | a rebuilt uri keeps the extension it was rebuilt from |
| LayoutCodec.DecodeEncode | app/src/main/java/org/openmw/ui/controls/StateManager.kt:119-167 | decoding a saved line gives the control back, its uri rebuilt from the extension |
| LayoutCodec.DecodeEncodePersistable | app/src/main/java/org/openmw/ui/controls/StateManager.kt:119-167 | a persistable control comes back from its own line unchanged |
| LayoutCodec.DecodedIsPersistable | app/src/main/java/org/openmw/ui/controls/StateManager.kt:145-167 | whatever a line decodes to is persistable |
| LayoutCodec.ConvertedIsPersistable | app/src/main/java/org/openmw/ui/controls/StateManager.kt:153-167 | every conversion of well-formed groups is persistable |
| LayoutCodec.DecodeLineAgrees | app/src/main/java/org/openmw/ui/controls/StateManager.kt:143-179 | the corrected decoder skips what the as-written one skips or throws on, and loads exactly what it loads |
| LayoutCodec.NegativeFieldDropped | app/src/main/java/org/openmw/ui/controls/StateManager.kt:125-150 | a control with a negative size, offset or alpha is saved but its line never loads again |
| LayoutCodec.AsWrittenCrashes | app/src/main/java/org/openmw/ui/controls/StateManager.kt:153-166 | groups the pattern accepts but `toInt`/`toFloat` refuse make the load throw |
| LayoutCodec.TwoPointsRefused | app/src/main/java/org/openmw/ui/controls/StateManager.kt:145-159 | the size `1.2.3` passes the pattern and fails `toFloat` |
| LayoutCodec.OverflowRefused | app/src/main/java/org/openmw/ui/controls/StateManager.kt:145-154 | the id 3000000000 passes the pattern and fails `toInt` |
| LayoutFile.EncodeLines | app/src/main/java/org/openmw/ui/controls/StateManager.kt:124-126 | one saved line per control, in the given order |
| LayoutFile.DecodeLines | app/src/main/java/org/openmw/ui/controls/StateManager.kt:143-180 | the corrected reading, with a refused conversion skipped: the controls of the lines that decode, at most one per line |
| LayoutFile.FirstThrow | app/src/main/java/org/openmw/ui/controls/StateManager.kt:153-166 | the position of the first line whose conversion throws: no line before it throws, and the line there does |
| LayoutFile.CollectUntilCrash | app/src/main/java/org/openmw/ui/controls/StateManager.kt:143-180 | `mapNotNull` with a throwing lambda: it returns the loaded controls before the first throw, and throws exactly when some line does |
| LayoutFile.ReadUntilFirstThrow | app/src/main/java/org/openmw/ui/controls/StateManager.kt:143-180 | the load as written reads the corrected reading of the lines before the first throwing line, and throws exactly when there is one |
| LayoutFile.DecodeLinesAsWrittenAgrees | app/src/main/java/org/openmw/ui/controls/StateManager.kt:143-180 | the load as written throws exactly when some line throws; otherwise it reads what the corrected reading reads |
| LayoutFile.LoadFileAsWrittenAgrees | app/src/main/java/org/openmw/ui/controls/StateManager.kt:130-181 | the same for a whole file, a missing or empty file never throwing |
| LayoutFile.LoadSavedFileAsWritten | app/src/main/java/org/openmw/ui/controls/StateManager.kt:108-181 | no line of a saved file of persistable controls throws: the load as written reads the saved order back |
| LayoutFile.SaveOrderPermutation | app/src/main/java/org/openmw/ui/controls/StateManager.kt:114-116 | the save reorders the controls without losing or duplicating any |
| LayoutFile.SaveOrderUsersFirst | app/src/main/java/org/openmw/ui/controls/StateManager.kt:114-116 | in the saved order no thumbstick precedes a user button |
| LayoutFile.SaveOrderKeepsGroups | app/src/main/java/org/openmw/ui/controls/StateManager.kt:114-116 | user buttons and thumbsticks each keep their relative order |
| LayoutFile.SaveOrderIdempotent | app/src/main/java/org/openmw/ui/controls/StateManager.kt:114-116 | ordering an ordered list again changes nothing |
| LayoutFile.SavedFileLength | app/src/main/java/org/openmw/ui/controls/StateManager.kt:124-126 | the file has one line per control |
| LayoutFile.DecodeEncodeLines | app/src/main/java/org/openmw/ui/controls/StateManager.kt:119-180 | persistable controls come back from their lines, in order |
| LayoutFile.LoadSavedFile | app/src/main/java/org/openmw/ui/controls/StateManager.kt:108-181 | loading a saved file gives the controls in the saved order |
| LayoutFile.DecodedLinesPersistable | app/src/main/java/org/openmw/ui/controls/StateManager.kt:143-180 | every control a file decodes to is persistable |
| LayoutFile.LoadedArePersistable | app/src/main/java/org/openmw/ui/controls/StateManager.kt:130-181 | every control a load returns is persistable |
| LayoutFile.SaveLoadFixpoint | app/src/main/java/org/openmw/ui/controls/StateManager.kt:108-181 | save after load reads back as the saved order, and a second save writes the same file |
| ButtonManager.WrapInt32 | app/src/main/java/org/openmw/ui/controls/StateManager.kt:391 | Kotlin `Int` arithmetic: the result lies in 32 bits and equals the input when that fits |
| ButtonManager.MaxId | app/src/main/java/org/openmw/ui/controls/StateManager.kt:390 | `maxOfOrNull { it.id } ?: 0`: an upper bound attained by some button, 0 for none |
| ButtonManager.NextButtonId | app/src/main/java/org/openmw/ui/controls/StateManager.kt:390-391 | the corrected new id is never a thumbstick id, and exceeds every existing id when those are in range |
| ButtonManager.NewButtonState | app/src/main/java/org/openmw/ui/controls/StateManager.kt:392-402 | the new button: the given id and key, no icon, unlocked, black |
| ButtonManager.NewButtonDefaults | app/src/main/java/org/openmw/ui/controls/StateManager.kt:392-402 | size 60, offsets 100, alpha 0.25 |
| ButtonManager.KeyCodesOf | app/src/main/java/org/openmw/ui/controls/StateManager.kt:410 | `createdButtons.map { it.keyCode }` |
| ButtonManager.AddButton | app/src/main/java/org/openmw/ui/controls/StateManager.kt:386-408 | as written: reloads the file; a throwing load stops the handler and changes neither the file nor the screen; otherwise gives the new button `maxExistingId + 1`, writes the user buttons, the new button and the thumbsticks, adds it on screen and turns edit mode on |
| ButtonManager.AddButtonCorrected | app/src/main/java/org/openmw/ui/controls/StateManager.kt:386-408 | the same with the corrected id, which is never a thumbstick id |
| ButtonManager.SaveNewButton | app/src/main/java/org/openmw/ui/controls/StateManager.kt:392-407 | writes the user buttons, the new button and the thumbsticks, appends the new button on screen and turns edit mode on, leaving the registry alone |
| ButtonManager.PickedKeyIsFree | app/src/main/java/org/openmw/ui/controls/StateManager.kt:184-212 | a key picked from the menu is used by no button on screen and is no movement key |
| ButtonManager.LoadedIdsInRange | app/src/main/java/org/openmw/ui/controls/StateManager.kt:145-154 | ids and key codes read from the file lie in 0..Int.MAX_VALUE |
| ButtonManager.AddedLayoutContents | app/src/main/java/org/openmw/ui/controls/StateManager.kt:403-404 | the written list holds every loaded entry and the new one |
| ButtonManager.AddedLayoutUsers | app/src/main/java/org/openmw/ui/controls/StateManager.kt:388-404 | its user buttons are the loaded ones followed by the new one |
| ButtonManager.NewButtonPersistable | app/src/main/java/org/openmw/ui/controls/StateManager.kt:392-402 | a new button with id and key in range is persistable |
| ButtonManager.AddedLayoutPersistable | app/src/main/java/org/openmw/ui/controls/StateManager.kt:386-405 | everything the add writes is persistable when the new id is |
| ButtonManager.AddedButtonSurvivesReload | app/src/main/java/org/openmw/ui/controls/StateManager.kt:386-408 | with the corrected id the new button loads back as a user button, after the earlier ones |
| ButtonManager.AsWrittenButtonLost | app/src/main/java/org/openmw/ui/controls/StateManager.kt:386-404 | as written, whenever the largest user id read is 97, the new button gets id 98, and the next load of the saved file lists it among the thumbsticks, not the buttons |
| ButtonManager.SavedEntryReloads | app/src/main/java/org/openmw/ui/controls/StateManager.kt:108-181 | every persistable entry that is saved is there again on the next load |
| KeyPicker.AllUsedKeys | app/src/main/java/org/openmw/ui/controls/StateManager.kt:186-192 | the used keys and the movement keys, nothing else |
| KeyPicker.KeyRanges | app/src/main/java/org/openmw/ui/controls/StateManager.kt:194-200 | the letters run from A to Z, the function keys from F1 to F12 |
| KeyPicker.LetterCodes | app/src/main/java/org/openmw/ui/controls/StateManager.kt:194-197 | each letter's key code is `KEYCODE_A` plus its position |
| KeyPicker.OffersNoUsedKey | app/src/main/java/org/openmw/ui/controls/StateManager.kt:184-212 | the menu never offers a used key or a movement key |
| KeyPicker.LetterKeysFree | app/src/main/java/org/openmw/ui/controls/StateManager.kt:194-197 | every offered letter's key is free |
| KeyPicker.LettersFree | app/src/main/java/org/openmw/ui/controls/StateManager.kt:194-197 | the offered letter codes are free letter codes |
| KeyPicker.LettersComplete | app/src/main/java/org/openmw/ui/controls/StateManager.kt:194-197 | every free letter key is offered |
| KeyPicker.FKeysExact | app/src/main/java/org/openmw/ui/controls/StateManager.kt:198-200 | the function keys offered are exactly the free ones |
| KeyPicker.AdditionalExact | app/src/main/java/org/openmw/ui/controls/StateManager.kt:201-212 | the named keys offered are exactly the free ones |
| KeyPicker.OffersEveryFreeKey | app/src/main/java/org/openmw/ui/controls/StateManager.kt:184-212 | a key is offered if and only if it is pickable, unused and no movement key |
| KeyPicker.OfferedInOrder | app/src/main/java/org/openmw/ui/controls/StateManager.kt:194-200 | letters in alphabetical order, function keys ascending |
| KeyPicker.FunctionKeyLabels | app/src/main/java/org/openmw/ui/controls/StateManager.kt:285 | the function keys are labelled F1 … F12 |
| KeyCodes.NativeKeys.KeyDown | app/src/main/java/org/openmw/ui/controls/DynamicButtons.kt:328 | `onNativeKeyDown` appends one key-down |
| KeyCodes.NativeKeys.KeyUp | app/src/main/java/org/openmw/ui/controls/DynamicButtons.kt:330 | `onNativeKeyUp` appends one key-up |
| ControlSize.Grow | app/src/main/java/org/openmw/ui/controls/DynamicButtons.kt:500-502 | "+" adds the step, with no upper bound |
| ControlSize.Shrink | app/src/main/java/org/openmw/ui/controls/DynamicButtons.kt:525-529 | "-" subtracts the step and then raises the size to 50 if it fell below |
| ControlSize.ShrinkAtLeastMin | app/src/main/java/org/openmw/ui/controls/DynamicButtons.kt:525-529 | after any shrink the size is at least 50 |
| ControlSize.ShrinkNotAboveGrow | app/src/main/java/org/openmw/ui/controls/DynamicButtons.kt:500-529 | from 50 up, shrink never grows and grow never shrinks |
| ControlSize.ShrinkUndoesGrow | app/src/main/java/org/openmw/ui/controls/DynamicButtons.kt:500-529 | a shrink undoes a grow |
| ControlSize.ShrinkAtMin | app/src/main/java/org/openmw/ui/controls/DynamicButtons.kt:525-529 | at 50 a shrink stays at 50 |
| Widget.ControlWidget.SavedEntry | app/src/main/java/org/openmw/ui/controls/DynamicButtons.kt:188-196 | the saved entry: the captured id, lock, key and icon with the control's size, offsets, colour name and alpha |
| Widget.ControlWidget.constructor | app/src/main/java/org/openmw/ui/controls/DynamicButtons.kt:167-180 | composing takes the stored entry, or seeds it, and starts from it; the colour goes through `toColor` |
| Widget.ControlWidget.SaveState | app/src/main/java/org/openmw/ui/controls/DynamicButtons.kt:188-201 | the entry replaces the control's id and the entry's own id in the registry, and the file is rewritten from all values |
| Widget.ControlWidget.Grow | app/src/main/java/org/openmw/ui/controls/DynamicLeftThumbstick.kt:286-289 | "+" grows by the step, saves, and leaves offsets, colour and alpha alone |
| Widget.ControlWidget.Shrink | app/src/main/java/org/openmw/ui/controls/DynamicLeftThumbstick.kt:301-305 | "-" shrinks by the step to at least 50 and saves |
| Widget.ControlWidget.Move | app/src/main/java/org/openmw/ui/controls/DynamicLeftThumbstick.kt:146-149 | a drag step in edit mode adds the drag amount; outside edit mode nothing moves |
| Widget.ControlWidget.SaveAfterDrag | app/src/main/java/org/openmw/ui/controls/DynamicLeftThumbstick.kt:150-153 | the drag end saves in edit mode; without edit mode no drag exists and nothing changes |
| Widget.ControlWidget.Place | app/src/main/java/org/openmw/ui/controls/DynamicButtons.kt:272-277 | the control is put on the snapped grid point |
| Widget.ControlWidget.PickColor | app/src/main/java/org/openmw/ui/controls/DynamicButtons.kt:588-590 | picking a colour changes only the colour |
| Widget.ControlWidget.SetAlpha | app/src/main/java/org/openmw/ui/controls/DynamicLeftThumbstick.kt:344-346 | the slider changes only the alpha |
| Widget.SaveStateReplacesOwnEntry | app/src/main/java/org/openmw/ui/controls/DynamicButtons.kt:188-201 | when each entry is filed under its own id, the two updates of a save are one replacement, and entries stay filed under their ids |
| DynamicButtons.ButtonSeed | app/src/main/java/org/openmw/ui/controls/DynamicButtons.kt:167-171 | a new id is seeded with size 60 at (0, 0), black at alpha 0.25, with the icon found on disk |
| DynamicButtons.PressEvents | app/src/main/java/org/openmw/ui/controls/DynamicButtons.kt:323-352 | Shift and Alt toggle and send the matching event; other keys are tapped; Z also holds Enter and throws in the scaled view |
| DynamicButtons.ReleaseEvents | app/src/main/java/org/openmw/ui/controls/DynamicButtons.kt:400-406 | a release sends a key-up, except for the latching keys |
| DynamicButtons.ToggleTwice | app/src/main/java/org/openmw/ui/controls/DynamicButtons.kt:323-331 | two presses of a latching key send its down and its up and leave it as it was |
| DynamicButtons.TapThenRelease | app/src/main/java/org/openmw/ui/controls/DynamicButtons.kt:323-406 | a plain key's tap and release send one down and two ups |
| DynamicButtons.CharOfCode | app/src/main/java/org/openmw/ui/controls/DynamicButtons.kt:651 | `Int.toChar()` gives one character |
| DynamicButtons.LetterLabels | app/src/main/java/org/openmw/ui/controls/DynamicButtons.kt:638-653 | the letter keys are labelled "A" to "Z" |
| DynamicButtons.LetterLabelsInjective | app/src/main/java/org/openmw/ui/controls/DynamicButtons.kt:638-653 | distinct letter keys have distinct labels |
| DynamicButtons.LabelsMatchPicker | app/src/main/java/org/openmw/ui/controls/DynamicButtons.kt:638-653 | a button shows the label the picker showed, except the grave key ("Grave" against "`") |
| DynamicButtons.ComposeButton | app/src/main/java/org/openmw/ui/controls/DynamicButtons.kt:161-180 | composing a button takes or seeds its registry entry; its key starts released |
| DynamicButtons.Drag | app/src/main/java/org/openmw/ui/controls/DynamicButtons.kt:256-268 | a drag step in edit mode moves the button and saves at once |
| DynamicButtons.DragEnd | app/src/main/java/org/openmw/ui/controls/DynamicButtons.kt:269-279 | the drag end snaps the button to the grid point and saves |
| DynamicButtons.KeyButton.constructor | app/src/main/java/org/openmw/ui/controls/DynamicButtons.kt:175 | a button starts released |
| DynamicButtons.KeyButton.Press | app/src/main/java/org/openmw/ui/controls/DynamicButtons.kt:303-352 | unless the controls screen is open, the key's press events go to the engine |
| DynamicButtons.KeyButton.Release | app/src/main/java/org/openmw/ui/controls/DynamicButtons.kt:400-406 | unless the controls screen is open, the release events go to the engine |
| DynamicButtons.RemoveIcon | app/src/main/java/org/openmw/ui/controls/DynamicButtons.kt:118-136 | the entry loses its uri and the whole registry is saved |
| DynamicButtons.IconButton | app/src/main/java/org/openmw/ui/controls/DynamicButtons.kt:96-157 | with an icon, removes it; otherwise records the copied image's path without saving |
| DynamicButtons.RemovedIconStaysRemoved | app/src/main/java/org/openmw/ui/controls/DynamicButtons.kt:134-135 | the saved line of an entry without an icon reads back without one |
| LeftThumbstick.LeftStickSeed | app/src/main/java/org/openmw/ui/controls/DynamicLeftThumbstick.kt:76-78 | size 200 at (0, 0), black at alpha 0.25 |
| LeftThumbstick.Clamp | app/src/main/java/org/openmw/ui/controls/DynamicLeftThumbstick.kt:174-175 | `coerceIn`: within the bounds, the value itself when it already lies inside |
| LeftThumbstick.DeadZone | app/src/main/java/org/openmw/ui/controls/DynamicLeftThumbstick.kt:89 | the dead zone lies between 0 and the radius |
| LeftThumbstick.StickKeys | app/src/main/java/org/openmw/ui/controls/DynamicLeftThumbstick.kt:185-205 | W if and only if above the dead zone, S below it, A to its left, D to its right |
| LeftThumbstick.TouchPoint | app/src/main/java/org/openmw/ui/controls/DynamicLeftThumbstick.kt:174-175 | the touch position relative to the centre, clamped to the radius |
| LeftThumbstick.SendReleaseAll | app/src/main/java/org/openmw/ui/controls/DynamicLeftThumbstick.kt:179-182 | the four key-ups, in order |
| LeftThumbstick.SendStickKeys | app/src/main/java/org/openmw/ui/controls/DynamicLeftThumbstick.kt:189-192 | the key-downs of the touch, in order |
| LeftThumbstick.PressIf | app/src/main/java/org/openmw/ui/controls/DynamicLeftThumbstick.kt:189 | the key goes down exactly when its condition holds |
| LeftThumbstick.LeftStick.constructor | app/src/main/java/org/openmw/ui/controls/DynamicLeftThumbstick.kt:90 | the touch starts at the centre |
| LeftThumbstick.LeftStick.Touch | app/src/main/java/org/openmw/ui/controls/DynamicLeftThumbstick.kt:173-207 | unless the controls screen is open, keeps the clamped touch and sends the four ups, then the downs |
| LeftThumbstick.LeftStick.Lift | app/src/main/java/org/openmw/ui/controls/DynamicLeftThumbstick.kt:208-214 | unless the controls screen is open, recentres the touch and releases all four keys |
| LeftThumbstick.ComposeLeftStick | app/src/main/java/org/openmw/ui/controls/DynamicLeftThumbstick.kt:71-82 | takes or seeds the stick's entry, with a step of 20 |
| LeftThumbstick.HeldAppend | app/src/main/java/org/openmw/ui/controls/DynamicLeftThumbstick.kt:173-214 | a key's state after two event runs is decided by the later run when that run mentions the key |
| LeftThumbstick.HeldAfterTouch | app/src/main/java/org/openmw/ui/controls/DynamicLeftThumbstick.kt:173-207 | after a touch a movement key is held exactly when the touch lies beyond the dead zone in its direction, whatever was held before |
| LeftThumbstick.NoOpposingKeys | app/src/main/java/org/openmw/ui/controls/DynamicLeftThumbstick.kt:185-205 | never W and S together, never A and D together |
| LeftThumbstick.DeadZoneHoldsNothing | app/src/main/java/org/openmw/ui/controls/DynamicLeftThumbstick.kt:89 | a touch within the dead zone holds no movement key |
| LeftThumbstick.NothingHeldAfterLift | app/src/main/java/org/openmw/ui/controls/DynamicLeftThumbstick.kt:208-214 | after a release no movement key is held |
| LeftThumbstick.OtherKeysUntouched | app/src/main/java/org/openmw/ui/controls/DynamicLeftThumbstick.kt:173-214 | the stick leaves every other key, such as a latched Shift, as it was |
| RightThumbstick.RightStickSeed | app/src/main/java/org/openmw/ui/controls/DynamicRightThumbstick.kt:68-70 | size 200 at (300, 300), black at alpha 0.25, key code 98 |
| RightThumbstick.KnobOffset | app/src/main/java/org/openmw/ui/controls/DynamicRightThumbstick.kt:216-223 | the knob offset is clamped to the radius |
| RightThumbstick.RightStick.constructor | app/src/main/java/org/openmw/ui/controls/DynamicRightThumbstick.kt:81-82 | the knob starts at the centre |
| RightThumbstick.RightStick.Drag | app/src/main/java/org/openmw/ui/controls/DynamicRightThumbstick.kt:185 | unless the controls screen is open, the knob follows the finger |
| RightThumbstick.RightStick.Release | app/src/main/java/org/openmw/ui/controls/DynamicRightThumbstick.kt:203 | unless the controls screen is open, the knob returns to the centre |
| RightThumbstick.ComposeRightStick | app/src/main/java/org/openmw/ui/controls/DynamicRightThumbstick.kt:64-82 | takes or seeds the stick's entry and puts the knob at the centre |
| RightThumbstick.KnobCentredAfterRelease | app/src/main/java/org/openmw/ui/controls/DynamicRightThumbstick.kt:203-223 | after a release the knob is drawn at the centre |
| RightThumbstick.KnobFollowsFinger | app/src/main/java/org/openmw/ui/controls/DynamicRightThumbstick.kt:216-223 | within the radius the knob is drawn where the finger is |
| Sessions.LoadLayout | app/src/main/java/org/openmw/EngineActivity.kt:142-146 | clears and reloads: the registry holds the controls the load put; a throwing load leaves the screen empty and says so; otherwise the buttons on screen are the file's user buttons and its first thumbstick entry is kept |
| Sessions.ComposeSticks | app/src/main/java/org/openmw/EngineActivity.kt:212-225 | the left stick exists exactly when a thumbstick entry was loaded, the right one exactly when it is enabled, under ids 99 and 98 |
| Sessions.EngineCreate | app/src/main/java/org/openmw/EngineActivity.kt:115-146 | key sending on; in navmesh mode nothing is loaded and nothing throws; otherwise the layout is loaded, and a throwing load ends `onCreate` with the controls read so far in the registry |
| Sessions.ConfigureCreate | app/src/main/java/org/openmw/ConfigureControls.kt:39-82 | key sending off, then the same load, with the same outcome when it throws |
| Sessions.DeleteButton | app/src/main/java/org/openmw/EngineActivity.kt:230-233 | the button leaves the screen and the read-back returns every stored entry to the registry; the file is rewritten unless the read-back throws |
| Sessions.DeleteButtonCorrected | app/src/main/java/org/openmw/EngineActivity.kt:230-233 | as written, and, when the read-back does not throw, the deleted id also leaves the registry |
| Sessions.LoadedButtonsRegistered | app/src/main/java/org/openmw/EngineActivity.kt:142-146 | every button on screen after a load has its registry entry |
| Sessions.ThumbstickIsFirstStored | app/src/main/java/org/openmw/EngineActivity.kt:145 | the kept thumbstick is the first thumbstick line of the file |
| Sessions.DeletedLayoutGroups | app/src/main/java/org/openmw/EngineActivity.kt:231-232 | the rewritten layout holds the remaining buttons and the stored thumbsticks |
| Sessions.DeleteRewritesFile | app/src/main/java/org/openmw/EngineActivity.kt:230-233 | the rewritten file reads back with exactly the remaining buttons and the stored thumbsticks |
| Sessions.EntryAmongValues | app/src/main/java/org/openmw/ui/controls/DynamicButtons.kt:200 | every registry entry is among the values a save writes |
| Sessions.RegisteredIdWrittenBack | app/src/main/java/org/openmw/ui/controls/DynamicButtons.kt:188-201 | a registered id is written by any save and reads back as a user button |
| Sessions.DeletedButtonReturns | app/src/main/java/org/openmw/EngineActivity.kt:230-233 | as written, the next save of any control writes the deleted button back |
| Sessions.CorrectedDeleteStaysDeleted | app/src/main/java/org/openmw/EngineActivity.kt:230-233 | with the corrected delete, no later save writes the deleted id |
| ModValues.ParseModLine | app/src/main/java/org/openmw/utils/ModAssistant.kt:93-97 | a line is a mod only if, trimmed as `trim()` trims, it holds `=` and names a tab; it is enabled exactly when it does not start with `#`; the value is trimmed |
| ModValues.NoTabDropped | app/src/main/java/org/openmw/utils/ModAssistant.kt:94-97 | a trimmed line whose first part names no tab is not read, whatever follows the `=` |
| ModValues.LeadingNextLineDropped | app/src/main/java/org/openmw/utils/ModAssistant.kt:93-97 | a line that starts with U+0085, such as "\u0085data=Foo.esp", is not read, because `trim()` keeps that character |
| ModValues.ParsedEntries | app/src/main/java/org/openmw/utils/ModAssistant.kt:92-101 | the mods of the lines, in file order |
| ModValues.Numbered | app/src/main/java/org/openmw/utils/ModAssistant.kt:98 | numbering keeps the entries |
| ModValues.ReadModValues | app/src/main/java/org/openmw/utils/ModAssistant.kt:88-103 | `readModValues`: the file's mods in order, ids from 0, load-order indexes from 1 |
| ModValues.ModLineRoundTrip | app/src/main/java/org/openmw/utils/ModAssistant.kt:498-503 | a written line reads back as its mod |
| ModValues.ModLines | app/src/main/java/org/openmw/utils/ModAssistant.kt:498-503 | one line per mod |
| ModValues.ModLinesRoundTrip | app/src/main/java/org/openmw/utils/ModAssistant.kt:496-506 | writing mods and reading the file back gives the same mods in the same order |
| ModValues.ParsedEntryShape | app/src/main/java/org/openmw/utils/ModAssistant.kt:93-97 | every mod read names a tab and has a trimmed value |
| ModValues.ReadValuesWritable | app/src/main/java/org/openmw/utils/ModAssistant.kt:88-103 | mods read from any file can be written back unchanged |
| ModValues.OfCategory | app/src/main/java/org/openmw/utils/ModAssistant.kt:186-190 | a tab shows exactly the mods of its category |
| ModValues.SearchMods | app/src/main/java/org/openmw/utils/ModAssistant.kt:152-156 | `searchMods`: exactly the mods in the tab, if one is given, whose value holds the query, ignoring case |
| ModValues.SearchKeepsOrder | app/src/main/java/org/openmw/utils/ModAssistant.kt:152-156 | results keep the list's order |
| ModValues.EmptySearchFindsAll | app/src/main/java/org/openmw/utils/ModAssistant.kt:152-156 | an empty query over all tabs finds every mod |
| ModValues.Rank | app/src/main/java/org/openmw/utils/ModAssistant.kt:498 | `categories.indexOf`: a tab's position, -1 exactly for other categories |
| ModValues.Sort | app/src/main/java/org/openmw/utils/ModAssistant.kt:497 | the stable `sortedWith`: a sorted permutation |
| ModValues.SortSameElements | app/src/main/java/org/openmw/utils/ModAssistant.kt:497 | sorting keeps exactly the given elements |
| ModValues.SortOfSorted | app/src/main/java/org/openmw/utils/ModAssistant.kt:497 | a list already in order is left as it is |
| ModConfig.ExistingLines | app/src/main/java/org/openmw/utils/ModAssistant.kt:109-117 | the non-blank lines trimmed as `trim()` trims, none for a missing file |
| ModConfig.ReadExistingLines | app/src/main/java/org/openmw/utils/ModAssistant.kt:109-117 | reading them keeps every mod of the file |
| ModConfig.TrimmedLinesKeepMods | app/src/main/java/org/openmw/utils/ModAssistant.kt:111-114 | trimming and dropping blank lines changes no mod |
| ModConfig.ExistingGroup | app/src/main/java/org/openmw/utils/ModAssistant.kt:124-126 | a group is exactly the lines that start with the tab's name |
| ModConfig.TabMods | app/src/main/java/org/openmw/utils/ModAssistant.kt:119-130 | exactly the mods of the tab's category, each as often as in the input, ordered by load-order index |
| ModConfig.AddNew | app/src/main/java/org/openmw/utils/ModAssistant.kt:129-138 | appending keeps the existing group as a prefix |
| ModConfig.WriteModValues | app/src/main/java/org/openmw/utils/ModAssistant.kt:105-148 | `writeModValuesToFile` writes the regrouped lines |
| ModConfig.AppendNewMods | app/src/main/java/org/openmw/utils/ModAssistant.kt:130-137 | the inner loop appends the new lines |
| ModConfig.WrittenLinesGroups | app/src/main/java/org/openmw/utils/ModAssistant.kt:141-145 | the file is the data, content and groundcover groups, each closed by an empty line |
| ModConfig.CategoryLineHasNoHash | app/src/main/java/org/openmw/utils/ModAssistant.kt:131-132 | dropping `#` from a written line changes nothing |
| ModConfig.AddNewSound | app/src/main/java/org/openmw/utils/ModAssistant.kt:130-137 | every appended line is a mod's line whose value is not ignored |
| ModConfig.AddNewComplete | app/src/main/java/org/openmw/utils/ModAssistant.kt:130-137 | every mod that is not ignored is in the group afterwards, commented out or not |
| ModConfig.GroupComplete | app/src/main/java/org/openmw/utils/ModAssistant.kt:119-137 | every mod of a tab that is not ignored is in that tab's group, commented out or not |
| ModConfig.WrittenComplete | app/src/main/java/org/openmw/utils/ModAssistant.kt:119-145 | every mod of any tab that is not ignored is in the written file, commented out or not |
| ModConfig.HasModuloHashExtended | app/src/main/java/org/openmw/utils/ModAssistant.kt:141-145 | lines written before or after a group keep its lines |
| ModConfig.AddNewFresh | app/src/main/java/org/openmw/utils/ModAssistant.kt:133-136 | no line is appended when the group already holds it, ignoring `#` |
| ModConfig.ToggleLines | app/src/main/java/org/openmw/utils/ModAssistant.kt:433-442 | as written: only lines containing the value change |
| ModConfig.ToggleLinesCorrected | app/src/main/java/org/openmw/utils/ModAssistant.kt:433-442 | corrected: one line per line, only the mod's own lines change |
| ModConfig.WithChecked | app/src/main/java/org/openmw/utils/ModAssistant.kt:423-444 | the intended result of a toggle: one entry per entry |
| ModConfig.Toggle | app/src/main/java/org/openmw/utils/ModAssistant.kt:423-444 | the handler rewrites the file's lines with the as-written toggle |
| ModConfig.ToggledLinesReadBack | app/src/main/java/org/openmw/utils/ModAssistant.kt:433-442 | each rewritten line reads back as the toggled mod with the new state |
| ModConfig.ToggleCorrectedReadBack | app/src/main/java/org/openmw/utils/ModAssistant.kt:433-442 | the corrected toggle reads back as the same mods with only this mod's state changed |
| ModConfig.ToggleHitsOtherMod | app/src/main/java/org/openmw/utils/ModAssistant.kt:433-442 | as written, toggling a mod rewrites another mod's line whose value contains it; the corrected toggle does not |
| ModOrder.Moved | app/src/main/java/org/openmw/utils/ModAssistant.kt:203-204 | `removeAt` then `add`: a permutation of the same length |
| ModOrder.MovedPositions | app/src/main/java/org/openmw/utils/ModAssistant.kt:203-204 | the moved item lands at the target; items outside the range are untouched; items between shift by one |
| ModOrder.MoveBack | app/src/main/java/org/openmw/utils/ModAssistant.kt:203-204 | moving back undoes a move |
| ModOrder.Flatten | app/src/main/java/org/openmw/utils/ModAssistant.kt:497 | `flatten`: the items of all tabs |
| ModOrder.Reordered | app/src/main/java/org/openmw/utils/ModAssistant.kt:201-209 | `onMove` moves the item within the selected tab only |
| ModOrder.ReorderedTabbed | app/src/main/java/org/openmw/utils/ModAssistant.kt:201-209 | the tabs still hold only their own category |
| ModOrder.Renumbered | app/src/main/java/org/openmw/utils/ModAssistant.kt:487-489 | each mod's load-order index becomes its position plus the base, and nothing else changes |
| ModOrder.RenumberedKeeps | app/src/main/java/org/openmw/utils/ModAssistant.kt:487-489 | the entries and the tab are kept, and the list is in load order |
| ModOrder.Renumber | app/src/main/java/org/openmw/utils/ModAssistant.kt:487-489 | the renumber loop gives indexes from the base, in list order |
| ModOrder.FlatSorted | app/src/main/java/org/openmw/utils/ModAssistant.kt:496-497 | the flattened tabs sorted by tab are writable and sorted |
| ModOrder.OfCategoryOfFlat | app/src/main/java/org/openmw/utils/ModAssistant.kt:509-511 | a tab of the flattened list is the tab itself |
| ModOrder.ReloadShowsTabs | app/src/main/java/org/openmw/utils/ModAssistant.kt:506-511 | when the file reads back as the flattened tabs, each reloaded tab has the same entries |
| ModOrder.LoadedTabs | app/src/main/java/org/openmw/utils/ModAssistant.kt:447-450 | tabs read from a file hold only their category, in load order |
| ModOrder.DragStop | app/src/main/java/org/openmw/utils/ModAssistant.kt:478-512 | renumbers the tab, writes the sorted list and reloads; with the other tabs in load order the tabs come back unchanged |
| ModOrder.DragStopKeepsOrder | app/src/main/java/org/openmw/utils/ModAssistant.kt:487-511 | the reloaded tabs keep the order the user dragged |
| ModOrder.IndexOfKey | app/src/main/java/org/openmw/utils/ModAssistant.kt:744 | `indexOfFirst`: the first index whose index key matches, -1 for none |
| ModOrder.MoveLines | app/src/main/java/org/openmw/utils/ModAssistant.kt:765-768 | as written: one `category=value` line per mod |
| ModOrder.MovedTabs | app/src/main/java/org/openmw/utils/ModAssistant.kt:746-758 | the dialog's move and 0-based renumbering in the selected tab |
| ModOrder.ConfirmMove | app/src/main/java/org/openmw/utils/ModAssistant.kt:738-790 | nothing happens when the mod is missing or already there; otherwise the file is written and reloaded, and reads back as every mod enabled |
| ModOrder.Enabled | app/src/main/java/org/openmw/utils/ModAssistant.kt:765-768 | the mods, all enabled |
| ModOrder.MoveLinesEnableAll | app/src/main/java/org/openmw/utils/ModAssistant.kt:765-768 | the move writes every mod enabled |
| ModOrder.MoveEnablesDisabledMod | app/src/main/java/org/openmw/utils/ModAssistant.kt:765-776 | a disabled mod comes back enabled after a move |
| ModOrder.MoveCorrectedKeepsState | app/src/main/java/org/openmw/utils/ModAssistant.kt:765-776 | corrected: the file reads back as the moved tabs, enabled states kept |
| ModOrder.MovedTabsTabbed | app/src/main/java/org/openmw/utils/ModAssistant.kt:746-758 | the moved tabs still hold only their category |
| UITools.Landscape | app/src/main/java/org/openmw/utils/UITools.kt:151 | the larger value becomes the width; the pair keeps the two values |
| UITools.UpdatedSettings | app/src/main/java/org/openmw/utils/UITools.kt:154-163 | one line per line, lines other than the four resolution lines unchanged |
| UITools.RewriteTwice | app/src/main/java/org/openmw/utils/UITools.kt:155-162 | rewriting a rewritten line changes nothing |
| UITools.UpdateIdempotent | app/src/main/java/org/openmw/utils/UITools.kt:149-164 | running the update twice gives the same file as once |
| UITools.ResolutionWritten | app/src/main/java/org/openmw/utils/UITools.kt:159-160 | the unset resolution lines end up holding the landscape width and height, as numbers that read back |
| UITools.EngineResolution.constructor | app/src/main/java/org/openmw/EngineActivity.kt:60-61 | the engine's resolution starts at 0 by 0 |
| UITools.UpdateResolutionInConfig | app/src/main/java/org/openmw/utils/UITools.kt:149-169 | the file is rewritten, and the engine's resolution becomes the landscape pair |
| UITools.SmallByteCount | app/src/main/java/org/openmw/utils/UITools.kt:103 | below 1024 bytes: the number, then " B", and the number reads back |

## Left out

- Float rounding: sizes, offsets and alpha are exact decimals. `Float.toString`'s exponent notation for very small or very large values, and binary rounding, are not modelled.
- Grid snapping (`roundToInt` over `gridSize`) is an input to `DynamicButtons.DragEnd`, which receives the snapped point.
- Rendering and gestures are not modelled: Compose layout, recomposition, colours drawn, borders and the mouse.
- Vibration, logging and `println` are not modelled.
- Copying and renaming the icon image (`copyAndRenameImage`) is file I/O. `DynamicButtons.IconButton` receives its result.
- `UITools.SmallByteCount`: only the integer branch below 1024 bytes; the floating-point branch and its formatting are left out.
- `ModValues.SearchMods`: case is ignored for ASCII letters only; Kotlin's Unicode case folding is not modelled.
- `Sessions.ComposeSticks` takes `enableRightThumb` and the screen density as inputs. They come from preferences and the display.
- The move dialog's picker state (`selectedIndex`, `initialIndex`) is an input to `ModOrder.ConfirmMove`. Compose keeping or resetting that state is not modelled.
- `ButtonManager.NextButtonId`: the corrected id does not model the 32-bit wrap once ids reach `Int.MAX_VALUE`; its range guarantee assumes smaller ids.
- The unfinished `TODO()` branch for Z in the scaled view is modelled as `crashed`. What the thrown error does to the app is not modelled.
- `ModValues.ReadModValues` reads lines given to it. `readModValues` on a missing file throws; that case is not modelled.
- `ModConfig.WriteModValues` builds each group in one pass, where the source first splits the lines and then appends. It also sorts once by load-order index; that this equals the source's two stable sorts is not proved.
- Files are sequences of lines. `joinToString("\n")`, the trailing newline and `readLines` splitting are not modelled.
- `ModOrder.Renumber` and `ModOrder.MovedTabs` return new values. The source changes `originalIndex` in place on shared objects, and that aliasing is not modelled.
- `RightThumbstick.KnobOffset` clamps to the source's pixel radius, and `.dp.roundToPx()` is not modelled.
- `ModOrder.DragStop` guarantees that the tabs come back unchanged only under `DragPrecondition`: all three tabs hold only their category, and the other tabs are in load order.
- `ModOrder.ConfirmMove` requires the target to lie within the picker's range `0..size-1`, which the `NumberPicker` guarantees.
- Threads and Android lifecycle callbacks other than `onCreate` are not modelled.
- What an exception out of `loadButtonState` does to the app is not modelled: the screens, `deleteButton` and the add handler stop there and report `crashed`.
- `DynamicButtons.CharOfCode`: when the low 16 bits of the key code are a surrogate, the label is U+FFFD, where Kotlin's `toChar()` keeps the lone surrogate code unit; Dafny strings cannot hold one.

## Findings

| source | as written | input that shows it | evidently intended | confidence | as-written member | corrected member |
|---|---|---|---|---|---|---|
| app/src/main/java/org/openmw/ui/controls/StateManager.kt:153-166 | `toInt`/`toFloat` run on groups that the pattern accepts but cannot always convert, so the exception escapes `loadButtonState` | a line `ButtonID_1(1.2.3;0.0;0.0;false;29;Color.Black;0.25;null)`, or the id 3000000000 | skip such a line like one that does not match | not executed | LayoutCodec.AsWrittenCrashes | LayoutFile.DecodeLinesAsWrittenAgrees |
| app/src/main/java/org/openmw/ui/controls/StateManager.kt:390-391 | the new id is one past the largest user id, which can be a thumbstick id | a single user button with id 97: the new button gets 98, is saved, and the next load files it with the thumbsticks | skip the ids 98 and 99 | not executed | ButtonManager.AsWrittenButtonLost | ButtonManager.AddedButtonSurvivesReload |
| app/src/main/java/org/openmw/EngineActivity.kt:230-233 | the delete rewrites the file, but its read-back puts every stored entry, the deleted one included, into the registry, and the next `saveState` of any control writes it back | delete a button, then drag any other control | the deleted button stays deleted | not executed | Sessions.DeletedButtonReturns | Sessions.CorrectedDeleteStaysDeleted |
| app/src/main/java/org/openmw/utils/ModAssistant.kt:433-442 | the checkbox rewrites every line that contains the mod's value | toggle `A.esp` while `content=AA.esp` is in the file: that line becomes `A.esp`'s, and `AA.esp` is gone | rewrite only the mod's own lines | not executed | ModConfig.ToggleHitsOtherMod | ModConfig.ToggleCorrectedReadBack |
| app/src/main/java/org/openmw/utils/ModAssistant.kt:765-768 | the move dialog writes `category=value` for every mod, dropping the `#` of disabled mods | move any mod while another mod of the list is disabled: the reload shows it enabled | write each mod's line as the drag does | not executed | ModOrder.MoveEnablesDisabledMod | ModOrder.MoveCorrectedKeepsState |
