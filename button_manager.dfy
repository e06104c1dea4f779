/**
 * Adding a button (`DynamicButtonManager`): the layout file is reloaded,
 * its entries are split into user buttons and thumbsticks, the new button
 * takes the id one past the largest user id (which can be a thumbstick's
 * id), and the file is rewritten with the user buttons, the new button and
 * the thumbsticks, in that order. The new button then joins the buttons on
 * screen and edit mode is switched on.
 */
module ButtonManager {
  import opened Wrappers
  import opened Seqs
  import opened Decimals
  import opened ButtonModel
  import opened KeyCodes
  import opened KeyPicker
  import opened LayoutCodec
  import opened LayoutFile
  import opened StateManager

  /** Kotlin `Int` addition wraps modulo 2^32 into [-2^31, 2^31). */
  function WrapInt32(n: int): (r: int)
    ensures -0x8000_0000 <= r < 0x8000_0000
    ensures -0x8000_0000 <= n < 0x8000_0000 ==> r == n
  {
    (n + 0x8000_0000) % 0x1_0000_0000 - 0x8000_0000
  }

  /** `maxOfOrNull { it.id } ?: 0`. */
  function MaxId(bs: seq<ButtonState>): (r: int)
    ensures bs == [] ==> r == 0
    ensures forall b | b in bs :: b.id <= r
    ensures bs != [] ==> exists b | b in bs :: b.id == r
  {
    if bs == [] then 0
    else if |bs| == 1 then bs[0].id
    else
      var m := MaxId(bs[1..]);
      if bs[0].id >= m then bs[0].id else m
  }

  /** The id the source gives a new button: one past the largest user id, in 32-bit arithmetic. */
  function NextButtonIdAsWritten(others: seq<ButtonState>): int {
    WrapInt32(MaxId(others) + 1)
  }

  /** The id a new button evidently should get: as written, but stepping over the two thumbstick ids. */
  function NextButtonId(others: seq<ButtonState>): (id: int)
    ensures !IsThumbstickId(id)
    ensures (forall b | b in others :: 0 <= b.id < INT_MAX) ==> 1 <= id <= INT_MAX && forall b | b in others :: b.id < id
  {
    var n := NextButtonIdAsWritten(others);
    if IsThumbstickId(n) then 100 else n
  }

  /** A new button: size 60 at (100, 100), unlocked, black at alpha 0.25, without icon. */
  function NewButtonState(id: int, keyCode: int): (b: ButtonState)
    ensures b.id == id && b.keyCode == keyCode && b.uri.None? && !b.isLocked && b.color == "Black"
  {
    ButtonState(id, FromInt(60), FromInt(100), FromInt(100), false, keyCode, "Black", Decimal(25, 2), None)
  }

  /** The numbers of a new button: size 60, offsets 100, alpha 0.25. */
  lemma NewButtonDefaults(id: int, keyCode: int)
    ensures var b := NewButtonState(id, keyCode);
      Value(b.size) == 60.0 && Value(b.offsetX) == 100.0 && Value(b.offsetY) == 100.0 && Value(b.alpha) == 0.25
  {
  }

  /** The list the add rule writes back: user buttons, the new button, then the thumbsticks. */
  function AddedLayout(loaded: seq<ButtonState>, added: ButtonState): seq<ButtonState> {
    Filter(loaded, IsUserButton) + [added] + Filter(loaded, IsThumbstick)
  }

  /** `createdButtons.map { it.keyCode }`: the keys the picker must not offer again. */
  function KeyCodesOf(bs: seq<ButtonState>): (r: seq<int>)
    ensures |r| == |bs| && forall i | 0 <= i < |bs| :: r[i] == bs[i].keyCode
  {
    if bs == [] then [] else [bs[0].keyCode] + KeyCodesOf(bs[1..])
  }

  /**
   * The `onKeySelected` handler of the key picker, with `onNewButtonAdded`
   * appending to `createdButtons`. The new id is the source's
   * `maxExistingId + 1`. When the load throws, the handler stops there and
   * `added` is `None`.
   */
  method AddButton(userUi: string, file: ConfigFile, reg: UIStateManager, keyCode: int) returns (added: Option<ButtonState>)
    requires reg.Valid()
    modifies file, reg
    ensures reg.Valid()
    ensures added.None? == LoadFileAsWritten(userUi, old(file.lines)).crashed
    ensures reg.buttonStates == PutAll(old(reg.buttonStates), LoadFileAsWritten(userUi, old(file.lines)).loaded)
    ensures reg.order == PutAllOrder(old(reg.order), LoadFileAsWritten(userUi, old(file.lines)).loaded)
    ensures added.None? ==> file.lines == old(file.lines) && reg.createdButtons == old(reg.createdButtons) && reg.editMode == old(reg.editMode)
    ensures added.Some? ==> added.value == NewButtonState(NextButtonIdAsWritten(Filter(LoadFile(userUi, old(file.lines)), IsUserButton)), keyCode)
    ensures added.Some? ==> file.lines == Some(SavedFile(userUi, AddedLayout(LoadFile(userUi, old(file.lines)), added.value)))
    ensures added.Some? ==> reg.createdButtons == old(reg.createdButtons) + [added.value] && reg.editMode
    ensures reg.configureControls == old(reg.configureControls) && reg.isScaleView == old(reg.isScaleView)
  {
    var allButtons, crashed := LoadButtonState(userUi, file, reg);
    if crashed {
      return None;
    }
    var b := SaveNewButton(userUi, file, reg, allButtons, NextButtonIdAsWritten(Filter(allButtons, IsUserButton)), keyCode);
    added := Some(b);
  }

  /** The handler as evidently intended: as written, but with the id that steps over the thumbstick ids. */
  method AddButtonCorrected(userUi: string, file: ConfigFile, reg: UIStateManager, keyCode: int) returns (added: Option<ButtonState>)
    requires reg.Valid()
    modifies file, reg
    ensures reg.Valid()
    ensures added.None? == LoadFileAsWritten(userUi, old(file.lines)).crashed
    ensures reg.buttonStates == PutAll(old(reg.buttonStates), LoadFileAsWritten(userUi, old(file.lines)).loaded)
    ensures reg.order == PutAllOrder(old(reg.order), LoadFileAsWritten(userUi, old(file.lines)).loaded)
    ensures added.None? ==> file.lines == old(file.lines) && reg.createdButtons == old(reg.createdButtons) && reg.editMode == old(reg.editMode)
    ensures added.Some? ==> added.value == NewButtonState(NextButtonId(Filter(LoadFile(userUi, old(file.lines)), IsUserButton)), keyCode)
    ensures added.Some? ==> file.lines == Some(SavedFile(userUi, AddedLayout(LoadFile(userUi, old(file.lines)), added.value)))
    ensures added.Some? ==> reg.createdButtons == old(reg.createdButtons) + [added.value] && reg.editMode
    ensures reg.configureControls == old(reg.configureControls) && reg.isScaleView == old(reg.isScaleView)
  {
    var allButtons, crashed := LoadButtonState(userUi, file, reg);
    if crashed {
      return None;
    }
    var b := SaveNewButton(userUi, file, reg, allButtons, NextButtonId(Filter(allButtons, IsUserButton)), keyCode);
    added := Some(b);
  }

  /** The rest of the handler once the file is loaded: the new button is written between the user buttons and the thumbsticks, and shown. */
  method SaveNewButton(userUi: string, file: ConfigFile, reg: UIStateManager, allButtons: seq<ButtonState>, newId: int, keyCode: int)
    returns (added: ButtonState)
    requires reg.Valid()
    modifies file, reg
    ensures reg.Valid() && added == NewButtonState(newId, keyCode)
    ensures file.lines == Some(SavedFile(userUi, AddedLayout(allButtons, added)))
    ensures reg.buttonStates == old(reg.buttonStates) && reg.order == old(reg.order)
    ensures reg.createdButtons == old(reg.createdButtons) + [added] && reg.editMode
    ensures reg.configureControls == old(reg.configureControls) && reg.isScaleView == old(reg.isScaleView)
  {
    var thumbsticks := Filter(allButtons, IsThumbstick);
    var otherButtons := Filter(allButtons, IsUserButton);
    added := NewButtonState(newId, keyCode);
    var layout := otherButtons + [added] + thumbsticks;
    SaveButtonState(userUi, file, layout);
    reg.AddCreated(added);
    reg.SetEditMode(true);
  }

  // ---------------------------------------------------------------------------
  // Properties

  /** A key picked from the menu is used by no button on screen and is no movement key. */
  lemma PickedKeyIsFree(created: seq<ButtonState>, keyCode: int)
    requires keyCode in OfferedKeys(KeyCodesOf(created))
    ensures forall b | b in created :: b.keyCode != keyCode
    ensures !IsMovementKey(keyCode)
  {
    OffersNoUsedKey(KeyCodesOf(created));
    forall b | b in created ensures b.keyCode != keyCode {
      var i :| 0 <= i < |created| && created[i] == b;
      assert KeyCodesOf(created)[i] == b.keyCode;
    }
  }

  /** Ids read from the layout file lie in 0..2147483647. */
  lemma LoadedIdsInRange(userUi: string, file: Option<seq<string>>)
    requires NoLineTerminator(userUi)
    ensures forall b | b in LoadFile(userUi, file) :: 0 <= b.id <= INT_MAX && 0 <= b.keyCode <= INT_MAX
  {
    LoadedArePersistable(userUi, file);
  }

  /** The written list holds every loaded entry and the new one. */
  lemma AddedLayoutContents(loaded: seq<ButtonState>, added: ButtonState)
    ensures multiset(AddedLayout(loaded, added)) == multiset(loaded) + multiset{added}
  {
    FilterPartition(loaded, IsUserButton, IsThumbstick);
  }

  /** A fresh button is persistable when its id and key code are in range. */
  lemma NewButtonPersistable(userUi: string, id: int, keyCode: int)
    requires NoLineTerminator(userUi) && 0 <= id <= INT_MAX && 0 <= keyCode <= INT_MAX
    ensures Persistable(userUi, NewButtonState(id, keyCode))
  {
    var b := NewButtonState(id, keyCode);
    assert AllInClass(b.color, WordChars) by {
      forall i | 0 <= i < |b.color| ensures InClass(b.color[i], WordChars) {
        assert IsWordChar(b.color[i]);
      }
    }
  }

  /** The user buttons of the written list are the loaded ones followed by the new one. */
  lemma {:induction false} AddedLayoutUsers(loaded: seq<ButtonState>, added: ButtonState)
    requires IsUserButton(added)
    ensures Filter(AddedLayout(loaded, added), IsUserButton) == Filter(loaded, IsUserButton) + [added]
  {
    var others, sticks := Filter(loaded, IsUserButton), Filter(loaded, IsThumbstick);
    FilterAppend(others + [added], sticks, IsUserButton);
    FilterAppend(others, [added], IsUserButton);
    assert Filter([added], IsUserButton) == [added];
    FilterIdempotent(loaded, IsUserButton);
    forall i | 0 <= i < |sticks| ensures !IsUserButton(sticks[i]) {
      assert sticks[i] in sticks;
    }
    FilterNone(sticks, IsUserButton);
  }

  /** Every entry of the written list is persistable when the new id is in range. */
  lemma AddedLayoutPersistable(userUi: string, file: Option<seq<string>>, added: ButtonState)
    requires NoLineTerminator(userUi) && Persistable(userUi, added)
    ensures forall b | b in AddedLayout(LoadFile(userUi, file), added) :: Persistable(userUi, b)
  {
    LoadedArePersistable(userUi, file);
  }

  /**
   * With the corrected id the new button comes back on the next load as a
   * user button, after the user buttons that were there before.
   */
  lemma AddedButtonSurvivesReload(userUi: string, file: Option<seq<string>>, keyCode: int)
    requires NoLineTerminator(userUi) && 0 <= keyCode <= INT_MAX
    requires forall b | b in LoadFile(userUi, file) :: b.id < INT_MAX
    ensures var loaded := LoadFile(userUi, file);
            var added := NewButtonState(NextButtonId(Filter(loaded, IsUserButton)), keyCode);
            Filter(LoadFile(userUi, Some(SavedFile(userUi, AddedLayout(loaded, added)))), IsUserButton)
              == Filter(loaded, IsUserButton) + [added]
  {
    var loaded := LoadFile(userUi, file);
    var others := Filter(loaded, IsUserButton);
    LoadedIdsInRange(userUi, file);
    assert forall b | b in others :: 0 <= b.id < INT_MAX;
    var added := NewButtonState(NextButtonId(others), keyCode);
    NewButtonPersistable(userUi, added.id, keyCode);
    var layout := AddedLayout(loaded, added);
    AddedLayoutPersistable(userUi, file, added);
    LoadSavedFile(userUi, layout);
    SaveOrderKeepsGroups(layout);
    AddedLayoutUsers(loaded, added);
  }

  /**
   * As written, whenever the largest user id read is 97 the new button gets
   * the right thumbstick's id: it is saved, and the next load files it with
   * the thumbsticks instead of the buttons.
   */
  lemma AsWrittenButtonLost(userUi: string, file: Option<seq<string>>, keyCode: int)
    requires NoLineTerminator(userUi) && 0 <= keyCode <= INT_MAX
    requires MaxId(Filter(LoadFile(userUi, file), IsUserButton)) == 97
    ensures var loaded := LoadFile(userUi, file);
            var added := NewButtonState(NextButtonIdAsWritten(Filter(loaded, IsUserButton)), keyCode);
            var reloaded := LoadFile(userUi, Some(SavedFile(userUi, AddedLayout(loaded, added))));
            added.id == RIGHT_THUMBSTICK_ID && added in Filter(reloaded, IsThumbstick) && added !in Filter(reloaded, IsUserButton)
  {
    var loaded := LoadFile(userUi, file);
    var id := NextButtonIdAsWritten(Filter(loaded, IsUserButton));
    assert id == RIGHT_THUMBSTICK_ID;
    var added := NewButtonState(id, keyCode);
    NewButtonPersistable(userUi, id, keyCode);
    AddedLayoutPersistable(userUi, file, added);
    AddedLayoutContents(loaded, added);
    assert added in AddedLayout(loaded, added) by {
      assert added in multiset(AddedLayout(loaded, added));
    }
    SavedEntryReloads(userUi, AddedLayout(loaded, added), added);
  }

  /** Every entry of a saved list of persistable entries is there again on the next load. */
  lemma SavedEntryReloads(userUi: string, layout: seq<ButtonState>, b: ButtonState)
    requires forall e | e in layout :: Persistable(userUi, e)
    requires b in layout
    ensures b in LoadFile(userUi, Some(SavedFile(userUi, layout)))
  {
    LoadSavedFile(userUi, layout);
    SaveOrderPermutation(layout);
    assert b in multiset(SaveOrder(layout));
  }
}
