/**
 * The two screens that show the controls: the game screen (`EngineActivity`)
 * and the controls editor (`ConfigureControls`). Both clear the buttons on
 * screen and the registry, load the layout file, keep its user buttons as
 * the buttons on screen and its first thumbstick entry for the left
 * thumbstick; the editor first switches key sending off. Deleting a button
 * drops it from the buttons on screen and rewrites the file with the
 * remaining buttons and the thumbsticks read back from the file.
 */
module Sessions {
  import opened Wrappers
  import opened Seqs
  import opened ButtonModel
  import opened LayoutCodec
  import opened LayoutFile
  import opened StateManager
  import opened Widget
  import LeftThumbstick
  import RightThumbstick

  /**
   * The clear-and-load block both screens run when they are created. When
   * the load throws, the exception leaves `onCreate` there: the buttons on
   * screen stay cleared and no thumbstick is kept.
   */
  method LoadLayout(userUi: string, file: ConfigFile, reg: UIStateManager) returns (thumbstick: Option<ButtonState>, crashed: bool)
    requires reg.Valid()
    modifies reg
    ensures reg.Valid()
    ensures crashed == LoadFileAsWritten(userUi, file.lines).crashed
    ensures reg.buttonStates == PutAll(map[], LoadFileAsWritten(userUi, file.lines).loaded)
    ensures reg.order == PutAllOrder([], LoadFileAsWritten(userUi, file.lines).loaded)
    ensures crashed ==> reg.createdButtons == [] && thumbstick.None?
    ensures !crashed ==> reg.createdButtons == Filter(LoadFile(userUi, file.lines), IsUserButton)
    ensures !crashed ==> thumbstick == Seqs.Find(LoadFile(userUi, file.lines), IsThumbstick)
    ensures forall b | b in reg.createdButtons :: !IsThumbstickId(b.id)
    ensures reg.configureControls == old(reg.configureControls) && reg.editMode == old(reg.editMode)
    ensures reg.isScaleView == old(reg.isScaleView)
  {
    reg.ClearCreated();
    reg.ClearStates();
    var allButtons;
    allButtons, crashed := LoadButtonState(userUi, file, reg);
    if crashed {
      return None, true;
    }
    thumbstick := Seqs.Find(allButtons, IsThumbstick);
    reg.AddAllCreated(Filter(allButtons, IsUserButton));
  }

  /**
   * Composing the thumbsticks of either screen: the left one when a
   * thumbstick entry was loaded, always under id 99 and with that entry's key
   * code as its seed; the right one, under id 98, when it is enabled.
   */
  method ComposeSticks(reg: UIStateManager, thumbstick: Option<ButtonState>, enableRightThumb: bool, density: real)
    returns (left: Option<ControlWidget>, right: Option<ControlWidget>)
    requires reg.Valid()
    modifies reg
    ensures reg.Valid()
    ensures left.Some? <==> thumbstick.Some?
    ensures right.Some? <==> enableRightThumb
    ensures left.Some? ==> left.value.id == LEFT_THUMBSTICK_ID && left.value.sizeStep == LeftThumbstick.STICK_SIZE_STEP
    ensures left.Some? && LEFT_THUMBSTICK_ID !in old(reg.buttonStates) ==> left.value.captured == LeftThumbstick.LeftStickSeed(LEFT_THUMBSTICK_ID, thumbstick.value.keyCode)
    ensures left.Some? && LEFT_THUMBSTICK_ID in old(reg.buttonStates) ==> left.value.captured == old(reg.buttonStates)[LEFT_THUMBSTICK_ID]
    ensures right.Some? ==> right.value.id == RIGHT_THUMBSTICK_ID && right.value.sizeStep == LeftThumbstick.STICK_SIZE_STEP
    ensures right.Some? && RIGHT_THUMBSTICK_ID !in old(reg.buttonStates) ==> right.value.captured == RightThumbstick.RightStickSeed(RIGHT_THUMBSTICK_ID)
    ensures right.Some? && RIGHT_THUMBSTICK_ID in old(reg.buttonStates) ==> right.value.captured == old(reg.buttonStates)[RIGHT_THUMBSTICK_ID]
    ensures reg.buttonStates.Keys == old(reg.buttonStates).Keys + (if left.Some? then {LEFT_THUMBSTICK_ID} else {}) + (if right.Some? then {RIGHT_THUMBSTICK_ID} else {})
    ensures forall k | k in old(reg.buttonStates) :: reg.buttonStates[k] == old(reg.buttonStates)[k]
    ensures reg.createdButtons == old(reg.createdButtons) && reg.editMode == old(reg.editMode)
    ensures reg.configureControls == old(reg.configureControls) && reg.isScaleView == old(reg.isScaleView)
  {
    left, right := None, None;
    if thumbstick.Some? {
      var w, _ := LeftThumbstick.ComposeLeftStick(reg, LEFT_THUMBSTICK_ID, thumbstick.value.keyCode);
      left := Some(w);
    }
    if enableRightThumb {
      var w, _ := RightThumbstick.ComposeRightStick(reg, RIGHT_THUMBSTICK_ID, density);
      right := Some(w);
    }
  }

  /**
   * `EngineActivity.onCreate`: key sending on; in navmesh mode no controls
   * are loaded (and `None` stands for "no thumbstick composed"). `crashed`
   * says that the load threw out of `onCreate`.
   */
  method EngineCreate(userUi: string, file: ConfigFile, reg: UIStateManager, useNavmesh: bool) returns (thumbstick: Option<ButtonState>, crashed: bool)
    requires reg.Valid()
    modifies reg
    ensures reg.Valid() && !reg.configureControls
    ensures useNavmesh ==> !crashed && thumbstick.None? && reg.createdButtons == old(reg.createdButtons)
    ensures useNavmesh ==> reg.buttonStates == old(reg.buttonStates) && reg.order == old(reg.order)
    ensures !useNavmesh ==> crashed == LoadFileAsWritten(userUi, file.lines).crashed
    ensures !useNavmesh ==> reg.buttonStates == PutAll(map[], LoadFileAsWritten(userUi, file.lines).loaded)
    ensures !useNavmesh ==> reg.order == PutAllOrder([], LoadFileAsWritten(userUi, file.lines).loaded)
    ensures !useNavmesh && crashed ==> reg.createdButtons == [] && thumbstick.None?
    ensures !useNavmesh && !crashed ==> reg.createdButtons == Filter(LoadFile(userUi, file.lines), IsUserButton)
    ensures !useNavmesh && !crashed ==> thumbstick == Seqs.Find(LoadFile(userUi, file.lines), IsThumbstick)
    ensures reg.editMode == old(reg.editMode) && reg.isScaleView == old(reg.isScaleView)
  {
    reg.SetConfigureControls(false);
    if useNavmesh {
      return None, false;
    }
    thumbstick, crashed := LoadLayout(userUi, file, reg);
  }

  /** `ConfigureControls.onCreate`: key sending off, then the same load. */
  method ConfigureCreate(userUi: string, file: ConfigFile, reg: UIStateManager) returns (thumbstick: Option<ButtonState>, crashed: bool)
    requires reg.Valid()
    modifies reg
    ensures reg.Valid() && reg.configureControls
    ensures crashed == LoadFileAsWritten(userUi, file.lines).crashed
    ensures reg.buttonStates == PutAll(map[], LoadFileAsWritten(userUi, file.lines).loaded)
    ensures reg.order == PutAllOrder([], LoadFileAsWritten(userUi, file.lines).loaded)
    ensures crashed ==> reg.createdButtons == [] && thumbstick.None?
    ensures !crashed ==> reg.createdButtons == Filter(LoadFile(userUi, file.lines), IsUserButton)
    ensures !crashed ==> thumbstick == Seqs.Find(LoadFile(userUi, file.lines), IsThumbstick)
    ensures reg.editMode == old(reg.editMode) && reg.isScaleView == old(reg.isScaleView)
  {
    reg.SetConfigureControls(true);
    thumbstick, crashed := LoadLayout(userUi, file, reg);
  }

  /**
   * `deleteButton` as written: the button leaves the buttons on screen and
   * the file is rewritten with the remaining buttons and the thumbsticks
   * read back from it. The read-back puts every stored entry into the
   * registry again, the deleted one included. When the read-back throws,
   * the file is not rewritten.
   */
  method DeleteButton(userUi: string, file: ConfigFile, reg: UIStateManager, buttonId: int) returns (crashed: bool)
    requires reg.Valid()
    modifies reg, file
    ensures reg.Valid()
    ensures reg.createdButtons == WithoutId(old(reg.createdButtons), buttonId)
    ensures crashed == LoadFileAsWritten(userUi, old(file.lines)).crashed
    ensures crashed ==> file.lines == old(file.lines)
    ensures !crashed ==> file.lines == Some(SavedFile(userUi, reg.createdButtons + Filter(LoadFile(userUi, old(file.lines)), IsThumbstick)))
    ensures reg.buttonStates == PutAll(old(reg.buttonStates), LoadFileAsWritten(userUi, old(file.lines)).loaded)
    ensures reg.order == PutAllOrder(old(reg.order), LoadFileAsWritten(userUi, old(file.lines)).loaded)
    ensures reg.configureControls == old(reg.configureControls) && reg.editMode == old(reg.editMode)
    ensures reg.isScaleView == old(reg.isScaleView)
  {
    reg.RemoveCreated(buttonId);
    var remaining := reg.createdButtons;
    var stored;
    stored, crashed := LoadButtonState(userUi, file, reg);
    if crashed {
      return;
    }
    SaveButtonState(userUi, file, remaining + Filter(stored, IsThumbstick));
  }

  /** `deleteButton` as evidently intended: as written, and the entry also leaves the registry. */
  method DeleteButtonCorrected(userUi: string, file: ConfigFile, reg: UIStateManager, buttonId: int) returns (crashed: bool)
    requires reg.Valid()
    modifies reg, file
    ensures reg.Valid()
    ensures reg.createdButtons == WithoutId(old(reg.createdButtons), buttonId)
    ensures crashed == LoadFileAsWritten(userUi, old(file.lines)).crashed
    ensures crashed ==> file.lines == old(file.lines)
    ensures crashed ==> reg.buttonStates == PutAll(old(reg.buttonStates), LoadFileAsWritten(userUi, old(file.lines)).loaded)
    ensures !crashed ==> file.lines == Some(SavedFile(userUi, reg.createdButtons + Filter(LoadFile(userUi, old(file.lines)), IsThumbstick)))
    ensures !crashed ==> reg.buttonStates == PutAll(old(reg.buttonStates), LoadFile(userUi, old(file.lines))) - {buttonId}
    ensures !crashed ==> buttonId !in reg.buttonStates
    ensures reg.configureControls == old(reg.configureControls) && reg.editMode == old(reg.editMode)
    ensures reg.isScaleView == old(reg.isScaleView)
  {
    LoadFileAsWrittenAgrees(userUi, file.lines);
    crashed := DeleteButton(userUi, file, reg, buttonId);
    if !crashed {
      reg.RemoveState(buttonId);
    }
  }

  // ---------------------------------------------------------------------------
  // Properties

  /**
   * Every button on screen after a load has its entry in the registry, so
   * composing it finds that entry and its seed is never used.
   */
  lemma LoadedButtonsRegistered(userUi: string, file: Option<seq<string>>)
    ensures forall b | b in Filter(LoadFile(userUi, file), IsUserButton) :: b.id in PutAll(map[], LoadFile(userUi, file))
  {
    var loaded := LoadFile(userUi, file);
    PutAllKeys(map[], loaded);
    forall b | b in Filter(loaded, IsUserButton) ensures b.id in PutAll(map[], loaded) {
      var j :| 0 <= j < |loaded| && loaded[j] == b;
    }
  }

  /** The thumbstick a screen keeps is the first thumbstick line of the file. */
  lemma ThumbstickIsFirstStored(userUi: string, file: Option<seq<string>>)
    ensures Seqs.Find(LoadFile(userUi, file), IsThumbstick)
         == if Filter(LoadFile(userUi, file), IsThumbstick) == [] then None else Some(Filter(LoadFile(userUi, file), IsThumbstick)[0])
  {
    FindIsFirstOfFilter(LoadFile(userUi, file), IsThumbstick);
  }

  /** The layout a delete writes: the remaining buttons, then the stored thumbsticks. */
  function DeletedLayout(created: seq<ButtonState>, buttonId: int, stored: seq<ButtonState>): seq<ButtonState> {
    WithoutId(created, buttonId) + Filter(stored, IsThumbstick)
  }

  lemma {:induction false} DeletedLayoutGroups(created: seq<ButtonState>, buttonId: int, stored: seq<ButtonState>)
    requires forall b | b in created :: IsUserButton(b)
    ensures Filter(DeletedLayout(created, buttonId, stored), IsUserButton) == WithoutId(created, buttonId)
    ensures Filter(DeletedLayout(created, buttonId, stored), IsThumbstick) == Filter(stored, IsThumbstick)
  {
    var rest, sticks := WithoutId(created, buttonId), Filter(stored, IsThumbstick);
    FilterAppend(rest, sticks, IsUserButton);
    FilterAppend(rest, sticks, IsThumbstick);
    forall i | 0 <= i < |rest| ensures IsUserButton(rest[i]) && !IsThumbstick(rest[i]) {
      assert rest[i] in rest;
    }
    forall i | 0 <= i < |sticks| ensures !IsUserButton(sticks[i]) {
      assert sticks[i] in sticks;
    }
    FilterAll(rest, IsUserButton);
    FilterNone(rest, IsThumbstick);
    FilterNone(sticks, IsUserButton);
    FilterIdempotent(stored, IsThumbstick);
  }

  /**
   * After a delete the file reads back with exactly the remaining buttons,
   * none of them with the deleted id, and with the stored thumbsticks
   * unchanged.
   */
  lemma DeleteRewritesFile(userUi: string, file: Option<seq<string>>, created: seq<ButtonState>, buttonId: int)
    requires NoLineTerminator(userUi)
    requires forall b | b in created :: IsUserButton(b) && Persistable(userUi, b)
    ensures var reread := LoadFile(userUi, Some(SavedFile(userUi, DeletedLayout(created, buttonId, LoadFile(userUi, file)))));
            Filter(reread, IsUserButton) == WithoutId(created, buttonId)
            && (forall b | b in Filter(reread, IsUserButton) :: b.id != buttonId)
            && Filter(reread, IsThumbstick) == Filter(LoadFile(userUi, file), IsThumbstick)
  {
    var stored := LoadFile(userUi, file);
    var layout := DeletedLayout(created, buttonId, stored);
    LoadedArePersistable(userUi, file);
    assert forall b | b in layout :: Persistable(userUi, b);
    LoadSavedFile(userUi, layout);
    SaveOrderKeepsGroups(layout);
    DeletedLayoutGroups(created, buttonId, stored);
  }

  /** Any control in the registry is among the values a save writes. */
  lemma EntryAmongValues(m: map<int, ButtonState>, order: seq<int>, id: int)
    requires WellOrdered(m, order) && id in m
    ensures m[id] in ValuesOf(m, order)
  {
    var j :| 0 <= j < |order| && order[j] == id;
    assert ValuesOf(m, order)[j] == m[id];
  }

  /** A control in the registry is written by any save and reads back as a user button of its id. */
  lemma RegisteredIdWrittenBack(userUi: string, m: map<int, ButtonState>, order: seq<int>, id: int)
    requires WellOrdered(m, order) && KeysMatchIds(m) && id in m && !IsThumbstickId(id)
    requires forall i | 0 <= i < |order| :: Persistable(userUi, m[order[i]])
    ensures exists b | b in Filter(LoadFile(userUi, Some(SavedFile(userUi, ValuesOf(m, order)))), IsUserButton) :: b.id == id
  {
    var values := ValuesOf(m, order);
    EntryAmongValues(m, order, id);
    var b := m[id];
    forall v | v in values ensures Persistable(userUi, v) {
      var i :| 0 <= i < |values| && values[i] == v;
    }
    LoadSavedFile(userUi, values);
    SaveOrderPermutation(values);
    assert b in multiset(SaveOrder(values));
    assert b in Filter(SaveOrder(values), IsUserButton);
  }

  /**
   * The deleted button comes back (as written): the delete leaves its id in
   * the registry, a later `saveState` of any control keeps every id, and the
   * file that save writes reads back with a user button of the deleted id.
   */
  lemma DeletedButtonReturns(userUi: string, m: map<int, ButtonState>, stored: seq<ButtonState>, buttonId: int,
                             widgetId: int, saved: ButtonState, after: map<int, ButtonState>, order: seq<int>)
    requires buttonId in m && !IsThumbstickId(buttonId)
    requires after == Replace(Replace(PutAll(m, stored), widgetId, saved), saved.id, saved)
    requires WellOrdered(after, order) && KeysMatchIds(after)
    requires forall i | 0 <= i < |order| :: Persistable(userUi, after[order[i]])
    ensures buttonId in after
    ensures exists b | b in Filter(LoadFile(userUi, Some(SavedFile(userUi, ValuesOf(after, order)))), IsUserButton) :: b.id == buttonId
  {
    PutAllKeys(m, stored);
    RegisteredIdWrittenBack(userUi, after, order, buttonId);
  }

  /**
   * With the corrected delete the button stays deleted: no later save of a
   * control filed under its own id writes an entry with the deleted id.
   */
  lemma CorrectedDeleteStaysDeleted(m: map<int, ButtonState>, order: seq<int>, buttonId: int, widgetId: int, saved: ButtonState)
    requires KeysMatchIds(m) && buttonId !in m && saved.id == widgetId
    requires WellOrdered(Replace(Replace(m, widgetId, saved), saved.id, saved), order)
    ensures forall v | v in ValuesOf(Replace(Replace(m, widgetId, saved), saved.id, saved), order) :: v.id != buttonId
  {
    var after := Replace(Replace(m, widgetId, saved), saved.id, saved);
    var values := ValuesOf(after, order);
    forall v | v in values ensures v.id != buttonId {
      var i :| 0 <= i < |values| && values[i] == v;
      var k := order[i];
      assert k in m;
    }
  }
}
