/**
 * A user button on screen (`ResizableDraggableButton`): it takes its entry
 * from the registry, seeding one when the id is new, keeps its own size,
 * offsets, colour and alpha while the user edits them, and writes them back
 * with `saveState`, which also rewrites the layout file. Touching the button
 * sends its key to the engine; Shift and Alt latch. The icon picker sets or
 * removes a button's icon, and `keyCodeToChar` gives the button its label.
 */
module DynamicButtons {
  import opened Wrappers
  import opened Text
  import opened Decimals
  import opened ButtonModel
  import opened KeyCodes
  import opened KeyPicker
  import opened ControlSize
  import opened LayoutCodec
  import opened LayoutFile
  import opened StateManager
  import opened Widget

  /** The size step of "+" and "-". */
  const SIZE_STEP := 10

  /** The entry a new button id is seeded with: size 60 at (0, 0), black at alpha 0.25, with the icon found on disk if any. */
  function ButtonSeed(id: int, keyCode: int, icon: Option<string>): (b: ButtonState)
    ensures b.id == id && b.keyCode == keyCode && b.uri == icon && !b.isLocked && b.color == "Black"
    ensures Value(b.size) == 60.0 && Value(b.offsetX) == 0.0 && Value(b.offsetY) == 0.0 && Value(b.alpha) == 0.25
  {
    ButtonState(id, FromInt(60), FromInt(0), FromInt(0), false, keyCode, "Black", Decimal(25, 2), icon)
  }

  // ---------------------------------------------------------------------------
  // Key events

  /** What one touch-down sends: the events, the latch state after it, and whether it stops at the unfinished branch. */
  datatype PressOutcome = PressOutcome(events: seq<KeyEvent>, pressed: bool, crashed: bool)

  /**
   * The events of a touch-down on a button with key `k`. A latching key
   * toggles and sends the matching event; any other key is tapped. Z then
   * also holds Z and Enter and, in the scaled view, reaches an unfinished
   * branch that throws; E also holds E.
   */
  function PressEvents(k: int, wasPressed: bool, isScaleView: bool): (r: PressOutcome)
    ensures r.crashed <==> k == KEYCODE_Z && isScaleView
    ensures IsToggleKey(k) ==> r.pressed == !wasPressed && r.events == [if r.pressed then Down(k) else Up(k)]
    ensures !IsToggleKey(k) ==> r.pressed == wasPressed && |r.events| >= 2 && r.events[..2] == [Down(k), Up(k)]
    ensures forall e | e in r.events :: e.code == k || e == Down(KEYCODE_ENTER)
  {
    var tap := if IsToggleKey(k) then [if !wasPressed then Down(k) else Up(k)] else [Down(k), Up(k)];
    var pressed := if IsToggleKey(k) then !wasPressed else wasPressed;
    if k == KEYCODE_Z then
      if isScaleView then PressOutcome(tap + [Down(k), Down(KEYCODE_ENTER)], pressed, true)
      else PressOutcome(tap + [Down(k), Down(KEYCODE_ENTER), Down(KEYCODE_ENTER)], pressed, false)
    else if k == KEYCODE_E then PressOutcome(tap + [Down(k)], pressed, false)
    else PressOutcome(tap, pressed, false)
  }

  /** The events of a release: a key-up, except for the latching keys. */
  function ReleaseEvents(k: int): (events: seq<KeyEvent>)
    ensures IsToggleKey(k) <==> events == []
    ensures !IsToggleKey(k) ==> events == [Up(k)]
  {
    if IsToggleKey(k) then [] else [Up(k)]
  }

  /** Two presses of a latching key send its down and its up, in that order from released, and leave it as it was. */
  lemma ToggleTwice(k: int, wasPressed: bool, isScaleView: bool)
    requires IsToggleKey(k)
    ensures var first := PressEvents(k, wasPressed, isScaleView);
            var second := PressEvents(k, first.pressed, isScaleView);
            second.pressed == wasPressed && !first.crashed && !second.crashed
            && first.events + second.events == if wasPressed then [Up(k), Down(k)] else [Down(k), Up(k)]
  {
  }

  /** A tap of a plain key sends one key-down and, with the release, two key-ups. */
  lemma TapThenRelease(k: int, wasPressed: bool, isScaleView: bool)
    requires !IsToggleKey(k) && k != KEYCODE_Z && k != KEYCODE_E
    ensures PressEvents(k, wasPressed, isScaleView).events + ReleaseEvents(k) == [Down(k), Up(k), Up(k)]
  {
  }

  // ---------------------------------------------------------------------------
  // Labels

  /** `Int.toChar()` keeps the low 16 bits; a lone surrogate shows as U+FFFD. */
  function CharOfCode(n: int): (s: string)
    ensures |s| == 1
  {
    var u := n % 0x1_0000;
    if 0xD800 <= u < 0xE000 then "�" else [u as char]
  }

  /** `keyCodeToChar`: the label a button shows for its key. */
  function KeyCodeToChar(k: int): string {
    if KEYCODE_F1 <= k <= KEYCODE_F12 then "F" + NatToString(k - KEYCODE_F1 + 1)
    else if k == KEYCODE_SHIFT_LEFT then "Shift-L"
    else if k == KEYCODE_SHIFT_RIGHT then "Shift-R"
    else if k == KEYCODE_CTRL_LEFT then "Ctrl-L"
    else if k == KEYCODE_CTRL_RIGHT then "Ctrl-R"
    else if k == KEYCODE_ALT_LEFT then "Alt-L"
    else if k == KEYCODE_ALT_RIGHT then "Alt-R"
    else if k == KEYCODE_SPACE then "Space"
    else if k == KEYCODE_ESCAPE then "Escape"
    else if k == KEYCODE_ENTER then "Enter"
    else if k == KEYCODE_GRAVE then "Grave"
    else CharOfCode(k - KEYCODE_A + 'A' as int)
  }

  /** The letter keys show their letter: codes 29 to 54 give "A" to "Z". */
  lemma LetterLabels(k: int)
    requires KEYCODE_A <= k < KEYCODE_A + 26
    ensures KeyCodeToChar(k) == [('A' as int + (k - KEYCODE_A)) as char]
  {
  }

  /** Distinct letter keys show distinct labels. */
  lemma LetterLabelsInjective(k: int, l: int)
    requires KEYCODE_A <= k < KEYCODE_A + 26 && KEYCODE_A <= l < KEYCODE_A + 26
    requires KeyCodeToChar(k) == KeyCodeToChar(l)
    ensures k == l
  {
    LetterLabels(k);
    LetterLabels(l);
    assert KeyCodeToChar(k)[0] == KeyCodeToChar(l)[0];
  }

  /** A button shows the label the key picker showed for its key, except the grave key, labelled "Grave" instead of "`". */
  lemma LabelsMatchPicker(k: int)
    ensures KEYCODE_F1 <= k <= KEYCODE_F12 ==> KeyCodeToChar(k) == FunctionKeyLabel(k)
    ensures k in AdditionalKeyCodes && k != KEYCODE_GRAVE ==> KeyCodeToChar(k) == AdditionalKeyLabel(k)
    ensures k == KEYCODE_GRAVE ==> KeyCodeToChar(k) == "Grave" && AdditionalKeyLabel(k) == "`"
  {
  }

  // ---------------------------------------------------------------------------
  // The widget

  /** Composing a button: its control state comes from the registry, seeded with `ButtonSeed` when the id is new. */
  method ComposeButton(reg: UIStateManager, id: int, keyCode: int, icon: Option<string>) returns (w: ControlWidget, keys: KeyButton)
    requires reg.Valid()
    modifies reg
    ensures fresh(w) && fresh(keys) && reg.Valid()
    ensures w.id == id && w.sizeStep == SIZE_STEP && keys.keyCode == keyCode && !keys.isPressed
    ensures id in old(reg.buttonStates) ==> w.captured == old(reg.buttonStates)[id] && reg.buttonStates == old(reg.buttonStates) && reg.order == old(reg.order)
    ensures id !in old(reg.buttonStates) ==> w.captured == ButtonSeed(id, keyCode, icon) && reg.buttonStates == old(reg.buttonStates)[id := w.captured] && reg.order == old(reg.order) + [id]
    ensures w.buttonSize == w.captured.size && w.offsetX == w.captured.offsetX && w.offsetY == w.captured.offsetY
    ensures w.color == ToColor(w.captured.color) && w.alpha == w.captured.alpha
    ensures reg.createdButtons == old(reg.createdButtons) && reg.editMode == old(reg.editMode)
    ensures reg.configureControls == old(reg.configureControls) && reg.isScaleView == old(reg.isScaleView)
  {
    w := new ControlWidget(reg, id, ButtonSeed(id, keyCode, icon), SIZE_STEP);
    keys := new KeyButton(keyCode);
  }

  /** A drag step in edit mode moves the button and saves at once; outside edit mode nothing happens. */
  method Drag(userUi: string, w: ControlWidget, reg: UIStateManager, file: ConfigFile, dx: Decimal, dy: Decimal)
    requires reg.Valid()
    modifies w, reg, file
    ensures reg.Valid()
    ensures old(reg.editMode) ==> Value(w.offsetX) == Value(old(w.offsetX)) + Value(dx) && Value(w.offsetY) == Value(old(w.offsetY)) + Value(dy)
    ensures old(reg.editMode) ==> reg.buttonStates == Replace(Replace(old(reg.buttonStates), w.id, w.SavedEntry()), w.captured.id, w.SavedEntry())
    ensures old(reg.editMode) ==> file.lines == Some(SavedFile(userUi, reg.Values()))
    ensures !old(reg.editMode) ==> w.offsetX == old(w.offsetX) && w.offsetY == old(w.offsetY)
    ensures !old(reg.editMode) ==> reg.buttonStates == old(reg.buttonStates) && file.lines == old(file.lines)
    ensures w.buttonSize == old(w.buttonSize) && w.color == old(w.color) && w.alpha == old(w.alpha)
    ensures reg.order == old(reg.order) && reg.createdButtons == old(reg.createdButtons) && reg.editMode == old(reg.editMode)
    ensures reg.configureControls == old(reg.configureControls) && reg.isScaleView == old(reg.isScaleView)
  {
    if reg.editMode {
      w.Move(reg, dx, dy);
      w.SaveState(userUi, reg, file);
    }
  }

  /** The end of a drag in edit mode puts the button on the grid point it snaps to and saves. */
  method DragEnd(userUi: string, w: ControlWidget, reg: UIStateManager, file: ConfigFile, snappedX: Decimal, snappedY: Decimal)
    requires reg.Valid()
    modifies w, reg, file
    ensures reg.Valid()
    ensures old(reg.editMode) ==> w.offsetX == snappedX && w.offsetY == snappedY
    ensures old(reg.editMode) ==> reg.buttonStates == Replace(Replace(old(reg.buttonStates), w.id, w.SavedEntry()), w.captured.id, w.SavedEntry())
    ensures old(reg.editMode) ==> file.lines == Some(SavedFile(userUi, reg.Values()))
    ensures !old(reg.editMode) ==> w.offsetX == old(w.offsetX) && w.offsetY == old(w.offsetY)
    ensures !old(reg.editMode) ==> reg.buttonStates == old(reg.buttonStates) && file.lines == old(file.lines)
    ensures w.buttonSize == old(w.buttonSize) && w.color == old(w.color) && w.alpha == old(w.alpha)
    ensures reg.order == old(reg.order) && reg.createdButtons == old(reg.createdButtons) && reg.editMode == old(reg.editMode)
    ensures reg.configureControls == old(reg.configureControls) && reg.isScaleView == old(reg.isScaleView)
  {
    if reg.editMode {
      w.Place(snappedX, snappedY);
      w.SaveState(userUi, reg, file);
    }
  }

  /** The key side of a button: its key and, for Shift and Alt, whether it is latched. */
  class KeyButton {
    const keyCode: int
    var isPressed: bool

    constructor(keyCode: int)
      ensures this.keyCode == keyCode && !isPressed
    {
      this.keyCode := keyCode;
      isPressed := false;
    }

    /**
     * A touch-down: unless the controls screen is open, the key events go to
     * the engine. `crashed` reports the unfinished branch for Z in the
     * scaled view, after which nothing more happens.
     */
    method Press(reg: UIStateManager, native: NativeKeys) returns (crashed: bool)
      modifies this, native
      ensures reg.configureControls ==> native.log == old(native.log) && isPressed == old(isPressed) && !crashed
      ensures !reg.configureControls ==>
        var r := PressEvents(keyCode, old(isPressed), reg.isScaleView);
        native.log == old(native.log) + r.events && isPressed == r.pressed && crashed == r.crashed
    {
      crashed := false;
      if reg.configureControls {
        return;
      }
      if IsToggleKey(keyCode) {
        isPressed := !isPressed;
        if isPressed {
          native.KeyDown(keyCode);
        } else {
          native.KeyUp(keyCode);
        }
      } else {
        native.KeyDown(keyCode);
        native.KeyUp(keyCode);
      }
      if keyCode == KEYCODE_Z {
        native.KeyDown(keyCode);
        native.KeyDown(KEYCODE_ENTER);
        if reg.isScaleView {
          crashed := true;
          return;
        }
        native.KeyDown(KEYCODE_ENTER);
      } else if keyCode == KEYCODE_E {
        native.KeyDown(keyCode);
      }
    }

    /** The finger is lifted: a key-up, except for the latching keys. */
    method Release(reg: UIStateManager, native: NativeKeys)
      modifies native
      ensures native.log == old(native.log) + if reg.configureControls then [] else ReleaseEvents(keyCode)
    {
      if !reg.configureControls && !IsToggleKey(keyCode) {
        native.KeyUp(keyCode);
      }
    }
  }

  // ---------------------------------------------------------------------------
  // The icon picker

  /** "Remove Icon": the entry loses its uri and the whole registry is saved. */
  method RemoveIcon(userUi: string, file: ConfigFile, reg: UIStateManager, buttonId: int)
    requires reg.Valid() && buttonId in reg.buttonStates
    modifies reg, file
    ensures reg.Valid()
    ensures reg.buttonStates == old(reg.buttonStates)[buttonId := old(reg.buttonStates)[buttonId].(uri := None)]
    ensures reg.order == old(reg.order) && reg.createdButtons == old(reg.createdButtons) && reg.editMode == old(reg.editMode)
    ensures reg.configureControls == old(reg.configureControls) && reg.isScaleView == old(reg.isScaleView)
    ensures file.lines == Some(SavedFile(userUi, reg.Values()))
  {
    reg.UpdateButtonState(buttonId, reg.buttonStates[buttonId].(uri := None));
    SaveButtonState(userUi, file, reg.Values());
  }

  /**
   * The icon button: with an icon it removes it; without one it opens the
   * picker and, when the picked image was copied to `copied`, records that
   * path in the registry without saving the file.
   */
  method IconButton(userUi: string, file: ConfigFile, reg: UIStateManager, buttonId: int, copied: Option<string>)
    requires reg.Valid()
    modifies reg, file
    ensures reg.Valid()
    ensures buttonId in old(reg.buttonStates) && old(reg.buttonStates)[buttonId].uri.Some? ==>
      reg.buttonStates == old(reg.buttonStates)[buttonId := old(reg.buttonStates)[buttonId].(uri := None)]
      && file.lines == Some(SavedFile(userUi, reg.Values()))
    ensures buttonId in old(reg.buttonStates) && old(reg.buttonStates)[buttonId].uri.None? && copied.Some? ==>
      reg.buttonStates == old(reg.buttonStates)[buttonId := old(reg.buttonStates)[buttonId].(uri := copied)]
      && file.lines == old(file.lines)
    ensures (buttonId !in old(reg.buttonStates) || old(reg.buttonStates)[buttonId].uri.None?) && (copied.None? || buttonId !in old(reg.buttonStates)) ==>
      reg.buttonStates == old(reg.buttonStates) && file.lines == old(file.lines)
    ensures reg.order == old(reg.order) && reg.createdButtons == old(reg.createdButtons) && reg.editMode == old(reg.editMode)
    ensures reg.configureControls == old(reg.configureControls) && reg.isScaleView == old(reg.isScaleView)
  {
    if buttonId in reg.buttonStates && reg.buttonStates[buttonId].uri.Some? {
      RemoveIcon(userUi, file, reg, buttonId);
    } else if copied.Some? {
      reg.SaveImageUri(buttonId, copied.value);
    }
  }

  /** A removed icon stays removed: the entry's line reads back without a uri. */
  lemma RemovedIconStaysRemoved(userUi: string, b: ButtonState)
    requires Encodable(userUi, b)
    ensures DecodeLine(userUi, EncodeLine(userUi, b.(uri := None))) == Some(b.(uri := None))
  {
    DecodeEncode(userUi, b.(uri := None));
  }
}
