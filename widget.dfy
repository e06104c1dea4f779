/**
 * The state every on-screen control keeps while it is shown: the registry
 * entry it was composed from, and its own size, offsets, colour and alpha.
 * Buttons and both thumbsticks write this state back the same way
 * (`saveState`): a copy of the entry with the five edited fields goes into
 * the registry, and the whole registry is saved to the layout file.
 */
module Widget {
  import opened Wrappers
  import opened Decimals
  import opened ButtonModel
  import opened ControlSize
  import opened LayoutFile
  import opened StateManager

  class ControlWidget {
    /** The id the control was composed with. */
    const id: int
    /** The size step of the control's "+" and "-" buttons. */
    const sizeStep: nat
    /** The registry entry read when the control was composed. */
    const captured: ButtonState
    var buttonSize: Decimal
    var offsetX: Decimal
    var offsetY: Decimal
    var color: Color
    var alpha: Decimal

    /** The entry `saveState` writes: the captured entry with the control's size, offsets, colour and alpha. */
    function SavedEntry(): (b: ButtonState)
      reads this
      ensures b.id == captured.id && b.isLocked == captured.isLocked && b.keyCode == captured.keyCode && b.uri == captured.uri
      ensures b.size == buttonSize && b.offsetX == offsetX && b.offsetY == offsetY && b.alpha == alpha
      ensures b.color == ToColorString(color)
    {
      captured.(size := buttonSize, offsetX := offsetX, offsetY := offsetY, color := ToColorString(color), alpha := alpha)
    }

    /**
     * Composing the control: `getOrPut` inserts `seed` when the id is new and
     * returns the stored entry otherwise; the control state starts from the
     * entry, its colour read through `toColor`.
     */
    constructor(reg: UIStateManager, id: int, seed: ButtonState, sizeStep: nat)
      requires reg.Valid()
      modifies reg
      ensures reg.Valid()
      ensures this.id == id && this.sizeStep == sizeStep
      ensures id in old(reg.buttonStates) ==> captured == old(reg.buttonStates)[id] && reg.buttonStates == old(reg.buttonStates) && reg.order == old(reg.order)
      ensures id !in old(reg.buttonStates) ==> captured == seed && reg.buttonStates == old(reg.buttonStates)[id := seed] && reg.order == old(reg.order) + [id]
      ensures buttonSize == captured.size && offsetX == captured.offsetX && offsetY == captured.offsetY
      ensures color == ToColor(captured.color) && alpha == captured.alpha
      ensures reg.createdButtons == old(reg.createdButtons) && reg.editMode == old(reg.editMode)
      ensures reg.configureControls == old(reg.configureControls) && reg.isScaleView == old(reg.isScaleView)
    {
      var b := reg.GetOrPut(id, seed);
      this.id := id;
      this.sizeStep := sizeStep;
      captured := b;
      buttonSize := b.size;
      offsetX := b.offsetX;
      offsetY := b.offsetY;
      color := ToColor(b.color);
      alpha := b.alpha;
    }

    /** `saveState`: the entry goes into the registry under the control's id and under the entry's own id, then the file is rewritten. */
    method SaveState(userUi: string, reg: UIStateManager, file: ConfigFile)
      requires reg.Valid()
      modifies reg, file
      ensures reg.Valid()
      ensures reg.buttonStates == Replace(Replace(old(reg.buttonStates), id, SavedEntry()), captured.id, SavedEntry())
      ensures reg.order == old(reg.order) && reg.createdButtons == old(reg.createdButtons) && reg.editMode == old(reg.editMode)
      ensures reg.configureControls == old(reg.configureControls) && reg.isScaleView == old(reg.isScaleView)
      ensures file.lines == Some(SavedFile(userUi, reg.Values()))
    {
      var updated := SavedEntry();
      reg.UpdateButtonState(id, updated);
      reg.UpdateButtonState(captured.id, updated);
      SaveButtonState(userUi, file, reg.Values());
    }

    /** "+": one step larger, with no upper bound, then saved. */
    method Grow(userUi: string, reg: UIStateManager, file: ConfigFile)
      requires reg.Valid()
      modifies this, reg, file
      ensures reg.Valid()
      ensures Value(buttonSize) == Value(old(buttonSize)) + sizeStep as real
      ensures offsetX == old(offsetX) && offsetY == old(offsetY) && color == old(color) && alpha == old(alpha)
      ensures reg.buttonStates == Replace(Replace(old(reg.buttonStates), id, SavedEntry()), captured.id, SavedEntry())
      ensures reg.order == old(reg.order) && reg.createdButtons == old(reg.createdButtons) && reg.editMode == old(reg.editMode)
      ensures reg.configureControls == old(reg.configureControls) && reg.isScaleView == old(reg.isScaleView)
      ensures file.lines == Some(SavedFile(userUi, reg.Values()))
    {
      buttonSize := ControlSize.Grow(buttonSize, sizeStep);
      SaveState(userUi, reg, file);
    }

    /** "-": one step smaller but not below 50, then saved. */
    method Shrink(userUi: string, reg: UIStateManager, file: ConfigFile)
      requires reg.Valid()
      modifies this, reg, file
      ensures reg.Valid()
      ensures Value(buttonSize) >= MIN_SIZE as real
      ensures Value(buttonSize) == if Value(old(buttonSize)) - sizeStep as real < MIN_SIZE as real then MIN_SIZE as real
                                   else Value(old(buttonSize)) - sizeStep as real
      ensures offsetX == old(offsetX) && offsetY == old(offsetY) && color == old(color) && alpha == old(alpha)
      ensures reg.buttonStates == Replace(Replace(old(reg.buttonStates), id, SavedEntry()), captured.id, SavedEntry())
      ensures reg.order == old(reg.order) && reg.createdButtons == old(reg.createdButtons) && reg.editMode == old(reg.editMode)
      ensures reg.configureControls == old(reg.configureControls) && reg.isScaleView == old(reg.isScaleView)
      ensures file.lines == Some(SavedFile(userUi, reg.Values()))
    {
      buttonSize := ControlSize.Shrink(buttonSize, sizeStep);
      SaveState(userUi, reg, file);
    }

    /** A drag step under the edit-mode modifier moves the control by the drag amount; without the modifier nothing moves. */
    method Move(reg: UIStateManager, dx: Decimal, dy: Decimal)
      modifies this
      ensures reg.editMode ==> Value(offsetX) == Value(old(offsetX)) + Value(dx) && Value(offsetY) == Value(old(offsetY)) + Value(dy)
      ensures !reg.editMode ==> offsetX == old(offsetX) && offsetY == old(offsetY)
      ensures buttonSize == old(buttonSize) && color == old(color) && alpha == old(alpha)
    {
      if reg.editMode {
        AddValue(offsetX, dx);
        AddValue(offsetY, dy);
        offsetX := Add(offsetX, dx);
        offsetY := Add(offsetY, dy);
      }
    }

    /** The end of a drag under the edit-mode modifier saves the control where the drag left it; without the modifier there is no drag. */
    method SaveAfterDrag(userUi: string, reg: UIStateManager, file: ConfigFile)
      requires reg.Valid()
      modifies reg, file
      ensures reg.Valid()
      ensures old(reg.editMode) ==> reg.buttonStates == Replace(Replace(old(reg.buttonStates), id, SavedEntry()), captured.id, SavedEntry())
      ensures old(reg.editMode) ==> file.lines == Some(SavedFile(userUi, reg.Values()))
      ensures !old(reg.editMode) ==> reg.buttonStates == old(reg.buttonStates) && file.lines == old(file.lines)
      ensures reg.order == old(reg.order) && reg.createdButtons == old(reg.createdButtons) && reg.editMode == old(reg.editMode)
      ensures reg.configureControls == old(reg.configureControls) && reg.isScaleView == old(reg.isScaleView)
    {
      if reg.editMode {
        SaveState(userUi, reg, file);
      }
    }

    /** Placing the control at given offsets (the grid point a drag snaps to). */
    method Place(x: Decimal, y: Decimal)
      modifies this
      ensures offsetX == x && offsetY == y
      ensures buttonSize == old(buttonSize) && color == old(color) && alpha == old(alpha)
    {
      offsetX := x;
      offsetY := y;
    }

    /** Picking a palette colour changes the control only; the OK button saves. */
    method PickColor(c: Color)
      modifies this
      ensures color == c
      ensures buttonSize == old(buttonSize) && offsetX == old(offsetX) && offsetY == old(offsetY) && alpha == old(alpha)
    {
      color := c;
    }

    /** Moving the alpha slider changes the control only; the OK button saves. */
    method SetAlpha(a: Decimal)
      modifies this
      ensures alpha == a
      ensures buttonSize == old(buttonSize) && offsetX == old(offsetX) && offsetY == old(offsetY) && color == old(color)
    {
      alpha := a;
    }
  }

  // ---------------------------------------------------------------------------
  // Properties of a save

  /**
   * A save keeps the entry's id, lock, key and icon and changes only the
   * five edited fields: when the registry files every entry under its own
   * id and the control was composed from the entry under its id, the two
   * updates of `saveState` are one replacement of that entry, and the
   * registry still files every entry under its own id.
   */
  lemma SaveStateReplacesOwnEntry(m: map<int, ButtonState>, id: int, captured: ButtonState, saved: ButtonState)
    requires KeysMatchIds(m) && id in m && captured == m[id]
    requires saved.id == captured.id
    ensures Replace(Replace(m, id, saved), captured.id, saved) == m[id := saved]
    ensures KeysMatchIds(m[id := saved])
  {
  }
}
