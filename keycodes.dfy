/**
 * The Android `KeyEvent` key codes the controls use, and the native key
 * calls (`onNativeKeyDown` / `onNativeKeyUp`) as events of a log.
 */
module KeyCodes {

  const KEYCODE_A := 29
  const KEYCODE_D := 32
  const KEYCODE_E := 33
  const KEYCODE_S := 47
  const KEYCODE_W := 51
  const KEYCODE_Z := 54
  const KEYCODE_ALT_LEFT := 57
  const KEYCODE_ALT_RIGHT := 58
  const KEYCODE_SHIFT_LEFT := 59
  const KEYCODE_SHIFT_RIGHT := 60
  const KEYCODE_SPACE := 62
  const KEYCODE_ENTER := 66
  const KEYCODE_GRAVE := 68
  const KEYCODE_ESCAPE := 111
  const KEYCODE_CTRL_LEFT := 113
  const KEYCODE_CTRL_RIGHT := 114
  const KEYCODE_F1 := 131
  const KEYCODE_F12 := 142

  /** One call into the native layer. */
  datatype KeyEvent = Down(code: int) | Up(code: int)

  /** Shift and Alt (left and right) latch: a press toggles them. */
  predicate IsToggleKey(k: int) {
    k == KEYCODE_SHIFT_LEFT || k == KEYCODE_SHIFT_RIGHT || k == KEYCODE_ALT_LEFT || k == KEYCODE_ALT_RIGHT
  }

  /** The movement keys the left thumbstick drives. */
  predicate IsMovementKey(k: int) {
    k == KEYCODE_A || k == KEYCODE_S || k == KEYCODE_D || k == KEYCODE_W
  }

  /** The sink of native key calls: each call appends one event. */
  class NativeKeys {
    var log: seq<KeyEvent>

    constructor()
      ensures log == []
    {
      log := [];
    }

    method KeyDown(k: int)
      modifies this
      ensures log == old(log) + [Down(k)]
    {
      log := log + [Down(k)];
    }

    method KeyUp(k: int)
      modifies this
      ensures log == old(log) + [Up(k)]
    {
      log := log + [Up(k)];
    }
  }
}
