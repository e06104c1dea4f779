/**
 * The right thumbstick (`ResizableDraggableRightThumbstick`): a control like
 * the others, 200 dp at (300, 300) by default and stepped by 20 dp, whose
 * touch moves the mouse. It remembers where the finger is (`touchOffset`,
 * in pixels from the top-left corner of its box) and draws its knob there;
 * when the finger is lifted the knob goes back to the centre.
 */
module RightThumbstick {
  import opened Wrappers
  import opened Decimals
  import opened ButtonModel
  import opened StateManager
  import opened Widget
  import opened LeftThumbstick

  /** The entry a new right thumbstick is seeded with; its key code is always 98, whatever the id. */
  function RightStickSeed(id: int): (b: ButtonState)
    ensures b.id == id && b.keyCode == RIGHT_THUMBSTICK_ID && b.uri.None? && !b.isLocked && b.color == "Black"
    ensures Value(b.size) == 200.0 && Value(b.offsetX) == 300.0 && Value(b.offsetY) == 300.0 && Value(b.alpha) == 0.25
  {
    ButtonState(id, FromInt(200), FromInt(300), FromInt(300), false, RIGHT_THUMBSTICK_ID, "Black", Decimal(25, 2), None)
  }

  /** The centre of the stick's box in pixels, for a size in dp and a screen density. */
  function Centre(size: Decimal, density: real): real {
    Value(size) * density / 2.0
  }

  /**
   * Where the knob is drawn, in dp from the centre: the touch offset from the
   * centre, scaled back by the density and kept within the radius. The radius
   * the source clamps to is the half size in pixels (`radiusPx`), although the
   * value clamped is in dp.
   */
  function KnobOffset(touch: real, size: Decimal, density: real): (k: real)
    requires density > 0.0 && Value(size) >= 0.0
    ensures -Centre(size, density) <= k <= Centre(size, density)
  {
    Clamp((touch - Centre(size, density)) / density, -Centre(size, density), Centre(size, density))
  }

  /** The touch state of the right thumbstick. */
  class RightStick {
    var touchX: real
    var touchY: real

    /** The knob starts at the centre. */
    constructor(centre: real)
      ensures touchX == centre && touchY == centre
    {
      touchX, touchY := centre, centre;
    }

    /** The finger moves while down: the knob follows it, unless the controls screen is open. */
    method Drag(reg: UIStateManager, x: real, y: real)
      modifies this
      ensures reg.configureControls ==> touchX == old(touchX) && touchY == old(touchY)
      ensures !reg.configureControls ==> touchX == x && touchY == y
    {
      if !reg.configureControls {
        touchX, touchY := x, y;
      }
    }

    /** The finger is lifted: the knob goes back to the centre of the box, unless the controls screen is open. */
    method Release(reg: UIStateManager, w: ControlWidget, density: real)
      modifies this
      ensures reg.configureControls ==> touchX == old(touchX) && touchY == old(touchY)
      ensures !reg.configureControls ==> touchX == Centre(w.buttonSize, density) && touchY == Centre(w.buttonSize, density)
    {
      if !reg.configureControls {
        var half := Value(w.buttonSize) * density / 2.0;
        touchX, touchY := half, half;
      }
    }
  }

  /** Composing the right thumbstick: its control state comes from the registry, seeded with `RightStickSeed` when the id is new, and its knob starts at the centre. */
  method ComposeRightStick(reg: UIStateManager, id: int, density: real) returns (w: ControlWidget, stick: RightStick)
    requires reg.Valid()
    modifies reg
    ensures fresh(w) && fresh(stick) && reg.Valid()
    ensures w.id == id && w.sizeStep == STICK_SIZE_STEP
    ensures stick.touchX == Centre(w.buttonSize, density) && stick.touchY == Centre(w.buttonSize, density)
    ensures id in old(reg.buttonStates) ==> w.captured == old(reg.buttonStates)[id] && reg.buttonStates == old(reg.buttonStates) && reg.order == old(reg.order)
    ensures id !in old(reg.buttonStates) ==> w.captured == RightStickSeed(id) && reg.buttonStates == old(reg.buttonStates)[id := w.captured] && reg.order == old(reg.order) + [id]
    ensures w.buttonSize == w.captured.size && w.offsetX == w.captured.offsetX && w.offsetY == w.captured.offsetY
    ensures w.color == ToColor(w.captured.color) && w.alpha == w.captured.alpha
    ensures reg.createdButtons == old(reg.createdButtons) && reg.editMode == old(reg.editMode)
    ensures reg.configureControls == old(reg.configureControls) && reg.isScaleView == old(reg.isScaleView)
  {
    w := new ControlWidget(reg, id, RightStickSeed(id), STICK_SIZE_STEP);
    stick := new RightStick(Value(w.buttonSize) * density / 2.0);
  }

  /** After a release the knob is drawn at the centre. */
  lemma KnobCentredAfterRelease(size: Decimal, density: real)
    requires density > 0.0 && Value(size) >= 0.0
    ensures KnobOffset(Centre(size, density), size, density) == 0.0
  {
  }

  /** The knob is drawn where the finger is, as long as the finger stays within the radius of the centre. */
  lemma {:induction false} KnobFollowsFinger(touch: real, size: Decimal, density: real)
    requires density > 0.0 && Value(size) >= 0.0
    requires -Centre(size, density) * density <= touch - Centre(size, density) <= Centre(size, density) * density
    ensures KnobOffset(touch, size, density) * density == touch - Centre(size, density)
  {
    var c := Centre(size, density);
    var d := (touch - c) / density;
    assert d * density == touch - c;
  }
}
