/**
 * The left thumbstick (`ResizableDraggableThumbstick`): a control like the
 * buttons, 200 dp by default and stepped by 20 dp, whose touch drives the
 * movement keys W, A, S and D. Every press or move releases all four and
 * then presses those whose direction lies beyond the dead zone, a fifth of
 * the stick's radius; lifting the finger releases all four.
 */
module LeftThumbstick {
  import opened Wrappers
  import opened Decimals
  import opened ButtonModel
  import opened KeyCodes
  import opened StateManager
  import opened Widget

  /** The size step of the thumbsticks' "+" and "-". */
  const STICK_SIZE_STEP := 20

  /** The entry a new left thumbstick is seeded with: size 200 at (0, 0), black at alpha 0.25, no icon. */
  function LeftStickSeed(id: int, keyCode: int): (b: ButtonState)
    ensures b.id == id && b.keyCode == keyCode && b.uri.None? && !b.isLocked && b.color == "Black"
    ensures Value(b.size) == 200.0 && Value(b.offsetX) == 0.0 && Value(b.offsetY) == 0.0 && Value(b.alpha) == 0.25
  {
    ButtonState(id, FromInt(200), FromInt(0), FromInt(0), false, keyCode, "Black", Decimal(25, 2), None)
  }

  // ---------------------------------------------------------------------------
  // Touch to keys

  /** `coerceIn(lo, hi)`, defined when `lo <= hi`. */
  function Clamp(v: real, lo: real, hi: real): (c: real)
    requires lo <= hi
    ensures lo <= c <= hi
    ensures lo <= v <= hi ==> c == v
    ensures v < lo ==> c == lo
    ensures v > hi ==> c == hi
  {
    if v < lo then lo else if v > hi then hi else v
  }

  /** The dead zone of a stick of radius `r`. */
  function DeadZone(r: real): (dz: real)
    requires r >= 0.0
    ensures 0.0 <= dz <= r
  {
    0.2 * r
  }

  /** The key-ups every press, move and release starts with. */
  const ReleaseAll: seq<KeyEvent> := [Up(KEYCODE_W), Up(KEYCODE_A), Up(KEYCODE_S), Up(KEYCODE_D)]

  /** The key-down of `code` when the condition holds, nothing otherwise. */
  function KeyIf(pressed: bool, code: int): (downs: seq<KeyEvent>)
    ensures Down(code) in downs <==> pressed
    ensures forall e | e in downs :: e == Down(code)
  {
    if pressed then [Down(code)] else []
  }

  /**
   * The key-downs for a touch at (x, y) from the centre: W above the dead
   * zone, S below it, A to its left, D to its right. (The source writes this
   * decision in three `when` branches that are identical.)
   */
  function StickKeys(x: real, y: real, dz: real): (downs: seq<KeyEvent>)
    ensures forall i | 0 <= i < |downs| :: downs[i].Down? && IsMovementKey(downs[i].code)
    ensures Down(KEYCODE_W) in downs <==> y < -dz
    ensures Down(KEYCODE_S) in downs <==> y > dz
    ensures Down(KEYCODE_A) in downs <==> x < -dz
    ensures Down(KEYCODE_D) in downs <==> x > dz
  {
    var w, s := KeyIf(y < -dz, KEYCODE_W), KeyIf(y > dz, KEYCODE_S);
    var a, d := KeyIf(x < -dz, KEYCODE_A), KeyIf(x > dz, KEYCODE_D);
    assert Down(KEYCODE_W) in w + s + a + d <==> Down(KEYCODE_W) in w;
    assert Down(KEYCODE_S) in w + s + a + d <==> Down(KEYCODE_S) in s;
    assert Down(KEYCODE_A) in w + s + a + d <==> Down(KEYCODE_A) in a;
    assert Down(KEYCODE_D) in w + s + a + d <==> Down(KEYCODE_D) in d;
    w + s + a + d
  }

  /** The touch position relative to the centre, clamped to the stick's square. */
  function TouchPoint(loc: real, r: real): (p: real)
    requires r >= 0.0
    ensures -r <= p <= r
  {
    Clamp(loc - r, -r, r)
  }

  /** The events of a press or move at (locX, locY) in the stick's box of radius `r`. */
  function TouchEvents(locX: real, locY: real, r: real): seq<KeyEvent>
    requires r >= 0.0
  {
    ReleaseAll + StickKeys(TouchPoint(locX, r), TouchPoint(locY, r), DeadZone(r))
  }

  /** The four key-ups, sent one by one. */
  method SendReleaseAll(native: NativeKeys)
    modifies native
    ensures native.log == old(native.log) + ReleaseAll
  {
    native.KeyUp(KEYCODE_W);
    native.KeyUp(KEYCODE_A);
    native.KeyUp(KEYCODE_S);
    native.KeyUp(KEYCODE_D);
  }

  /** The key-downs of a touch, sent one by one. */
  method SendStickKeys(native: NativeKeys, x: real, y: real, deadZone: real)
    modifies native
    ensures native.log == old(native.log) + StickKeys(x, y, deadZone)
  {
    ghost var before := native.log;
    PressIf(native, y < -deadZone, KEYCODE_W);
    PressIf(native, y > deadZone, KEYCODE_S);
    PressIf(native, x < -deadZone, KEYCODE_A);
    PressIf(native, x > deadZone, KEYCODE_D);
    assert native.log == before + (KeyIf(y < -deadZone, KEYCODE_W) + KeyIf(y > deadZone, KEYCODE_S)
      + KeyIf(x < -deadZone, KEYCODE_A) + KeyIf(x > deadZone, KEYCODE_D));
  }

  /** One direction of the stick: its key goes down when the touch is past the dead zone that way. */
  method PressIf(native: NativeKeys, pressed: bool, code: int)
    modifies native
    ensures native.log == old(native.log) + KeyIf(pressed, code)
  {
    if pressed {
      native.KeyDown(code);
    }
  }

  /** The touch state of the left thumbstick, relative to its centre. */
  class LeftStick {
    var touchX: real
    var touchY: real

    constructor()
      ensures touchX == 0.0 && touchY == 0.0
    {
      touchX, touchY := 0.0, 0.0;
    }

    /** A press or a move: the clamped position is kept and the keys go to the engine, unless the controls screen is open. */
    method Touch(reg: UIStateManager, native: NativeKeys, locX: real, locY: real, r: real)
      requires r >= 0.0
      modifies this, native
      ensures reg.configureControls ==> touchX == old(touchX) && touchY == old(touchY) && native.log == old(native.log)
      ensures !reg.configureControls ==> touchX == TouchPoint(locX, r) && touchY == TouchPoint(locY, r)
      ensures !reg.configureControls ==> native.log == old(native.log) + TouchEvents(locX, locY, r)
    {
      if reg.configureControls {
        return;
      }
      touchX := TouchPoint(locX, r);
      touchY := TouchPoint(locY, r);
      SendReleaseAll(native);
      SendStickKeys(native, touchX, touchY, DeadZone(r));
      assert native.log == old(native.log) + ReleaseAll + StickKeys(touchX, touchY, DeadZone(r));
    }

    /** Release or exit: the touch returns to the centre and all four keys are released, unless the controls screen is open. */
    method Lift(reg: UIStateManager, native: NativeKeys)
      modifies this, native
      ensures reg.configureControls ==> touchX == old(touchX) && touchY == old(touchY) && native.log == old(native.log)
      ensures !reg.configureControls ==> touchX == 0.0 && touchY == 0.0 && native.log == old(native.log) + ReleaseAll
    {
      if reg.configureControls {
        return;
      }
      touchX, touchY := 0.0, 0.0;
      SendReleaseAll(native);
    }
  }

  /** Composing the left thumbstick: its control state comes from the registry, seeded with `LeftStickSeed` when the id is new. */
  method ComposeLeftStick(reg: UIStateManager, id: int, keyCode: int) returns (w: ControlWidget, stick: LeftStick)
    requires reg.Valid()
    modifies reg
    ensures fresh(w) && fresh(stick) && reg.Valid()
    ensures w.id == id && w.sizeStep == STICK_SIZE_STEP && stick.touchX == 0.0 && stick.touchY == 0.0
    ensures id in old(reg.buttonStates) ==> w.captured == old(reg.buttonStates)[id] && reg.buttonStates == old(reg.buttonStates) && reg.order == old(reg.order)
    ensures id !in old(reg.buttonStates) ==> w.captured == LeftStickSeed(id, keyCode) && reg.buttonStates == old(reg.buttonStates)[id := w.captured] && reg.order == old(reg.order) + [id]
    ensures w.buttonSize == w.captured.size && w.offsetX == w.captured.offsetX && w.offsetY == w.captured.offsetY
    ensures w.color == ToColor(w.captured.color) && w.alpha == w.captured.alpha
    ensures reg.createdButtons == old(reg.createdButtons) && reg.editMode == old(reg.editMode)
    ensures reg.configureControls == old(reg.configureControls) && reg.isScaleView == old(reg.isScaleView)
  {
    w := new ControlWidget(reg, id, LeftStickSeed(id, keyCode), STICK_SIZE_STEP);
    stick := new LeftStick();
  }

  // ---------------------------------------------------------------------------
  // Which keys the engine holds

  /** Whether the engine holds key `k` after the events of `log`: the last event for `k` is a key-down. */
  function Held(log: seq<KeyEvent>, k: int): bool
    decreases |log|
  {
    if log == [] then false
    else if log[|log| - 1].code == k then log[|log| - 1].Down?
    else Held(log[..|log| - 1], k)
  }

  /** Some event of `b` concerns key `k`. */
  predicate Mentions(b: seq<KeyEvent>, k: int) {
    exists i | 0 <= i < |b| :: b[i].code == k
  }

  /** The state of a key after `a + b` is its state after `b` when `b` concerns it, and after `a` otherwise. */
  lemma {:induction false} HeldAppend(a: seq<KeyEvent>, b: seq<KeyEvent>, k: int)
    ensures Held(a + b, k) == if Mentions(b, k) then Held(b, k) else Held(a, k)
    decreases |b|
  {
    if b == [] {
      assert a + b == a;
    } else {
      var init := b[..|b| - 1];
      assert (a + b)[..|a + b| - 1] == a + init;
      assert (a + b)[|a + b| - 1] == b[|b| - 1];
      HeldAppend(a, init, k);
      if b[|b| - 1].code != k {
        assert Mentions(b, k) <==> Mentions(init, k) by {
          if Mentions(b, k) {
            var i :| 0 <= i < |b| && b[i].code == k;
            assert init[i].code == k;
          }
          if Mentions(init, k) {
            var i :| 0 <= i < |init| && init[i].code == k;
            assert b[i].code == k;
          }
        }
      }
    }
  }

  /** After key-downs only, a key is held exactly when one of them is for it. */
  lemma {:induction false} HeldAmongDowns(b: seq<KeyEvent>, k: int)
    requires forall i | 0 <= i < |b| :: b[i].Down?
    ensures Held(b, k) <==> Down(k) in b
    decreases |b|
  {
    if b != [] {
      var init := b[..|b| - 1];
      HeldAmongDowns(init, k);
      assert b == init + [b[|b| - 1]];
      if b[|b| - 1].code != k {
        assert Down(k) in b <==> Down(k) in init;
      }
    }
  }

  /** After key-ups only, no key is held. */
  lemma {:induction false} NothingHeldAfterUps(b: seq<KeyEvent>, k: int)
    requires forall i | 0 <= i < |b| :: b[i].Up?
    ensures !Held(b, k)
    decreases |b|
  {
    if b != [] {
      NothingHeldAfterUps(b[..|b| - 1], k);
    }
  }

  lemma ReleaseAllMentions(k: int)
    requires IsMovementKey(k)
    ensures Mentions(ReleaseAll, k)
  {
    if k == KEYCODE_W {
      assert ReleaseAll[0].code == k;
    } else if k == KEYCODE_A {
      assert ReleaseAll[1].code == k;
    } else if k == KEYCODE_S {
      assert ReleaseAll[2].code == k;
    } else {
      assert ReleaseAll[3].code == k;
    }
  }

  /**
   * After a press or move the engine holds a movement key exactly when the
   * touch lies beyond the dead zone in its direction, whatever was held
   * before.
   */
  lemma HeldAfterTouch(log: seq<KeyEvent>, locX: real, locY: real, r: real, k: int)
    requires r >= 0.0 && IsMovementKey(k)
    ensures Held(log + TouchEvents(locX, locY, r), k) <==> Down(k) in StickKeys(TouchPoint(locX, r), TouchPoint(locY, r), DeadZone(r))
  {
    var downs := StickKeys(TouchPoint(locX, r), TouchPoint(locY, r), DeadZone(r));
    var events := ReleaseAll + downs;
    ReleaseAllMentions(k);
    var i :| 0 <= i < |ReleaseAll| && ReleaseAll[i].code == k;
    assert events[i].code == k;
    HeldAppend(log, events, k);
    HeldAppend(ReleaseAll, downs, k);
    HeldAmongDowns(downs, k);
    NothingHeldAfterUps(ReleaseAll, k);
    if !Mentions(downs, k) {
      assert Down(k) !in downs;
    } else {
      var j :| 0 <= j < |downs| && downs[j].code == k;
      assert downs[j] == Down(k);
    }
  }

  /** The stick never holds two opposite directions: not W and S, not A and D. */
  lemma NoOpposingKeys(log: seq<KeyEvent>, locX: real, locY: real, r: real)
    requires r >= 0.0
    ensures !(Held(log + TouchEvents(locX, locY, r), KEYCODE_W) && Held(log + TouchEvents(locX, locY, r), KEYCODE_S))
    ensures !(Held(log + TouchEvents(locX, locY, r), KEYCODE_A) && Held(log + TouchEvents(locX, locY, r), KEYCODE_D))
  {
    HeldAfterTouch(log, locX, locY, r, KEYCODE_W);
    HeldAfterTouch(log, locX, locY, r, KEYCODE_S);
    HeldAfterTouch(log, locX, locY, r, KEYCODE_A);
    HeldAfterTouch(log, locX, locY, r, KEYCODE_D);
  }

  /** A touch within the dead zone around the centre holds no movement key. */
  lemma DeadZoneHoldsNothing(log: seq<KeyEvent>, locX: real, locY: real, r: real, k: int)
    requires r >= 0.0 && IsMovementKey(k)
    requires -DeadZone(r) <= locX - r <= DeadZone(r) && -DeadZone(r) <= locY - r <= DeadZone(r)
    ensures !Held(log + TouchEvents(locX, locY, r), k)
  {
    HeldAfterTouch(log, locX, locY, r, k);
  }

  /** After a release no movement key is held. */
  lemma NothingHeldAfterLift(log: seq<KeyEvent>, k: int)
    requires IsMovementKey(k)
    ensures !Held(log + ReleaseAll, k)
  {
    ReleaseAllMentions(k);
    HeldAppend(log, ReleaseAll, k);
    NothingHeldAfterUps(ReleaseAll, k);
  }

  /** The stick leaves every other key as it was, so a latched Shift or Alt stays latched. */
  lemma OtherKeysUntouched(log: seq<KeyEvent>, locX: real, locY: real, r: real, k: int)
    requires r >= 0.0 && !IsMovementKey(k)
    ensures Held(log + TouchEvents(locX, locY, r), k) == Held(log, k)
    ensures Held(log + ReleaseAll, k) == Held(log, k)
  {
    var events := TouchEvents(locX, locY, r);
    HeldAppend(log, events, k);
    HeldAppend(log, ReleaseAll, k);
  }
}
