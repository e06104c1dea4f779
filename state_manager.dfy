/**
 * The control registry `UIStateManager` and the two file operations built
 * on the layout codec: `saveButtonState`, which writes a list of controls to
 * `UI.cfg`, and `loadButtonState`, which reads it back and, line by line,
 * puts each control it reads into the registry.
 *
 * The registry is an insertion-ordered map (`mutableMapOf`): a map from id
 * to control together with the order in which the ids were first put.
 * Putting an id that is already present replaces its control and keeps its
 * place; `buttonStates.values` lists the controls in that order.
 */
module StateManager {
  import opened Wrappers
  import opened Seqs
  import opened ButtonModel
  import opened LayoutCodec
  import opened LayoutFile

  // ---------------------------------------------------------------------------
  // The registry as values

  /** The insertion order after putting `id`: a new id goes last, a present one keeps its place. */
  function PutKey(order: seq<int>, id: int): (r: seq<int>)
    ensures id in r && forall k :: k in r <==> k in order || k == id
    ensures id in order ==> r == order
    ensures id !in order ==> r == order + [id]
  {
    if id in order then order else order + [id]
  }

  /** The ids are listed once each and are exactly the keys of the map. */
  ghost predicate WellOrdered(m: map<int, ButtonState>, order: seq<int>) {
    (forall i, j | 0 <= i < j < |order| :: order[i] != order[j])
    && (forall i | 0 <= i < |order| :: order[i] in m)
    && (forall k | k in m :: k in order)
  }

  /** `buttonStates.values`: the controls in insertion order. */
  function ValuesOf(m: map<int, ButtonState>, order: seq<int>): (vs: seq<ButtonState>)
    requires forall i | 0 <= i < |order| :: order[i] in m
    ensures |vs| == |order|
    ensures forall i | 0 <= i < |order| :: vs[i] == m[order[i]]
  {
    if order == [] then [] else [m[order[0]]] + ValuesOf(m, order[1..])
  }

  /** The registry after `buttonStates[b.id] = b` for each control of `bs`, in order. */
  function PutAll(m: map<int, ButtonState>, bs: seq<ButtonState>): map<int, ButtonState> {
    if bs == [] then m else PutAll(m, bs[..|bs| - 1])[bs[|bs| - 1].id := bs[|bs| - 1]]
  }

  /** The insertion order after putting each control of `bs`, in order. */
  function PutAllOrder(order: seq<int>, bs: seq<ButtonState>): seq<int> {
    if bs == [] then order else PutKey(PutAllOrder(order, bs[..|bs| - 1]), bs[|bs| - 1].id)
  }

  /** `buttonStates[id]?.value = v`: replaces the entry of a present id, leaves an absent one absent. */
  function Replace(m: map<int, ButtonState>, id: int, v: ButtonState): (r: map<int, ButtonState>)
    ensures r.Keys == m.Keys
    ensures id in m ==> r[id] == v
    ensures forall k | k in m && k != id :: r[k] == m[k]
  {
    if id in m then m[id := v] else m
  }

  /** `removeIf { it.id == id }`: the controls of another id, in their order. */
  function WithoutId(bs: seq<ButtonState>, id: int): (r: seq<ButtonState>)
    ensures |r| <= |bs|
    ensures forall b :: b in r <==> b in bs && b.id != id
  {
    Filter(bs, (b: ButtonState) => b.id != id)
  }

  /** The insertion order after removing `id`. */
  function RemoveKey(order: seq<int>, id: int): (r: seq<int>)
    ensures forall k :: k in r <==> k in order && k != id
  {
    if order == [] then []
    else (if order[0] == id then [] else [order[0]]) + RemoveKey(order[1..], id)
  }

  /** Removing an id keeps the others listed once each. */
  lemma {:induction false} RemoveKeyDistinct(order: seq<int>, id: int)
    requires forall i, j | 0 <= i < j < |order| :: order[i] != order[j]
    ensures forall i, j | 0 <= i < j < |RemoveKey(order, id)| :: RemoveKey(order, id)[i] != RemoveKey(order, id)[j]
  {
    if order != [] {
      var rest := RemoveKey(order[1..], id);
      RemoveKeyDistinct(order[1..], id);
      if order[0] != id {
        var r := [order[0]] + rest;
        forall i, j | 0 <= i < j < |r| ensures r[i] != r[j] {
          if i == 0 {
            assert r[j] == rest[j - 1] && rest[j - 1] in rest;
          } else {
            assert r[i] == rest[i - 1] && r[j] == rest[j - 1];
          }
        }
      } else {
        assert RemoveKey(order, id) == rest;
      }
    }
  }

  /** Every entry is filed under its own id. */
  predicate KeysMatchIds(m: map<int, ButtonState>) {
    forall k | k in m :: m[k].id == k
  }

  /** The file `UI.cfg`: its lines, or `None` while it does not exist. */
  class ConfigFile {
    var lines: Option<seq<string>>

    constructor(initial: Option<seq<string>>)
      ensures lines == initial
    {
      lines := initial;
    }
  }

  /**
   * The shared UI state: the registry of controls, the buttons the current
   * screen shows, and the flags the controls consult.
   */
  class UIStateManager {
    var buttonStates: map<int, ButtonState>
    var order: seq<int>
    var createdButtons: seq<ButtonState>
    var configureControls: bool
    var editMode: bool
    var isScaleView: bool

    ghost predicate Valid()
      reads this
    {
      WellOrdered(buttonStates, order)
    }

    /** `buttonStates.values.map { it.value }`. */
    function Values(): seq<ButtonState>
      reads this
      requires Valid()
    {
      ValuesOf(buttonStates, order)
    }

    constructor()
      ensures Valid() && buttonStates == map[] && order == [] && createdButtons == []
      ensures !configureControls && !editMode && !isScaleView
    {
      buttonStates := map[];
      order := [];
      createdButtons := [];
      configureControls := false;
      editMode := false;
      isScaleView := false;
    }

    /** `updateButtonState`: replaces the control of an id that is present; an absent id changes nothing. */
    method UpdateButtonState(id: int, state: ButtonState)
      requires Valid()
      modifies this
      ensures Valid()
      ensures buttonStates == Replace(old(buttonStates), id, state)
      ensures order == old(order) && createdButtons == old(createdButtons)
      ensures configureControls == old(configureControls) && editMode == old(editMode) && isScaleView == old(isScaleView)
    {
      if id in buttonStates {
        buttonStates := buttonStates[id := state];
      }
    }

    /**
     * `saveImageUri`: sets the uri of a control that is present. For an
     * absent id the safe call skips the whole assignment, so nothing changes.
     */
    method SaveImageUri(id: int, uri: string)
      requires Valid()
      modifies this
      ensures Valid()
      ensures id in old(buttonStates) ==> buttonStates == old(buttonStates)[id := old(buttonStates)[id].(uri := Some(uri))]
      ensures id !in old(buttonStates) ==> buttonStates == old(buttonStates)
      ensures order == old(order) && createdButtons == old(createdButtons)
      ensures configureControls == old(configureControls) && editMode == old(editMode) && isScaleView == old(isScaleView)
    {
      if id in buttonStates {
        buttonStates := buttonStates[id := buttonStates[id].(uri := Some(uri))];
      }
    }

    /** `buttonStates.getOrPut(id) { seed }`: the present control, or the seed, put last. */
    method GetOrPut(id: int, seed: ButtonState) returns (b: ButtonState)
      requires Valid()
      modifies this
      ensures Valid()
      ensures id in old(buttonStates) ==> b == old(buttonStates)[id] && buttonStates == old(buttonStates) && order == old(order)
      ensures id !in old(buttonStates) ==> b == seed && buttonStates == old(buttonStates)[id := seed] && order == old(order) + [id]
      ensures createdButtons == old(createdButtons)
      ensures configureControls == old(configureControls) && editMode == old(editMode) && isScaleView == old(isScaleView)
    {
      if id in buttonStates {
        b := buttonStates[id];
      } else {
        b := seed;
        buttonStates := buttonStates[id := seed];
        order := order + [id];
      }
    }

    /** `buttonStates[b.id] = mutableStateOf(b)`. */
    method Put(b: ButtonState)
      requires Valid()
      modifies this
      ensures Valid()
      ensures buttonStates == old(buttonStates)[b.id := b] && order == PutKey(old(order), b.id)
      ensures createdButtons == old(createdButtons)
      ensures configureControls == old(configureControls) && editMode == old(editMode) && isScaleView == old(isScaleView)
    {
      buttonStates := buttonStates[b.id := b];
      order := PutKey(order, b.id);
    }

    /** `createdButtons.add(b)`: a button joins the buttons on screen. */
    method AddCreated(b: ButtonState)
      requires Valid()
      modifies this
      ensures Valid()
      ensures createdButtons == old(createdButtons) + [b]
      ensures buttonStates == old(buttonStates) && order == old(order)
      ensures configureControls == old(configureControls) && editMode == old(editMode) && isScaleView == old(isScaleView)
    {
      createdButtons := createdButtons + [b];
    }

    /** Sets `editMode`, the flag under which controls can be moved and resized. */
    method SetEditMode(on: bool)
      requires Valid()
      modifies this
      ensures Valid()
      ensures editMode == on
      ensures buttonStates == old(buttonStates) && order == old(order) && createdButtons == old(createdButtons)
      ensures configureControls == old(configureControls) && isScaleView == old(isScaleView)
    {
      editMode := on;
    }

    /** Sets `configureControls`, under which the controls send no keys. */
    method SetConfigureControls(on: bool)
      requires Valid()
      modifies this
      ensures Valid()
      ensures configureControls == on
      ensures buttonStates == old(buttonStates) && order == old(order) && createdButtons == old(createdButtons)
      ensures editMode == old(editMode) && isScaleView == old(isScaleView)
    {
      configureControls := on;
    }

    /** `createdButtons.clear()`. */
    method ClearCreated()
      requires Valid()
      modifies this
      ensures Valid()
      ensures createdButtons == []
      ensures buttonStates == old(buttonStates) && order == old(order)
      ensures configureControls == old(configureControls) && editMode == old(editMode) && isScaleView == old(isScaleView)
    {
      createdButtons := [];
    }

    /** `createdButtons.addAll(bs)`. */
    method AddAllCreated(bs: seq<ButtonState>)
      requires Valid()
      modifies this
      ensures Valid()
      ensures createdButtons == old(createdButtons) + bs
      ensures buttonStates == old(buttonStates) && order == old(order)
      ensures configureControls == old(configureControls) && editMode == old(editMode) && isScaleView == old(isScaleView)
    {
      createdButtons := createdButtons + bs;
    }

    /** `createdButtons.removeIf { it.id == id }`. */
    method RemoveCreated(id: int)
      requires Valid()
      modifies this
      ensures Valid()
      ensures createdButtons == WithoutId(old(createdButtons), id)
      ensures buttonStates == old(buttonStates) && order == old(order)
      ensures configureControls == old(configureControls) && editMode == old(editMode) && isScaleView == old(isScaleView)
    {
      createdButtons := WithoutId(createdButtons, id);
    }

    /** `buttonStates.remove(id)`: the id leaves the map and the insertion order. */
    method RemoveState(id: int)
      requires Valid()
      modifies this
      ensures Valid()
      ensures buttonStates == old(buttonStates) - {id} && order == RemoveKey(old(order), id)
      ensures createdButtons == old(createdButtons)
      ensures configureControls == old(configureControls) && editMode == old(editMode) && isScaleView == old(isScaleView)
    {
      RemoveKeyDistinct(order, id);
      var rest := RemoveKey(order, id);
      forall i | 0 <= i < |rest| ensures rest[i] in buttonStates - {id} {
        assert rest[i] in rest;
      }
      buttonStates := buttonStates - {id};
      order := rest;
    }

    /** `buttonStates.clear()`. */
    method ClearStates()
      modifies this
      ensures Valid() && buttonStates == map[] && order == []
      ensures createdButtons == old(createdButtons)
      ensures configureControls == old(configureControls) && editMode == old(editMode) && isScaleView == old(isScaleView)
    {
      buttonStates := map[];
      order := [];
    }
  }

  // ---------------------------------------------------------------------------
  // Saving and loading

  /** `saveButtonState`: writes one line per control, user buttons first and thumbsticks last. */
  method SaveButtonState(userUi: string, file: ConfigFile, state: seq<ButtonState>)
    modifies file
    ensures file.lines == Some(SavedFile(userUi, state))
  {
    var thumbsticks := Filter(state, IsThumbstick);
    var existing := Filter(state, IsUserButton) + thumbsticks;
    var out := WriteLines(userUi, existing);
    file.lines := Some(out);
  }

  /** The writing loop of `saveButtonState`: one line per control, in the order given. */
  method WriteLines(userUi: string, bs: seq<ButtonState>) returns (out: seq<string>)
    ensures out == EncodeLines(userUi, bs)
  {
    out := [];
    var i := 0;
    while i < |bs|
      invariant 0 <= i <= |bs|
      invariant out == EncodeLines(userUi, bs[..i])
    {
      PrefixSnoc(bs, i);
      EncodeLinesSnoc(userUi, bs[..i], bs[i]);
      out := out + [EncodeLine(userUi, bs[i])];
      i := i + 1;
    }
    WholePrefix(bs);
  }

  /**
   * `loadButtonState`: each line's control is put into the registry as it is
   * read. A line whose groups `toInt` or `toFloat` refuses throws out of the
   * load (`crashed`), with the controls of the lines before it already put;
   * otherwise the load returns the controls of the lines that decode.
   */
  method LoadButtonState(userUi: string, file: ConfigFile, reg: UIStateManager) returns (loaded: seq<ButtonState>, crashed: bool)
    requires reg.Valid()
    modifies reg
    ensures reg.Valid()
    ensures Load(loaded, crashed) == LoadFileAsWritten(userUi, file.lines)
    ensures !crashed ==> loaded == LoadFile(userUi, file.lines)
    ensures reg.buttonStates == PutAll(old(reg.buttonStates), loaded)
    ensures reg.order == PutAllOrder(old(reg.order), loaded)
    ensures reg.createdButtons == old(reg.createdButtons)
    ensures reg.configureControls == old(reg.configureControls) && reg.editMode == old(reg.editMode)
    ensures reg.isScaleView == old(reg.isScaleView)
  {
    LoadFileAsWrittenAgrees(userUi, file.lines);
    loaded, crashed := [], false;
    if file.lines.None? || file.lines.value == [] {
      return;
    }
    var lines := file.lines.value;
    ghost var outs := Outcomes(userUi, lines);
    var i := 0;
    while i < |lines| && !crashed
      invariant 0 <= i <= |lines|
      invariant reg.Valid()
      invariant Then(Load(loaded, crashed), Collect(outs[i..])) == Collect(outs)
      invariant reg.buttonStates == PutAll(old(reg.buttonStates), loaded)
      invariant reg.order == PutAllOrder(old(reg.order), loaded)
      invariant reg.createdButtons == old(reg.createdButtons)
      invariant reg.configureControls == old(reg.configureControls) && reg.editMode == old(reg.editMode)
      invariant reg.isScaleView == old(reg.isScaleView)
    {
      ghost var before := Load(loaded, crashed);
      CollectSuffix(outs, i);
      OneLine(userUi, lines[i]);
      loaded, crashed := LoadLine(userUi, lines[i], reg, old(reg.buttonStates), old(reg.order), loaded);
      ThenAfterLine(before, outs[i], Collect(outs[i + 1..]));
      i := i + 1;
    }
    if !crashed {
      assert outs[i..] == [];
    }
  }

  /**
   * One line of a load: when it decodes, its control is put into the
   * registry and joins those loaded so far; when its conversion throws, the
   * load stops there.
   */
  method LoadLine(userUi: string, line: string, reg: UIStateManager, ghost states: map<int, ButtonState>, ghost order: seq<int>, loaded: seq<ButtonState>)
    returns (next: seq<ButtonState>, crashed: bool)
    requires reg.Valid() && reg.buttonStates == PutAll(states, loaded) && reg.order == PutAllOrder(order, loaded)
    modifies reg
    ensures reg.Valid() && Load(next, crashed) == Then(Load(loaded, false), DecodeLinesAsWritten(userUi, [line]))
    ensures reg.buttonStates == PutAll(states, next) && reg.order == PutAllOrder(order, next)
    ensures reg.createdButtons == old(reg.createdButtons)
    ensures reg.configureControls == old(reg.configureControls) && reg.editMode == old(reg.editMode)
    ensures reg.isScaleView == old(reg.isScaleView)
  {
    OneLine(userUi, line);
    next, crashed := loaded, false;
    match DecodeLineAsWritten(userUi, line)
    case Crashed =>
      crashed := true;
    case Skipped =>
    case Loaded(b) =>
      PutAllSnoc(states, order, loaded, b);
      reg.Put(b);
      next := loaded + [b];
  }

  /** A single line read as written. */
  lemma OneLine(userUi: string, line: string)
    ensures DecodeLinesAsWritten(userUi, [line]) == AfterLine(DecodeLineAsWritten(userUi, line), Load([], false))
  {
    var outs := Outcomes(userUi, [line]);
    assert outs == [DecodeLineAsWritten(userUi, line)] && outs[1..] == [];
    assert Collect(outs[1..]) == Load([], false);
  }

  /** The outcomes from position `i` on: the one at `i`, then the rest. */
  lemma CollectSuffix(outs: seq<Outcome>, i: nat)
    requires i < |outs|
    ensures Collect(outs[i..]) == AfterLine(outs[i], Collect(outs[i + 1..]))
  {
    SuffixCons(outs, i);
  }

  /** Reading one more line, then the rest, is reading the line together with the rest. */
  lemma ThenAfterLine(sofar: Load, o: Outcome, rest: Load)
    requires !sofar.crashed
    ensures Then(Then(sofar, AfterLine(o, Load([], false))), rest) == Then(sofar, AfterLine(o, rest))
  {
    match o
    case Crashed =>
    case Skipped =>
    case Loaded(b) =>
      assert sofar.loaded + [b] + rest.loaded == sofar.loaded + ([b] + rest.loaded);
  }

  // ---------------------------------------------------------------------------
  // What a load leaves in the registry

  lemma PutAllSnoc(m: map<int, ButtonState>, order: seq<int>, bs: seq<ButtonState>, b: ButtonState)
    ensures PutAll(m, bs + [b]) == PutAll(m, bs)[b.id := b]
    ensures PutAllOrder(order, bs + [b]) == PutKey(PutAllOrder(order, bs), b.id)
  {
    assert (bs + [b])[..|bs|] == bs;
  }

  /** A put keeps the order well formed. */
  lemma PutWellOrdered(m: map<int, ButtonState>, order: seq<int>, b: ButtonState)
    requires WellOrdered(m, order)
    ensures WellOrdered(m[b.id := b], PutKey(order, b.id))
  {
  }

  lemma {:induction false} PutAllWellOrdered(m: map<int, ButtonState>, order: seq<int>, bs: seq<ButtonState>)
    requires WellOrdered(m, order)
    ensures WellOrdered(PutAll(m, bs), PutAllOrder(order, bs))
  {
    if bs != [] {
      PutAllWellOrdered(m, order, bs[..|bs| - 1]);
      PutWellOrdered(PutAll(m, bs[..|bs| - 1]), PutAllOrder(order, bs[..|bs| - 1]), bs[|bs| - 1]);
    }
  }

  /** After a load each id read holds the control of its last line: later lines win. */
  lemma {:induction false} LaterLinesWin(m: map<int, ButtonState>, bs: seq<ButtonState>, j: nat)
    requires j < |bs|
    requires forall k | j < k < |bs| :: bs[k].id != bs[j].id
    ensures bs[j].id in PutAll(m, bs) && PutAll(m, bs)[bs[j].id] == bs[j]
  {
    if j < |bs| - 1 {
      var init := bs[..|bs| - 1];
      assert forall k | j < k < |init| :: init[k] == bs[k];
      LaterLinesWin(m, init, j);
    }
  }

  /** An id no line carries keeps its entry, or its absence. */
  lemma {:induction false} PutAllUntouched(m: map<int, ButtonState>, bs: seq<ButtonState>, id: int)
    requires forall k | 0 <= k < |bs| :: bs[k].id != id
    ensures id in PutAll(m, bs) <==> id in m
    ensures id in m ==> PutAll(m, bs)[id] == m[id]
  {
    if bs != [] {
      var init := bs[..|bs| - 1];
      assert forall k | 0 <= k < |init| :: init[k] == bs[k];
      PutAllUntouched(m, init, id);
    }
  }

  /** A load files every control under its own id. */
  lemma {:induction false} PutAllKeysMatchIds(m: map<int, ButtonState>, bs: seq<ButtonState>)
    requires KeysMatchIds(m)
    ensures KeysMatchIds(PutAll(m, bs))
  {
    if bs != [] {
      PutAllKeysMatchIds(m, bs[..|bs| - 1]);
    }
  }

  /** The registry after a load holds exactly the old ids and the ids read. */
  lemma {:induction false} PutAllKeys(m: map<int, ButtonState>, bs: seq<ButtonState>)
    ensures forall k :: k in PutAll(m, bs) <==> k in m || exists j | 0 <= j < |bs| :: bs[j].id == k
  {
    if bs != [] {
      var init := bs[..|bs| - 1];
      PutAllKeys(m, init);
      assert forall j | 0 <= j < |init| :: init[j] == bs[j];
    }
  }
}
