/**
 * The layout file `UI.cfg` as a whole: the order `saveButtonState` writes the
 * controls in, one line each, and what `loadButtonState` reads back from the
 * lines (`mapNotNull` over the lines, an empty list for a missing or empty
 * file). The load as written stops with an exception at the first line
 * whose conversion throws; the corrected reading skips such a line, and the
 * two agree on every file where no line throws.
 */
module LayoutFile {
  import opened Wrappers
  import opened Seqs
  import opened ButtonModel
  import opened LayoutCodec

  /** The order of the written lines: user buttons first, then the thumbsticks, each group in its own order. */
  function SaveOrder(state: seq<ButtonState>): seq<ButtonState> {
    Filter(state, IsUserButton) + Filter(state, IsThumbstick)
  }

  /** One encoded line per control, in the order given. */
  function EncodeLines(userUi: string, bs: seq<ButtonState>): (lines: seq<string>)
    ensures |lines| == |bs|
    ensures forall i | 0 <= i < |bs| :: lines[i] == EncodeLine(userUi, bs[i])
  {
    if bs == [] then [] else [EncodeLine(userUi, bs[0])] + EncodeLines(userUi, bs[1..])
  }

  /** A list of lines that encodes the controls one by one is their encoding. */
  lemma {:induction false} EncodeLinesPointwise(userUi: string, bs: seq<ButtonState>, lines: seq<string>)
    requires |lines| == |bs| && forall i | 0 <= i < |bs| :: lines[i] == EncodeLine(userUi, bs[i])
    ensures lines == EncodeLines(userUi, bs)
  {
  }

  /** Encoding one more control adds its line at the end. */
  lemma EncodeLinesSnoc(userUi: string, bs: seq<ButtonState>, b: ButtonState)
    ensures EncodeLines(userUi, bs + [b]) == EncodeLines(userUi, bs) + [EncodeLine(userUi, b)]
  {
    EncodeLinesPointwise(userUi, bs + [b], EncodeLines(userUi, bs) + [EncodeLine(userUi, b)]);
  }

  /** The lines `saveButtonState` writes for a list of controls. */
  function SavedFile(userUi: string, state: seq<ButtonState>): seq<string> {
    EncodeLines(userUi, SaveOrder(state))
  }

  /** `mapNotNull`: the controls of the lines that decode, in line order. */
  function DecodeLines(userUi: string, lines: seq<string>): (r: seq<ButtonState>)
    ensures |r| <= |lines|
  {
    if lines == [] then []
    else
      match DecodeLine(userUi, lines[0])
      case None => DecodeLines(userUi, lines[1..])
      case Some(b) => [b] + DecodeLines(userUi, lines[1..])
  }

  /** What `loadButtonState` returns for the file's lines, `None` when the file does not exist, with every refused conversion skipped. */
  function LoadFile(userUi: string, file: Option<seq<string>>): seq<ButtonState> {
    match file
    case None => []
    case Some(lines) => if lines == [] then [] else DecodeLines(userUi, lines)
  }

  /**
   * How a load as written ends: the controls put into the registry before it
   * stopped, and whether a conversion threw out of it.
   */
  datatype Load = Load(loaded: seq<ButtonState>, crashed: bool)

  /** A line the pattern accepts but a `toInt` or `toFloat` refuses. */
  predicate Throws(userUi: string, line: string) {
    DecodeLineAsWritten(userUi, line) == Crashed
  }

  /** What each line does to the load as written, in line order. */
  function Outcomes(userUi: string, lines: seq<string>): (outs: seq<Outcome>)
    ensures |outs| == |lines|
    ensures forall i | 0 <= i < |lines| :: outs[i] == DecodeLineAsWritten(userUi, lines[i])
  {
    if lines == [] then [] else [DecodeLineAsWritten(userUi, lines[0])] + Outcomes(userUi, lines[1..])
  }

  /** A load that reads one line first: a throw ends it, a skipped line adds nothing, a loaded control comes first. */
  function AfterLine(o: Outcome, rest: Load): Load {
    match o
    case Crashed => Load([], true)
    case Skipped => rest
    case Loaded(b) => Load([b] + rest.loaded, rest.crashed)
  }

  /** Two runs of lines read one after the other: the second is read only when the first did not throw. */
  function Then(first: Load, second: Load): Load {
    if first.crashed then first else Load(first.loaded + second.loaded, second.crashed)
  }

  /** The outcomes of the lines taken in order until the first throw. */
  function Collect(outs: seq<Outcome>): (r: Load)
    ensures |r.loaded| <= |outs|
  {
    if outs == [] then Load([], false) else AfterLine(outs[0], Collect(outs[1..]))
  }

  /** The controls of the lines that load, every other line skipped: the reading of the corrected decoder. */
  function Kept(outs: seq<Outcome>): seq<ButtonState> {
    if outs == [] then []
    else if outs[0].Loaded? then [outs[0].state] + Kept(outs[1..])
    else Kept(outs[1..])
  }

  /** The position of the first outcome that throws, or the number of outcomes when none does. */
  function FirstCrash(outs: seq<Outcome>): (k: nat)
    ensures k <= |outs|
    ensures forall i | 0 <= i < k :: outs[i] != Crashed
    ensures k < |outs| ==> outs[k] == Crashed
  {
    if outs == [] || outs[0] == Crashed then 0
    else
      var k := 1 + FirstCrash(outs[1..]);
      assert forall i | 1 <= i < k :: outs[i] == outs[1..][i - 1];
      k
  }

  /** `mapNotNull` as written: the controls of the lines read until the first line that throws. */
  function DecodeLinesAsWritten(userUi: string, lines: seq<string>): Load {
    Collect(Outcomes(userUi, lines))
  }

  /** `loadButtonState` as written, for the file's lines or a missing file. */
  function LoadFileAsWritten(userUi: string, file: Option<seq<string>>): Load {
    match file
    case None => Load([], false)
    case Some(lines) => if lines == [] then Load([], false) else DecodeLinesAsWritten(userUi, lines)
  }

  // ---------------------------------------------------------------------------
  // The save order

  /** The written list is a rearrangement of the given one: nothing is lost or duplicated. */
  lemma SaveOrderPermutation(state: seq<ButtonState>)
    ensures multiset(SaveOrder(state)) == multiset(state)
    ensures |SaveOrder(state)| == |state|
  {
    FilterPartition(state, IsUserButton, IsThumbstick);
  }

  /** In the written list no thumbstick comes before a user button. */
  lemma SaveOrderUsersFirst(state: seq<ButtonState>)
    ensures forall i, j | 0 <= i < j < |SaveOrder(state)| :: IsThumbstick(SaveOrder(state)[i]) ==> IsThumbstick(SaveOrder(state)[j])
  {
    var users, sticks := Filter(state, IsUserButton), Filter(state, IsThumbstick);
    var r := SaveOrder(state);
    forall k | 0 <= k < |users| ensures IsUserButton(r[k]) {
      assert r[k] == users[k] && users[k] in users;
    }
    forall k | |users| <= k < |r| ensures IsThumbstick(r[k]) {
      assert r[k] == sticks[k - |users|] && sticks[k - |users|] in sticks;
    }
  }

  /** The written list keeps the user buttons in their order, and the thumbsticks in theirs. */
  lemma SaveOrderKeepsGroups(state: seq<ButtonState>)
    ensures Filter(SaveOrder(state), IsUserButton) == Filter(state, IsUserButton)
    ensures Filter(SaveOrder(state), IsThumbstick) == Filter(state, IsThumbstick)
  {
    var users, sticks := Filter(state, IsUserButton), Filter(state, IsThumbstick);
    FilterAppend(users, sticks, IsUserButton);
    FilterAppend(users, sticks, IsThumbstick);
    FilterIdempotent(state, IsUserButton);
    FilterIdempotent(state, IsThumbstick);
    forall i | 0 <= i < |sticks| ensures !IsUserButton(sticks[i]) {
      assert sticks[i] in sticks;
    }
    forall i | 0 <= i < |users| ensures !IsThumbstick(users[i]) {
      assert users[i] in users;
    }
    FilterNone(sticks, IsUserButton);
    FilterNone(users, IsThumbstick);
  }

  /** Ordering an ordered list again changes nothing. */
  lemma SaveOrderIdempotent(state: seq<ButtonState>)
    ensures SaveOrder(SaveOrder(state)) == SaveOrder(state)
  {
    SaveOrderKeepsGroups(state);
  }

  /** The file has exactly one line per control. */
  lemma SavedFileLength(userUi: string, state: seq<ButtonState>)
    ensures |SavedFile(userUi, state)| == |state|
  {
    SaveOrderPermutation(state);
  }

  // ---------------------------------------------------------------------------
  // Reading back

  lemma {:induction false} DecodeLinesAppend(userUi: string, a: seq<string>, b: seq<string>)
    ensures DecodeLines(userUi, a + b) == DecodeLines(userUi, a) + DecodeLines(userUi, b)
  {
    if a == [] {
      assert a + b == b;
    } else {
      assert (a + b)[0] == a[0] && (a + b)[1..] == a[1..] + b;
      DecodeLinesAppend(userUi, a[1..], b);
    }
  }

  /** Reading one more line adds its control, when it decodes, at the end. */
  lemma DecodeLinesSnoc(userUi: string, lines: seq<string>, line: string)
    ensures DecodeLine(userUi, line).None? ==> DecodeLines(userUi, lines + [line]) == DecodeLines(userUi, lines)
    ensures DecodeLine(userUi, line).Some? ==> DecodeLines(userUi, lines + [line]) == DecodeLines(userUi, lines) + [DecodeLine(userUi, line).value]
  {
    DecodeLinesAppend(userUi, lines, [line]);
    assert [line][1..] == [];
  }

  // ---------------------------------------------------------------------------
  // The load as written against the corrected one

  /** Reading one line first and then two runs is reading the line with the first run, then the second run. */
  lemma AfterLineThen(o: Outcome, first: Load, second: Load)
    ensures AfterLine(o, Then(first, second)) == Then(AfterLine(o, first), second)
  {
  }

  /** Reading two runs of lines as written: the second is read only when the first did not throw. */
  lemma {:induction false} CollectAppend(a: seq<Outcome>, b: seq<Outcome>)
    ensures Collect(a + b) == Then(Collect(a), Collect(b))
  {
    if a == [] {
      assert a + b == b;
    } else {
      assert (a + b)[0] == a[0] && (a + b)[1..] == a[1..] + b;
      CollectAppend(a[1..], b);
      AfterLineThen(a[0], Collect(a[1..]), Collect(b));
    }
  }

  /** Reading one more line: a throw stops the load, a loaded control joins the end. */
  lemma CollectSnoc(outs: seq<Outcome>, o: Outcome)
    ensures Collect(outs + [o]) == Then(Collect(outs), AfterLine(o, Load([], false)))
  {
    CollectAppend(outs, [o]);
    assert [o][1..] == [];
  }

  /** Before the first throw the load as written reads what the corrected reading keeps, and it throws exactly when some line does. */
  lemma {:induction false} CollectUntilCrash(outs: seq<Outcome>)
    ensures Collect(outs) == Load(Kept(outs[..FirstCrash(outs)]), FirstCrash(outs) < |outs|)
  {
    if outs != [] && outs[0] != Crashed {
      var rest := outs[1..];
      CollectUntilCrash(rest);
      var k := FirstCrash(outs);
      assert k == 1 + FirstCrash(rest);
      var taken := outs[..k];
      assert taken[0] == outs[0] && taken[1..] == rest[..k - 1];
    } else if outs != [] {
      assert outs[..0] == [];
    }
  }

  /** The corrected decoder keeps exactly the controls whose lines load. */
  lemma {:induction false} DecodeLinesKept(userUi: string, lines: seq<string>)
    ensures DecodeLines(userUi, lines) == Kept(Outcomes(userUi, lines))
  {
    if lines != [] {
      DecodeLinesKept(userUi, lines[1..]);
      DecodeLineAgrees(userUi, lines[0]);
    }
  }

  /** The outcomes of the first lines are the first outcomes. */
  lemma OutcomesPrefix(userUi: string, lines: seq<string>, k: nat)
    requires k <= |lines|
    ensures Outcomes(userUi, lines[..k]) == Outcomes(userUi, lines)[..k]
  {
  }

  /** The position of the first line that throws, or the number of lines when none does. */
  function FirstThrow(userUi: string, lines: seq<string>): (k: nat)
    ensures k <= |lines|
    ensures forall i | 0 <= i < k :: !Throws(userUi, lines[i])
    ensures k < |lines| ==> Throws(userUi, lines[k])
  {
    FirstCrash(Outcomes(userUi, lines))
  }

  /** The load as written reads the controls of the lines before the first line that throws, and throws exactly when there is one. */
  lemma ReadUntilFirstThrow(userUi: string, lines: seq<string>)
    ensures DecodeLinesAsWritten(userUi, lines)
         == Load(DecodeLines(userUi, lines[..FirstThrow(userUi, lines)]), FirstThrow(userUi, lines) < |lines|)
  {
    var outs := Outcomes(userUi, lines);
    var k := FirstThrow(userUi, lines);
    CollectUntilCrash(outs);
    OutcomesPrefix(userUi, lines, k);
    DecodeLinesKept(userUi, lines[..k]);
  }

  /**
   * The load as written against the corrected one: it throws exactly when
   * some line throws, and a load that does not throw reads what the
   * corrected load reads.
   */
  lemma DecodeLinesAsWrittenAgrees(userUi: string, lines: seq<string>)
    ensures DecodeLinesAsWritten(userUi, lines).crashed <==> exists i | 0 <= i < |lines| :: Throws(userUi, lines[i])
    ensures !DecodeLinesAsWritten(userUi, lines).crashed ==> DecodeLinesAsWritten(userUi, lines).loaded == DecodeLines(userUi, lines)
  {
    ReadUntilFirstThrow(userUi, lines);
    if FirstThrow(userUi, lines) == |lines| {
      WholePrefix(lines);
    }
  }

  /** For a whole file: a load as written that does not throw reads what the corrected load reads. */
  lemma LoadFileAsWrittenAgrees(userUi: string, file: Option<seq<string>>)
    ensures LoadFileAsWritten(userUi, file).crashed <==> file.Some? && exists i | 0 <= i < |file.value| :: Throws(userUi, file.value[i])
    ensures !LoadFileAsWritten(userUi, file).crashed ==> LoadFileAsWritten(userUi, file).loaded == LoadFile(userUi, file)
  {
    if file.Some? {
      DecodeLinesAsWrittenAgrees(userUi, file.value);
    }
  }

  /** Every control of a list of persistable controls comes back from its own line, in order. */
  lemma DecodeEncodeLines(userUi: string, bs: seq<ButtonState>)
    requires forall b | b in bs :: Persistable(userUi, b)
    ensures DecodeLines(userUi, EncodeLines(userUi, bs)) == bs
  {
    var lines := EncodeLines(userUi, bs);
    forall i | 0 <= i < |bs| ensures DecodeLine(userUi, lines[i]) == Some(bs[i]) {
      assert bs[i] in bs;
      DecodeEncodePersistable(userUi, bs[i]);
    }
    DecodeLinesPointwise(userUi, lines, bs);
  }

  /** Lines that each decode to the control at the same place read back as those controls. */
  lemma DecodeLinesPointwise(userUi: string, lines: seq<string>, bs: seq<ButtonState>)
    requires |lines| == |bs| && forall i | 0 <= i < |lines| :: DecodeLine(userUi, lines[i]) == Some(bs[i])
    ensures DecodeLines(userUi, lines) == bs
  {
    DecodeLinesFrom(userUi, lines, bs, 0);
  }

  lemma {:induction false} DecodeLinesFrom(userUi: string, lines: seq<string>, bs: seq<ButtonState>, k: nat)
    requires k <= |lines| == |bs| && forall i | 0 <= i < |lines| :: DecodeLine(userUi, lines[i]) == Some(bs[i])
    ensures DecodeLines(userUi, lines[k..]) == bs[k..]
    decreases |lines| - k
  {
    if k < |lines| {
      DecodeLinesFrom(userUi, lines, bs, k + 1);
      SuffixCons(lines, k);
      SuffixCons(bs, k);
    }
  }

  /** Loading what was saved gives the saved controls back, in the written order. */
  lemma LoadSavedFile(userUi: string, state: seq<ButtonState>)
    requires forall b | b in state :: Persistable(userUi, b)
    ensures LoadFile(userUi, Some(SavedFile(userUi, state))) == SaveOrder(state)
  {
    SaveOrderPermutation(state);
    assert forall b | b in SaveOrder(state) :: b in multiset(state);
    DecodeEncodeLines(userUi, SaveOrder(state));
  }

  /** No line of a saved file of persistable controls throws, so the load as written reads them all back. */
  lemma LoadSavedFileAsWritten(userUi: string, state: seq<ButtonState>)
    requires forall b | b in state :: Persistable(userUi, b)
    ensures LoadFileAsWritten(userUi, Some(SavedFile(userUi, state))) == Load(SaveOrder(state), false)
  {
    var ordered := SaveOrder(state);
    var lines := SavedFile(userUi, state);
    SaveOrderPermutation(state);
    forall i | 0 <= i < |lines| ensures !Throws(userUi, lines[i]) {
      assert ordered[i] in multiset(state);
      DecodeEncodePersistable(userUi, ordered[i]);
      DecodeLineAgrees(userUi, lines[i]);
    }
    LoadFileAsWrittenAgrees(userUi, Some(lines));
    LoadSavedFile(userUi, state);
  }

  /** Every control a load produces is persistable. */
  lemma {:induction false} DecodedLinesPersistable(userUi: string, lines: seq<string>)
    requires NoLineTerminator(userUi)
    ensures forall b | b in DecodeLines(userUi, lines) :: Persistable(userUi, b)
  {
    if lines != [] {
      DecodedLinesPersistable(userUi, lines[1..]);
      if DecodeLine(userUi, lines[0]).Some? {
        DecodedIsPersistable(userUi, lines[0]);
      }
    }
  }

  lemma LoadedArePersistable(userUi: string, file: Option<seq<string>>)
    requires NoLineTerminator(userUi)
    ensures forall b | b in LoadFile(userUi, file) :: Persistable(userUi, b)
  {
    if file.Some? {
      DecodedLinesPersistable(userUi, file.value);
    }
  }

  /**
   * Saving what was loaded and loading it again gives the loaded controls in
   * the written order, and the file written then is written unchanged by the
   * next save: after one save the layout file is stable.
   */
  lemma SaveLoadFixpoint(userUi: string, file: Option<seq<string>>)
    requires NoLineTerminator(userUi)
    ensures LoadFile(userUi, Some(SavedFile(userUi, LoadFile(userUi, file)))) == SaveOrder(LoadFile(userUi, file))
    ensures SavedFile(userUi, LoadFile(userUi, Some(SavedFile(userUi, LoadFile(userUi, file)))))
         == SavedFile(userUi, LoadFile(userUi, file))
  {
    var loaded := LoadFile(userUi, file);
    LoadedArePersistable(userUi, file);
    LoadSavedFile(userUi, loaded);
    SaveOrderIdempotent(loaded);
  }
}
