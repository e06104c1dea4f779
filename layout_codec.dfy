/**
 * The text form of the control layout, `UI.cfg`: one line per control,
 *
 *   ButtonID_<id>(<size>;<offsetX>;<offsetY>;<isLocked>;<keyCode>;Color.<color>;<alpha>;<uri>)
 *
 * where `<uri>` is `null` or `File("<USER_UI>/<id>.<ext>`. The decoder runs
 * the pattern
 *
 *   ButtonID_(\d+)\(([\d.]+);([\d.]+);([\d.]+);(true|false);(\d+);Color\.(\w+);([\d.]+);(.+)\)
 *
 * with `find` (leftmost match anywhere in the line) and converts the groups
 * with `toInt` / `toFloat`. The pattern is written here as a list of steps;
 * because every quantified class is followed by a character outside it, each
 * step has exactly one way to match, so backtracking never changes the result
 * except in the last group, whose greedy `(.+)\)` ends at the last `)` before
 * a line terminator.
 */
module LayoutCodec {
  import opened Wrappers
  import opened Text
  import opened Decimals
  import opened ButtonModel
  import Seqs

  /** `Int.MAX_VALUE`: `toInt` throws above it. */
  const INT_MAX := 0x7FFF_FFFF

  // ---------------------------------------------------------------------------
  // Character classes of the pattern

  /** What `.` refuses: the line terminators of `java.util.regex`. */
  predicate IsLineTerminator(c: char) {
    c == '\n' || c == '\r' || c as int == 0x85 || c as int == 0x2028 || c as int == 0x2029
  }

  /** `\w` without the Unicode flag: ASCII letters, digits and the underscore. */
  predicate IsWordChar(c: char) {
    'a' <= c <= 'z' || 'A' <= c <= 'Z' || IsDigit(c) || c == '_'
  }

  datatype CharClass = DigitChars | NumeralChars | WordChars | LineChars

  predicate InClass(c: char, cls: CharClass) {
    match cls
    case DigitChars => IsDigit(c)
    case NumeralChars => IsDigit(c) || c == '.'
    case WordChars => IsWordChar(c)
    case LineChars => !IsLineTerminator(c)
  }

  predicate AllInClass(s: string, cls: CharClass) {
    forall i | 0 <= i < |s| :: InClass(s[i], cls)
  }

  /** The length of the longest prefix of `s` inside `cls`: how far a greedy `cls+` reaches. */
  function RunLength(s: string, cls: CharClass): (n: nat)
    ensures n <= |s| && AllInClass(s[..n], cls)
    ensures n < |s| ==> !InClass(s[n], cls)
  {
    if s == [] || !InClass(s[0], cls) then 0
    else
      var n := 1 + RunLength(s[1..], cls);
      assert forall i | 1 <= i < n :: s[..n][i] == s[1..][..n - 1][i - 1];
      n
  }

  lemma {:induction false} RunLengthOf(tok: string, rest: string, cls: CharClass)
    requires AllInClass(tok, cls)
    requires rest != [] && !InClass(rest[0], cls)
    ensures RunLength(tok + rest, cls) == |tok|
  {
    if tok != [] {
      assert (tok + rest)[1..] == tok[1..] + rest;
      RunLengthOf(tok[1..], rest, cls);
    }
  }

  lemma {:induction false} RunLengthAll(s: string, cls: CharClass)
    requires AllInClass(s, cls)
    ensures RunLength(s, cls) == |s|
  {
    if s != [] {
      assert InClass(s[0], cls);
      RunLengthAll(s[1..], cls);
    }
  }

  // ---------------------------------------------------------------------------
  // The pattern as steps

  /**
   * One step of the pattern: a literal text, a run `cls+` followed by the
   * separator `sep`, or one of two alternatives followed by `sep`.
   */
  datatype Step = Literal(text: string) | Capture(cls: CharClass, sep: char) | Either(first: string, second: string, sep: char)

  /** A step has one way to match: the separator ends the run, and the alternatives differ at once. */
  predicate StepWellFormed(st: Step) {
    match st
    case Literal(_) => true
    case Capture(cls, sep) => !InClass(sep, cls)
    case Either(a, b, _) => a != [] && b != [] && a[0] != b[0]
  }

  /** What a step captures, as it appears in the line. */
  predicate Fits(st: Step, piece: string) {
    match st
    case Literal(t) => piece == t
    case Capture(cls, _) => |piece| >= 1 && AllInClass(piece, cls)
    case Either(a, b, _) => piece == a || piece == b
  }

  /** The text a step consumes when it captures `piece`. */
  function StepText(st: Step, piece: string): string {
    match st
    case Literal(_) => piece
    case Capture(_, sep) => piece + [sep]
    case Either(_, _, sep) => piece + [sep]
  }

  /** Runs one step at the start of `s`: the capture and what is left. */
  function RunStep(st: Step, s: string): (r: Option<(string, string)>)
    ensures r.Some? ==> Fits(st, r.value.0) && s == StepText(st, r.value.0) + r.value.1
  {
    match st
    case Literal(t) =>
      if StartsWith(s, t) then
        assert s == t + s[|t|..];
        Some((t, s[|t|..]))
      else None
    case Capture(cls, sep) =>
      var n := RunLength(s, cls);
      if 0 < n < |s| && s[n] == sep then
        assert s == s[..n] + [sep] + s[n + 1..];
        Some((s[..n], s[n + 1..]))
      else None
    case Either(a, b, sep) =>
      if StartsWith(s, a + [sep]) then
        assert s == a + [sep] + s[|a| + 1..];
        Some((a, s[|a| + 1..]))
      else if StartsWith(s, b + [sep]) then
        assert s == b + [sep] + s[|b| + 1..];
        Some((b, s[|b| + 1..]))
      else None
  }

  /** Runs the steps in order; the captures, one per step, and what is left. */
  function RunSteps(steps: seq<Step>, s: string): (r: Option<(seq<string>, string)>)
    ensures r.Some? ==> |r.value.0| == |steps|
  {
    if steps == [] then Some(([], s))
    else
      var first :- RunStep(steps[0], s);
      var more :- RunSteps(steps[1..], first.1);
      Some(([first.0] + more.0, more.1))
  }

  /** What the steps capture fits them, and reassembles into the text they consumed. */
  lemma {:induction false} RunStepsSound(steps: seq<Step>, s: string)
    requires RunSteps(steps, s).Some?
    ensures forall i | 0 <= i < |steps| :: Fits(steps[i], RunSteps(steps, s).value.0[i])
    ensures s == Assemble(steps, RunSteps(steps, s).value.0) + RunSteps(steps, s).value.1
  {
    if steps != [] {
      var first := RunStep(steps[0], s).value;
      var more := RunSteps(steps[1..], first.1).value;
      RunStepsSound(steps[1..], first.1);
      var pieces := [first.0] + more.0;
      assert RunSteps(steps, s).value == (pieces, more.1);
      assert pieces[0] == first.0 && pieces[1..] == more.0;
      FitsCons(steps, pieces);
      AssembleCons(steps, pieces, more.1);
    }
  }

  /** The steps run when the first step runs and the others run on what it leaves. */
  lemma RunStepsCons(steps: seq<Step>, s: string, first: (string, string), more: (seq<string>, string))
    requires steps != [] && RunStep(steps[0], s) == Some(first) && RunSteps(steps[1..], first.1) == Some(more)
    ensures RunSteps(steps, s) == Some(([first.0] + more.0, more.1))
  {
  }

  /** Pieces fit their steps when the first does and the rest do. */
  lemma FitsCons(steps: seq<Step>, pieces: seq<string>)
    requires |pieces| == |steps| >= 1 && Fits(steps[0], pieces[0])
    requires forall i | 0 <= i < |steps| - 1 :: Fits(steps[1..][i], pieces[1..][i])
    ensures forall i | 0 <= i < |steps| :: Fits(steps[i], pieces[i])
  {
    forall i | 0 < i < |steps| ensures Fits(steps[i], pieces[i]) {
      assert steps[1..][i - 1] == steps[i] && pieces[1..][i - 1] == pieces[i];
    }
  }

  /** Well-formed steps with fitting pieces stay so without their first. */
  lemma WellFormedTail(steps: seq<Step>, pieces: seq<string>)
    requires |pieces| == |steps| >= 1
    requires forall i | 0 <= i < |steps| :: StepWellFormed(steps[i]) && Fits(steps[i], pieces[i])
    ensures forall i | 0 <= i < |steps| - 1 :: StepWellFormed(steps[1..][i]) && Fits(steps[1..][i], pieces[1..][i])
  {
    forall i | 0 <= i < |steps| - 1 ensures StepWellFormed(steps[1..][i]) && Fits(steps[1..][i], pieces[1..][i]) {
      assert steps[1..][i] == steps[i + 1] && pieces[1..][i] == pieces[i + 1];
    }
  }

  /** The text of the first step, then that of the rest. */
  lemma AssembleCons(steps: seq<Step>, pieces: seq<string>, rest: string)
    requires |pieces| == |steps| >= 1
    ensures Assemble(steps, pieces) + rest == StepText(steps[0], pieces[0]) + (Assemble(steps[1..], pieces[1..]) + rest)
  {
  }

  /** The line text the steps consume when they capture `pieces`. */
  function Assemble(steps: seq<Step>, pieces: seq<string>): string
    requires |pieces| == |steps|
  {
    if steps == [] then [] else StepText(steps[0], pieces[0]) + Assemble(steps[1..], pieces[1..])
  }

  lemma StepOfText(st: Step, piece: string, rest: string)
    requires StepWellFormed(st) && Fits(st, piece)
    ensures RunStep(st, StepText(st, piece) + rest) == Some((piece, rest))
  {
    var s := StepText(st, piece) + rest;
    match st
    case Literal(t) =>
      assert s[..|t|] == t;
      assert s[|t|..] == rest;
    case Capture(cls, sep) =>
      assert s == piece + ([sep] + rest);
      RunLengthOf(piece, [sep] + rest, cls);
      assert s[..|piece|] == piece;
      assert s[|piece| + 1..] == rest;
    case Either(a, b, sep) =>
      if piece == a {
        assert s[..|a| + 1] == a + [sep];
        assert s[|a| + 1..] == rest;
      } else {
        assert s[0] == b[0];
        assert s[..|b| + 1] == b + [sep];
        assert s[|b| + 1..] == rest;
      }
  }

  /** Steps that each have one way to match recover exactly the pieces they were assembled from. */
  lemma {:induction false} RunAssembled(steps: seq<Step>, pieces: seq<string>, rest: string)
    requires |pieces| == |steps|
    requires forall i | 0 <= i < |steps| :: StepWellFormed(steps[i]) && Fits(steps[i], pieces[i])
    ensures RunSteps(steps, Assemble(steps, pieces) + rest) == Some((pieces, rest))
  {
    if steps == [] {
      assert pieces == [];
      assert Assemble(steps, pieces) + rest == rest;
    } else {
      var tail := Assemble(steps[1..], pieces[1..]) + rest;
      AssembleCons(steps, pieces, rest);
      StepOfText(steps[0], pieces[0], tail);
      WellFormedTail(steps, pieces);
      RunAssembled(steps[1..], pieces[1..], rest);
      Seqs.SuffixCons(pieces, 0);
      RunStepsCons(steps, Assemble(steps, pieces) + rest, (pieces[0], tail), (pieces[1..], rest));
    }
  }

  /**
   * When the first `k` pieces fit and the piece for step `k`, a capture,
   * starts with a character outside its class, the steps fail.
   */
  lemma {:induction false} RunStopsAt(steps: seq<Step>, pieces: seq<string>, k: nat, tail: string)
    requires |pieces| == |steps| && k < |steps|
    requires forall i | 0 <= i < k :: StepWellFormed(steps[i]) && Fits(steps[i], pieces[i])
    requires steps[k].Capture? && pieces[k] != [] && !InClass(pieces[k][0], steps[k].cls)
    ensures RunSteps(steps, Assemble(steps, pieces) + tail) == None
  {
    var rest := Assemble(steps[1..], pieces[1..]) + tail;
    assert Assemble(steps, pieces) + tail == StepText(steps[0], pieces[0]) + rest;
    if k == 0 {
      var s := StepText(steps[0], pieces[0]) + rest;
      assert s[0] == pieces[0][0];
      assert RunLength(s, steps[0].cls) == 0;
    } else {
      StepOfText(steps[0], pieces[0], rest);
      assert forall i | 0 <= i < |steps| - 1 :: steps[1..][i] == steps[i + 1] && pieces[1..][i] == pieces[i + 1];
      RunStopsAt(steps[1..], pieces[1..], k - 1, tail);
    }
  }

  /** The pattern up to its last group; group numbers of the source are given on the right. */
  const LinePattern: seq<Step> := [
    Literal("ButtonID_"),
    Capture(DigitChars, '('),          // 1: id
    Capture(NumeralChars, ';'),        // 2: size
    Capture(NumeralChars, ';'),        // 3: offsetX
    Capture(NumeralChars, ';'),        // 4: offsetY
    Either("true", "false", ';'),      // 5: isLocked
    Capture(DigitChars, ';'),          // 6: keyCode
    Literal("Color."),
    Capture(WordChars, ';'),           // 7: color
    Capture(NumeralChars, ';')         // 8: alpha
  ]

  lemma LinePatternWellFormed()
    ensures forall i | 0 <= i < |LinePattern| :: StepWellFormed(LinePattern[i])
  {
  }

  /**
   * The last group `(.+)\)`: at least one character, no line terminator, up to
   * the last `)` the greedy run can reach.
   */
  function UriGroup(s: string): (r: Option<string>)
    ensures r.Some? ==> |r.value| >= 1 && AllInClass(r.value, LineChars)
    ensures r.Some? ==> |r.value| < |s| && s[..|r.value| + 1] == r.value + ")"
  {
    var e := RunLength(s, LineChars);
    if e == 0 then None
    else match LastIndexOf(s[1..e], ')')
      case None => None
      case Some(k) =>
        assert s[..k + 1] == s[..e][..k + 1];
        Some(s[..k + 1])
  }

  lemma UriGroupOf(u: string)
    requires |u| >= 1 && AllInClass(u, LineChars)
    ensures UriGroup(u + ")") == Some(u)
  {
    var s := u + ")";
    RunLengthAll(s, LineChars);
    assert s[1..|s|][|u| - 1] == ')';
  }

  // ---------------------------------------------------------------------------
  // Matching and finding

  /** The nine groups of a match, as text. */
  datatype Groups = Groups(
    id: string, size: string, offsetX: string, offsetY: string, locked: string,
    keyCode: string, color: string, alpha: string, uri: string)

  /** The captures a group list corresponds to, in step order. */
  function Pieces(g: Groups): seq<string> {
    ["ButtonID_", g.id, g.size, g.offsetX, g.offsetY, g.locked, g.keyCode, "Color.", g.color, g.alpha]
  }

  predicate WellFormedGroups(g: Groups) {
    |g.id| >= 1 && AllDigits(g.id)
    && |g.size| >= 1 && IsNumeral(g.size)
    && |g.offsetX| >= 1 && IsNumeral(g.offsetX)
    && |g.offsetY| >= 1 && IsNumeral(g.offsetY)
    && (g.locked == "true" || g.locked == "false")
    && |g.keyCode| >= 1 && AllDigits(g.keyCode)
    && |g.color| >= 1 && AllInClass(g.color, WordChars)
    && |g.alpha| >= 1 && IsNumeral(g.alpha)
    && |g.uri| >= 1 && AllInClass(g.uri, LineChars)
  }

  lemma PiecesFit(g: Groups)
    requires WellFormedGroups(g)
    ensures forall i | 0 <= i < |LinePattern| :: Fits(LinePattern[i], Pieces(g)[i])
  {
    var p := Pieces(g);
    assert Fits(LinePattern[1], p[1]) by {
      forall i | 0 <= i < |g.id| ensures InClass(g.id[i], DigitChars) { }
    }
    assert Fits(LinePattern[6], p[6]) by {
      forall i | 0 <= i < |g.keyCode| ensures InClass(g.keyCode[i], DigitChars) { }
    }
  }

  /** The whole match the groups stand for. */
  function MatchText(g: Groups): string {
    Assemble(LinePattern, Pieces(g)) + (g.uri + ")")
  }

  /** The match of the pattern starting exactly at the beginning of `s`, if there is one. */
  function MatchAt(s: string): Option<Groups> {
    var run :- RunSteps(LinePattern, s);
    var p := run.0;
    var u :- UriGroup(run.1);
    Some(Groups(p[1], p[2], p[3], p[4], p[5], p[6], p[8], p[9], u))
  }

  /** A match has well-formed groups, and the line begins with their text. */
  lemma MatchAtSound(s: string)
    requires MatchAt(s).Some?
    ensures WellFormedGroups(MatchAt(s).value) && StartsWith(s, MatchText(MatchAt(s).value))
  {
    MatchAtWellFormed(s);
    MatchAtPrefix(s);
  }

  lemma MatchAtWellFormed(s: string)
    requires MatchAt(s).Some?
    ensures WellFormedGroups(MatchAt(s).value)
  {
    var run := RunSteps(LinePattern, s).value;
    RunStepsSound(LinePattern, s);
    var p := run.0;
    assert Fits(LinePattern[1], p[1]) && Fits(LinePattern[2], p[2]) && Fits(LinePattern[3], p[3]);
    assert Fits(LinePattern[4], p[4]) && Fits(LinePattern[5], p[5]) && Fits(LinePattern[6], p[6]);
    assert Fits(LinePattern[8], p[8]) && Fits(LinePattern[9], p[9]);
    NumeralCapture(p[2]);
    NumeralCapture(p[3]);
    NumeralCapture(p[4]);
    NumeralCapture(p[9]);
    DigitCapture(p[1]);
    DigitCapture(p[6]);
  }

  lemma MatchAtPrefix(s: string)
    requires MatchAt(s).Some?
    ensures StartsWith(s, MatchText(MatchAt(s).value))
  {
    var run := RunSteps(LinePattern, s).value;
    RunStepsSound(LinePattern, s);
    MatchTextOfRun(s);
    PrefixThenHead(s, Assemble(LinePattern, run.0), run.1, UriGroup(run.1).value + ")");
  }

  /** The text of a match is what the pattern's steps consumed, then the uri and its `)`. */
  lemma MatchTextOfRun(s: string)
    requires MatchAt(s).Some?
    ensures MatchText(MatchAt(s).value)
         == Assemble(LinePattern, RunSteps(LinePattern, s).value.0) + (UriGroup(RunSteps(LinePattern, s).value.1).value + ")")
  {
    var run := RunSteps(LinePattern, s).value;
    RunStepsSound(LinePattern, s);
    assert Fits(LinePattern[0], run.0[0]) && Fits(LinePattern[7], run.0[7]);
    MatchAtGroups(s);
    CapturesArePieces(run.0, UriGroup(run.1).value);
  }

  /** The groups of a match are the captures of the steps and the uri. */
  lemma MatchAtGroups(s: string)
    requires MatchAt(s).Some?
    ensures var run := RunSteps(LinePattern, s).value;
      MatchAt(s).value == Groups(run.0[1], run.0[2], run.0[3], run.0[4], run.0[5], run.0[6], run.0[8], run.0[9], UriGroup(run.1).value)
  {
  }

  /** Captures with the two literals in their places are the pieces of the groups they give. */
  lemma CapturesArePieces(p: seq<string>, u: string)
    requires |p| == 10 && p[0] == "ButtonID_" && p[7] == "Color."
    ensures Pieces(Groups(p[1], p[2], p[3], p[4], p[5], p[6], p[8], p[9], u)) == p
  {
  }

  /** A text `a + r` whose tail `r` starts with `v` starts with `a + v`. */
  lemma PrefixThenHead(s: string, a: string, r: string, v: string)
    requires s == a + r && |v| <= |r| && r[..|v|] == v
    ensures StartsWith(s, a + v)
  {
    assert s[..|a| + |v|] == a + v;
  }

  lemma MatchStartsWithLiteral(s: string)
    requires MatchAt(s).Some?
    ensures StartsWith(s, "ButtonID_")
  {
    var run := RunSteps(LinePattern, s).value;
    RunStepsSound(LinePattern, s);
    assert Fits(LinePattern[0], run.0[0]);
    AssembleLiteralHead(LinePattern, run.0, "ButtonID_");
    PrefixThenHead(s, [], s, "ButtonID_");
  }

  /** Steps that start with a literal assemble to that literal first. */
  lemma AssembleLiteralHead(steps: seq<Step>, pieces: seq<string>, t: string)
    requires |pieces| == |steps| >= 1 && steps[0] == Literal(t) && pieces[0] == t
    ensures Assemble(steps, pieces) == t + Assemble(steps[1..], pieces[1..])
  {
  }

  lemma NumeralCapture(s: string)
    requires AllInClass(s, NumeralChars)
    ensures IsNumeral(s)
  {
    forall i | 0 <= i < |s| ensures IsNumeralChar(s[i]) {
      assert InClass(s[i], NumeralChars);
    }
  }

  lemma DigitCapture(s: string)
    requires AllInClass(s, DigitChars)
    ensures AllDigits(s)
  {
    forall i | 0 <= i < |s| ensures IsDigit(s[i]) {
      assert InClass(s[i], DigitChars);
    }
  }

  /** The text of well-formed groups matches back to the same groups. */
  lemma MatchOfMatchText(g: Groups)
    requires WellFormedGroups(g)
    ensures MatchAt(MatchText(g)) == Some(g)
  {
    LinePatternWellFormed();
    PiecesFit(g);
    RunAssembled(LinePattern, Pieces(g), g.uri + ")");
    UriGroupOf(g.uri);
  }

  /** `Regex.find`: the match at the leftmost position where the pattern matches. */
  function Find(s: string): (r: Option<Groups>)
    ensures r.None? <==> forall i | 0 <= i <= |s| :: MatchAt(s[i..]).None?
    ensures r.Some? ==> exists i | 0 <= i <= |s| :: r == MatchAt(s[i..]) && forall j | 0 <= j < i :: MatchAt(s[j..]).None?
    decreases |s|
  {
    if MatchAt(s).Some? then
      assert s[0..] == s;
      MatchAt(s)
    else if s == [] then None
    else
      var r := Find(s[1..]);
      assert forall i | 1 <= i <= |s| :: s[1..][i - 1..] == s[i..];
      assert s[0..] == s;
      if r.Some? then
        ghost var i :| 0 <= i <= |s[1..]| && r == MatchAt(s[1..][i..]) && forall j | 0 <= j < i :: MatchAt(s[1..][j..]).None?;
        assert r == MatchAt(s[i + 1..]);
        assert forall j | 0 <= j < i + 1 :: MatchAt(s[j..]).None? by {
          forall j | 0 <= j < i + 1 ensures MatchAt(s[j..]).None? {
            if j > 0 {
              assert MatchAt(s[1..][j - 1..]).None?;
            }
          }
        }
        r
      else r
  }

  lemma FindAtStart(s: string)
    requires MatchAt(s).Some?
    ensures Find(s) == MatchAt(s)
  {
  }

  /** When the pattern's literal start occurs only at the beginning of the line, `find` looks nowhere else. */
  lemma {:induction false} FindOnlyAtStart(s: string)
    requires forall i | 1 <= i <= |s| :: !StartsWith(s[i..], "ButtonID_")
    ensures Find(s) == MatchAt(s)
  {
    forall i | 1 <= i <= |s| ensures MatchAt(s[i..]).None? {
      if MatchAt(s[i..]).Some? {
        MatchStartsWithLiteral(s[i..]);
      }
    }
    assert s[0..] == s;
  }

  // ---------------------------------------------------------------------------
  // Encoding (`saveButtonState`, one line per control)

  function BoolText(v: bool): string {
    if v then "true" else "false"
  }

  /** The uri the decoder rebuilds: the icon `<id>.<ext>` in the USER_UI directory. */
  function UriFor(userUi: string, id: int, ext: string): string {
    "file://" + userUi + "/" + IntToString(id) + "." + ext
  }

  /** The last field: `null`, or an unterminated `File("` prefix, the path, and the old uri's extension. */
  function UriField(userUi: string, b: ButtonState): string {
    match b.uri
    case None => "null"
    case Some(u) => "File(\"" + userUi + "/" + IntToString(b.id) + "." + SubstringAfterLast(u, '.')
  }

  /** The line written for a control: the pattern's text filled with the control's fields (see `EncodeLineFormat`). */
  function EncodeLine(userUi: string, b: ButtonState): string {
    MatchText(GroupsOf(userUi, b))
  }

  /** The groups the encoder writes for a control. */
  function GroupsOf(userUi: string, b: ButtonState): Groups {
    Groups(IntToString(b.id), ToString(b.size), ToString(b.offsetX), ToString(b.offsetY),
           BoolText(b.isLocked), IntToString(b.keyCode), b.color, ToString(b.alpha), UriField(userUi, b))
  }

  /** The text a step consumes when it captures `piece`, followed by `rest`. */
  function StepThen(st: Step, piece: string, rest: string): string {
    match st
    case Literal(_) => piece + rest
    case Capture(_, sep) => piece + ([sep] + rest)
    case Either(_, _, sep) => piece + ([sep] + rest)
  }

  /** Peeling step `k` off the assembled text, given what step `k` is and what follows it. */
  lemma AssembleStep(steps: seq<Step>, pieces: seq<string>, k: nat, tail: string, st: Step, piece: string, rest: string)
    requires |pieces| == |steps| && k < |steps|
    requires steps[k] == st && pieces[k] == piece
    requires Assemble(steps[k + 1..], pieces[k + 1..]) + tail == rest
    ensures Assemble(steps[k..], pieces[k..]) + tail == StepThen(st, piece, rest)
  {
    assert steps[k..][1..] == steps[k + 1..];
    assert pieces[k..][1..] == pieces[k + 1..];
    assert Assemble(steps[k..], pieces[k..]) + tail == StepText(st, piece) + rest;
    match st
    case Literal(_) =>
    case Capture(_, sep) =>
      assert (piece + [sep]) + rest == piece + ([sep] + rest);
    case Either(_, _, sep) =>
      assert (piece + [sep]) + rest == piece + ([sep] + rest);
  }

  /** The second half of a match: from the lock flag to the closing parenthesis. */
  lemma MatchTextShapeTail(g: Groups)
    ensures Assemble(LinePattern[5..], Pieces(g)[5..]) + (g.uri + ")")
         == g.locked + (";" + (g.keyCode + (";" + ("Color."
            + (g.color + (";" + (g.alpha + (";" + (g.uri + ")")))))))))
  {
    var P := Pieces(g);
    var L := LinePattern;
    var tail := g.uri + ")";
    assert Assemble(L[10..], P[10..]) + tail == tail by { assert L[10..] == [] && P[10..] == []; }
    var t9 := g.alpha + (";" + tail);
    AssembleStep(L, P, 9, tail, Capture(NumeralChars, ';'), g.alpha, tail);
    var t8 := g.color + (";" + t9);
    AssembleStep(L, P, 8, tail, Capture(WordChars, ';'), g.color, t9);
    var t7 := "Color." + t8;
    AssembleStep(L, P, 7, tail, Literal("Color."), "Color.", t8);
    var t6 := g.keyCode + (";" + t7);
    AssembleStep(L, P, 6, tail, Capture(DigitChars, ';'), g.keyCode, t7);
    AssembleStep(L, P, 5, tail, Either("true", "false", ';'), g.locked, t6);
  }

  /** The first half of a match after the literal start: from the id to the end. */
  lemma MatchTextShapeBody(g: Groups)
    ensures Assemble(LinePattern[1..], Pieces(g)[1..]) + (g.uri + ")")
         == g.id + ("(" + (g.size + (";" + (g.offsetX + (";"
            + (g.offsetY + (";" + (g.locked + (";" + (g.keyCode + (";" + ("Color."
            + (g.color + (";" + (g.alpha + (";" + (g.uri + ")")))))))))))))))))
  {
    var P := Pieces(g);
    var L := LinePattern;
    var tail := g.uri + ")";
    var t5 := g.locked + (";" + (g.keyCode + (";" + ("Color."
            + (g.color + (";" + (g.alpha + (";" + (g.uri + ")")))))))));
    MatchTextShapeTail(g);
    var t4 := g.offsetY + (";" + t5);
    AssembleStep(L, P, 4, tail, Capture(NumeralChars, ';'), g.offsetY, t5);
    var t3 := g.offsetX + (";" + t4);
    AssembleStep(L, P, 3, tail, Capture(NumeralChars, ';'), g.offsetX, t4);
    var t2 := g.size + (";" + t3);
    AssembleStep(L, P, 2, tail, Capture(NumeralChars, ';'), g.size, t3);
    AssembleStep(L, P, 1, tail, Capture(DigitChars, '('), g.id, t2);
  }

  /** The text of a match is the line template filled with the groups. */
  lemma MatchTextShape(g: Groups)
    ensures MatchText(g)
         == "ButtonID_" + (g.id + ("(" + (g.size + (";" + (g.offsetX + (";"
            + (g.offsetY + (";" + (g.locked + (";" + (g.keyCode + (";" + ("Color."
            + (g.color + (";" + (g.alpha + (";" + (g.uri + ")"))))))))))))))))))
  {
    var P := Pieces(g);
    var L := LinePattern;
    MatchTextShapeBody(g);
    AssembleStep(L, P, 0, g.uri + ")", Literal("ButtonID_"), "ButtonID_", Assemble(L[1..], P[1..]) + (g.uri + ")"));
    assert L[0..] == L && P[0..] == P;
  }

  /**
   * The line written for a control is
   * `ButtonID_<id>(<size>;<offsetX>;<offsetY>;<isLocked>;<keyCode>;Color.<color>;<alpha>;<uri>)`.
   */
  lemma EncodeLineFormat(userUi: string, b: ButtonState)
    ensures EncodeLine(userUi, b)
         == "ButtonID_" + (IntToString(b.id) + ("(" + (ToString(b.size) + (";" + (ToString(b.offsetX) + (";"
            + (ToString(b.offsetY) + (";" + (BoolText(b.isLocked) + (";" + (IntToString(b.keyCode) + (";" + ("Color."
            + (b.color + (";" + (ToString(b.alpha) + (";" + (UriField(userUi, b) + ")"))))))))))))))))))
  {
    MatchTextShape(GroupsOf(userUi, b));
  }

  // ---------------------------------------------------------------------------
  // Decoding (`loadButtonState`, one line)

  /** `toInt` of a digit group: it throws above `Int.MAX_VALUE`. */
  function ToInt(s: string): (r: Option<int>)
    ensures r.Some? ==> 0 <= r.value <= INT_MAX
  {
    if |s| >= 1 && AllDigits(s) && DigitsValue(s) <= INT_MAX then Some(DigitsValue(s)) else None
  }

  /** The decoded uri: none for `null`, otherwise rebuilt from the id and the text after the last `.`. */
  function UriOf(userUi: string, id: int, field: string): Option<string> {
    if field == "null" then None else Some(UriFor(userUi, id, SubstringAfterLast(field, '.')))
  }

  /** The conversions of a match's groups; `None` where a `toInt` or `toFloat` would throw. */
  function Convert(userUi: string, g: Groups): Option<ButtonState> {
    var id, size, offsetX, offsetY := ToInt(g.id), ParseUnsigned(g.size), ParseUnsigned(g.offsetX), ParseUnsigned(g.offsetY);
    var keyCode, alpha := ToInt(g.keyCode), ParseUnsigned(g.alpha);
    if id.Some? && size.Some? && offsetX.Some? && offsetY.Some? && keyCode.Some? && alpha.Some? then
      Some(ButtonState(id.value, size.value, offsetX.value, offsetY.value, g.locked == "true", keyCode.value,
                       g.color, alpha.value, UriOf(userUi, id.value, g.uri)))
    else None
  }

  /** What one line does to the load as the source is written: skipped, loaded, or an exception. */
  datatype Outcome = Skipped | Loaded(state: ButtonState) | Crashed

  /** One line as written: a group the regex accepts but `toInt` / `toFloat` refuses throws out of the load. */
  function DecodeLineAsWritten(userUi: string, line: string): Outcome {
    match Find(line)
    case None => Skipped
    case Some(g) =>
      match Convert(userUi, g)
      case None => Crashed
      case Some(b) => Loaded(b)
  }

  /** One line, with a line the conversions refuse skipped like a line the regex refuses. */
  function DecodeLine(userUi: string, line: string): Option<ButtonState> {
    match Find(line)
    case None => None
    case Some(g) => Convert(userUi, g)
  }

  /** The corrected decoder differs from the source only where the source throws. */
  lemma DecodeLineAgrees(userUi: string, line: string)
    ensures DecodeLineAsWritten(userUi, line) == Skipped ==> DecodeLine(userUi, line) == None
    ensures forall b :: DecodeLineAsWritten(userUi, line) == Loaded(b) <==> DecodeLine(userUi, line) == Some(b)
    ensures DecodeLineAsWritten(userUi, line) == Crashed ==> DecodeLine(userUi, line) == None
  {
  }

  // ---------------------------------------------------------------------------
  // What survives a save and a load

  predicate NoLineTerminator(s: string) {
    AllInClass(s, LineChars)
  }

  /** A non-negative decimal in shortest form: what `toFloat` of a `[\d.]+` token can give back. */
  predicate Storable(d: Decimal) {
    Canonical(d) && d.mantissa >= 0
  }

  /** The extension the encoder keeps from a uri. */
  function Extension(u: string): string {
    SubstringAfterLast(u, '.')
  }

  /** The extension of a one-line uri is one line. */
  lemma ExtensionNoTerminator(u: string)
    requires NoLineTerminator(u)
    ensures NoLineTerminator(Extension(u))
  {
    var ext := Extension(u);
    forall j | 0 <= j < |ext| ensures InClass(ext[j], LineChars) {
      assert ext[j] == u[|u| - |ext| + j];
    }
  }

  /** Every field of a control fits its group of the pattern, whatever form its uri has. */
  predicate Encodable(userUi: string, b: ButtonState) {
    0 <= b.id <= INT_MAX && 0 <= b.keyCode <= INT_MAX
    && Storable(b.size) && Storable(b.offsetX) && Storable(b.offsetY) && Storable(b.alpha)
    && |b.color| >= 1 && AllInClass(b.color, WordChars)
    && NoLineTerminator(userUi)
    && (b.uri.Some? ==> NoLineTerminator(Extension(b.uri.value)))
  }

  /** The uri a control has after a save and a load. */
  function SavedUri(userUi: string, b: ButtonState): Option<string> {
    match b.uri
    case None => None
    case Some(u) => Some(UriFor(userUi, b.id, Extension(u)))
  }

  /** A control that a save and a load give back unchanged. */
  predicate Persistable(userUi: string, b: ButtonState) {
    Encodable(userUi, b) && b.uri == SavedUri(userUi, b)
  }

  lemma NatDigitsGroup(n: nat)
    ensures |IntToString(n)| >= 1 && AllDigits(IntToString(n)) && DigitsValue(IntToString(n)) == n
  {
    DigitsValueOfNatToString(n);
  }

  lemma NoTerminatorJoin(a: string, b: string)
    requires NoLineTerminator(a) && NoLineTerminator(b)
    ensures NoLineTerminator(a + b)
  {
    forall i | 0 <= i < |a + b| ensures InClass((a + b)[i], LineChars) {
      if i < |a| {
        assert (a + b)[i] == a[i];
      } else {
        assert (a + b)[i] == b[i - |a|];
      }
    }
  }

  lemma DigitsHaveNoTerminator(s: string)
    requires AllDigits(s)
    ensures NoLineTerminator(s)
  {
    forall i | 0 <= i < |s| ensures InClass(s[i], LineChars) {
      assert IsDigit(s[i]);
    }
  }

  lemma UriFieldShape(userUi: string, b: ButtonState)
    requires Encodable(userUi, b)
    ensures |UriField(userUi, b)| >= 1 && NoLineTerminator(UriField(userUi, b))
    ensures b.uri.Some? ==> UriField(userUi, b) != "null"
    ensures b.uri.Some? ==> UriField(userUi, b) == "File(\"" + userUi + "/" + IntToString(b.id) + "." + Extension(b.uri.value)
  {
    if b.uri.Some? {
      var ext := Extension(b.uri.value);
      var digits := IntToString(b.id);
      NatDigitsGroup(b.id);
      DigitsHaveNoTerminator(digits);
      var f := "File(\"" + userUi + "/" + digits + "." + ext;
      assert f[0] == 'F';
      assert NoLineTerminator("File(\"");
      assert NoLineTerminator("/");
      assert NoLineTerminator(".");
      NoTerminatorJoin("File(\"", userUi);
      NoTerminatorJoin("File(\"" + userUi, "/");
      NoTerminatorJoin("File(\"" + userUi + "/", digits);
      NoTerminatorJoin("File(\"" + userUi + "/" + digits, ".");
      NoTerminatorJoin("File(\"" + userUi + "/" + digits + ".", ext);
    } else {
      assert NoLineTerminator("null");
    }
  }

  lemma EncodableGroups(userUi: string, b: ButtonState)
    requires Encodable(userUi, b)
    ensures WellFormedGroups(GroupsOf(userUi, b))
  {
    NatDigitsGroup(b.id);
    NatDigitsGroup(b.keyCode);
    UnsignedIsNumeral(b.size);
    UnsignedIsNumeral(b.offsetX);
    UnsignedIsNumeral(b.offsetY);
    UnsignedIsNumeral(b.alpha);
    UriFieldShape(userUi, b);
  }

  /** The extension survives the trip: the decoder reads back the text after the last `.` the encoder wrote. */
  lemma ExtensionOfUriField(userUi: string, b: ButtonState)
    requires b.uri.Some?
    ensures Extension(UriField(userUi, b)) == Extension(b.uri.value)
  {
    var ext := Extension(b.uri.value);
    var pre := "File(\"" + userUi + "/" + IntToString(b.id);
    assert UriField(userUi, b) == pre + ['.'] + ext;
    SubstringAfterLastOfJoin(pre, '.', ext);
  }

  /** The line written for a control is found at its start, with the groups the encoder wrote. */
  lemma FindEncodeLine(userUi: string, b: ButtonState)
    requires Encodable(userUi, b)
    ensures Find(EncodeLine(userUi, b)) == Some(GroupsOf(userUi, b))
  {
    var g := GroupsOf(userUi, b);
    EncodableGroups(userUi, b);
    MatchOfMatchText(g);
    FindAtStart(MatchText(g));
  }

  /** The groups written for a control convert back to the control, with its uri as rebuilt. */
  lemma ConvertGroupsOf(userUi: string, b: ButtonState)
    requires Encodable(userUi, b)
    ensures Convert(userUi, GroupsOf(userUi, b)) == Some(b.(uri := SavedUri(userUi, b)))
  {
    var g := GroupsOf(userUi, b);
    assert ToInt(g.id) == Some(b.id) by { NatDigitsGroup(b.id); }
    assert ToInt(g.keyCode) == Some(b.keyCode) by { NatDigitsGroup(b.keyCode); }
    assert ParseUnsigned(g.size) == Some(b.size) by { ParseToString(b.size); }
    assert ParseUnsigned(g.offsetX) == Some(b.offsetX) by { ParseToString(b.offsetX); }
    assert ParseUnsigned(g.offsetY) == Some(b.offsetY) by { ParseToString(b.offsetY); }
    assert ParseUnsigned(g.alpha) == Some(b.alpha) by { ParseToString(b.alpha); }
    assert UriOf(userUi, b.id, g.uri) == SavedUri(userUi, b) by { UriOfUriField(userUi, b); }
    assert (g.locked == "true") == b.isLocked;
    ConvertOf(userUi, g, b, SavedUri(userUi, b));
  }

  /** Groups whose conversions give back the fields of a control convert to that control. */
  lemma ConvertOf(userUi: string, g: Groups, b: ButtonState, uri: Option<string>)
    requires ToInt(g.id) == Some(b.id) && ToInt(g.keyCode) == Some(b.keyCode)
    requires ParseUnsigned(g.size) == Some(b.size) && ParseUnsigned(g.alpha) == Some(b.alpha)
    requires ParseUnsigned(g.offsetX) == Some(b.offsetX) && ParseUnsigned(g.offsetY) == Some(b.offsetY)
    requires (g.locked == "true") == b.isLocked && g.color == b.color
    requires UriOf(userUi, b.id, g.uri) == uri
    ensures Convert(userUi, g) == Some(b.(uri := uri))
  {
  }

  /** The decoder rebuilds from the last field the uri a save and a load give a control. */
  lemma UriOfUriField(userUi: string, b: ButtonState)
    requires Encodable(userUi, b)
    ensures UriOf(userUi, b.id, UriField(userUi, b)) == SavedUri(userUi, b)
  {
    UriFieldShape(userUi, b);
    if b.uri.Some? {
      ExtensionOfUriField(userUi, b);
    }
  }

  /**
   * Encoding then decoding a control gives it back, with its uri rebuilt as
   * `file://<USER_UI>/<id>.<ext>` from the extension alone.
   */
  lemma DecodeEncode(userUi: string, b: ButtonState)
    requires Encodable(userUi, b)
    ensures DecodeLine(userUi, EncodeLine(userUi, b)) == Some(b.(uri := SavedUri(userUi, b)))
  {
    FindEncodeLine(userUi, b);
    ConvertGroupsOf(userUi, b);
  }

  /** A persistable control comes back from its own line unchanged. */
  lemma DecodeEncodePersistable(userUi: string, b: ButtonState)
    requires Persistable(userUi, b)
    ensures DecodeLine(userUi, EncodeLine(userUi, b)) == Some(b)
  {
    DecodeEncode(userUi, b);
  }

  /** Whatever the decoder produces is persistable: saving and loading it again changes nothing. */
  lemma DecodedIsPersistable(userUi: string, line: string)
    requires NoLineTerminator(userUi)
    requires DecodeLine(userUi, line).Some?
    ensures Persistable(userUi, DecodeLine(userUi, line).value)
  {
    var g := Find(line).value;
    ghost var i :| 0 <= i <= |line| && Some(g) == MatchAt(line[i..]);
    MatchAtSound(line[i..]);
    ConvertedIsPersistable(userUi, g);
  }

  /** Converting well-formed groups gives a control that a save and a load leave unchanged. */
  lemma ConvertedIsPersistable(userUi: string, g: Groups)
    requires NoLineTerminator(userUi) && WellFormedGroups(g)
    requires Convert(userUi, g).Some?
    ensures Persistable(userUi, Convert(userUi, g).value)
  {
    var b := Convert(userUi, g).value;
    assert 0 <= b.id <= INT_MAX && 0 <= b.keyCode <= INT_MAX;
    assert Storable(b.size) && Storable(b.offsetX) && Storable(b.offsetY) && Storable(b.alpha);
    assert |b.color| >= 1 && AllInClass(b.color, WordChars);
    assert b.uri == UriOf(userUi, b.id, g.uri);
    UriOfPersistable(userUi, b.id, g.uri);
  }

  /** A uri rebuilt from a one-line field has a one-line extension and is rebuilt to itself. */
  lemma UriOfPersistable(userUi: string, id: int, field: string)
    requires NoLineTerminator(field)
    ensures var u := UriOf(userUi, id, field);
            u.Some? ==> NoLineTerminator(Extension(u.value)) && u.value == UriFor(userUi, id, Extension(u.value))
  {
    if field != "null" {
      var ext := Extension(field);
      ExtensionNoTerminator(field);
      UriForExtension(userUi, id, ext);
    }
  }

  /** The extension of a rebuilt uri is the extension it was rebuilt from. */
  lemma UriForExtension(userUi: string, id: int, ext: string)
    requires '.' !in ext
    ensures Extension(UriFor(userUi, id, ext)) == ext
  {
    var pre := "file://" + userUi + "/" + IntToString(id);
    assert UriFor(userUi, id, ext) == pre + ['.'] + ext;
    SubstringAfterLastOfJoin(pre, '.', ext);
  }

  // ---------------------------------------------------------------------------
  // Lines the pattern refuses

  /** The pattern's literal start occurs nowhere in the line but at its beginning. */
  predicate StartsOnlyAtBeginning(line: string) {
    forall i | 1 <= i <= |line| :: !StartsWith(line[i..], "ButtonID_")
  }

  /** Some numeric field of the control is negative, so its text begins with a minus sign. */
  predicate HasNegativeField(b: ButtonState) {
    b.id < 0 || b.size.mantissa < 0 || b.offsetX.mantissa < 0 || b.offsetY.mantissa < 0
    || b.keyCode < 0 || b.alpha.mantissa < 0
  }

  lemma DigitsInClass(s: string)
    requires AllDigits(s)
    ensures AllInClass(s, DigitChars)
  {
    forall i | 0 <= i < |s| ensures InClass(s[i], DigitChars) {
      assert IsDigit(s[i]);
    }
  }

  lemma NumeralInClass(s: string)
    requires IsNumeral(s)
    ensures AllInClass(s, NumeralChars)
  {
    forall i | 0 <= i < |s| ensures InClass(s[i], NumeralChars) {
      assert IsNumeralChar(s[i]);
    }
  }

  /** The pieces the encoder writes for the fields before step `k` fit their steps, when those fields are not negative. */
  lemma FitsBefore(userUi: string, b: ButtonState, k: nat)
    requires k < |LinePattern|
    requires k > 1 ==> b.id >= 0
    requires k > 2 ==> b.size.mantissa >= 0
    requires k > 3 ==> b.offsetX.mantissa >= 0
    requires k > 4 ==> b.offsetY.mantissa >= 0
    requires k > 6 ==> b.keyCode >= 0
    requires k > 8 ==> |b.color| >= 1 && AllInClass(b.color, WordChars)
    ensures forall i | 0 <= i < k :: StepWellFormed(LinePattern[i]) && Fits(LinePattern[i], Pieces(GroupsOf(userUi, b))[i])
  {
    LinePatternWellFormed();
    forall i | 0 <= i < k ensures Fits(LinePattern[i], Pieces(GroupsOf(userUi, b))[i]) {
      FitsAt(userUi, b, i);
    }
  }

  /** The piece the encoder writes for step `i` fits the step, when its field is not negative. */
  lemma FitsAt(userUi: string, b: ButtonState, i: nat)
    requires i < 9
    requires i == 1 ==> b.id >= 0
    requires i == 2 ==> b.size.mantissa >= 0
    requires i == 3 ==> b.offsetX.mantissa >= 0
    requires i == 4 ==> b.offsetY.mantissa >= 0
    requires i == 6 ==> b.keyCode >= 0
    requires i == 8 ==> |b.color| >= 1 && AllInClass(b.color, WordChars)
    ensures Fits(LinePattern[i], Pieces(GroupsOf(userUi, b))[i])
  {
    var g := GroupsOf(userUi, b);
    var p := Pieces(g);
    if i == 0 {
      assert LinePattern[0] == Literal("ButtonID_") && p[0] == "ButtonID_";
    } else if i == 1 {
      NatDigitsGroup(b.id);
      DigitsInClass(g.id);
      assert LinePattern[1] == Capture(DigitChars, '(') && p[1] == g.id;
    } else if i == 2 {
      UnsignedIsNumeral(b.size);
      NumeralInClass(g.size);
      assert LinePattern[2] == Capture(NumeralChars, ';') && p[2] == g.size;
    } else if i == 3 {
      UnsignedIsNumeral(b.offsetX);
      NumeralInClass(g.offsetX);
      assert LinePattern[3] == Capture(NumeralChars, ';') && p[3] == g.offsetX;
    } else if i == 4 {
      UnsignedIsNumeral(b.offsetY);
      NumeralInClass(g.offsetY);
      assert LinePattern[4] == Capture(NumeralChars, ';') && p[4] == g.offsetY;
    } else if i == 5 {
      assert LinePattern[5] == Either("true", "false", ';') && p[5] == BoolText(b.isLocked);
    } else if i == 6 {
      NatDigitsGroup(b.keyCode);
      DigitsInClass(g.keyCode);
      assert LinePattern[6] == Capture(DigitChars, ';') && p[6] == g.keyCode;
    } else if i == 7 {
      assert LinePattern[7] == Literal("Color.") && p[7] == "Color.";
    } else {
      assert LinePattern[8] == Capture(WordChars, ';') && p[8] == b.color;
    }
  }

  /** The steps stop at a field that begins with a minus sign when the fields before it fit. */
  lemma StopsAtField(userUi: string, b: ButtonState, k: nat)
    requires k < |LinePattern| && LinePattern[k].Capture?
    requires forall i | 0 <= i < k :: StepWellFormed(LinePattern[i]) && Fits(LinePattern[i], Pieces(GroupsOf(userUi, b))[i])
    requires Pieces(GroupsOf(userUi, b))[k] != [] && Pieces(GroupsOf(userUi, b))[k][0] == '-'
    ensures RunSteps(LinePattern, MatchText(GroupsOf(userUi, b))) == None
  {
    assert LinePattern[k].cls != LineChars;
    RunStopsAt(LinePattern, Pieces(GroupsOf(userUi, b)), k, UriField(userUi, b) + ")");
  }

  /** Step `k` captures the first negative field of the control. */
  predicate FirstNegativeAt(b: ButtonState, k: nat) {
    (k == 1 && b.id < 0)
    || (k == 2 && b.id >= 0 && b.size.mantissa < 0)
    || (k == 3 && b.id >= 0 && b.size.mantissa >= 0 && b.offsetX.mantissa < 0)
    || (k == 4 && b.id >= 0 && b.size.mantissa >= 0 && b.offsetX.mantissa >= 0 && b.offsetY.mantissa < 0)
    || (k == 6 && b.id >= 0 && b.size.mantissa >= 0 && b.offsetX.mantissa >= 0 && b.offsetY.mantissa >= 0
        && b.keyCode < 0)
    || (k == 9 && b.id >= 0 && b.size.mantissa >= 0 && b.offsetX.mantissa >= 0 && b.offsetY.mantissa >= 0
        && b.keyCode >= 0 && b.alpha.mantissa < 0)
  }

  /** The piece of the first negative field starts with a minus sign. */
  lemma MinusPiece(userUi: string, b: ButtonState, k: nat)
    requires FirstNegativeAt(b, k)
    ensures Pieces(GroupsOf(userUi, b))[k] != [] && Pieces(GroupsOf(userUi, b))[k][0] == '-'
  {
    var g := GroupsOf(userUi, b);
    var field := if k == 1 then g.id else if k == 2 then g.size else if k == 3 then g.offsetX
      else if k == 4 then g.offsetY else if k == 6 then g.keyCode else g.alpha;
    if k == 2 {
      NegativeNotNumeral(b.size);
    } else if k == 3 {
      NegativeNotNumeral(b.offsetX);
    } else if k == 4 {
      NegativeNotNumeral(b.offsetY);
    } else if k == 9 {
      NegativeNotNumeral(b.alpha);
    }
    assert field != [] && field[0] == '-';
    PieceOfField(g, k);
  }

  /** The piece of a numeric step is the group of its field. */
  lemma PieceOfField(g: Groups, k: nat)
    requires k in {1, 2, 3, 4, 6, 9}
    ensures Pieces(g)[k] == if k == 1 then g.id else if k == 2 then g.size else if k == 3 then g.offsetX
      else if k == 4 then g.offsetY else if k == 6 then g.keyCode else g.alpha
  {
  }

  /** The steps stop at the first negative field. */
  lemma StopsAtNegative(userUi: string, b: ButtonState, k: nat)
    requires |b.color| >= 1 && AllInClass(b.color, WordChars)
    requires FirstNegativeAt(b, k)
    ensures RunSteps(LinePattern, MatchText(GroupsOf(userUi, b))) == None
  {
    MinusPiece(userUi, b, k);
    FitsBefore(userUi, b, k);
    StopsAtField(userUi, b, k);
  }

  /** The steps stop at the first negative field: its minus sign is outside the capture's class. */
  lemma NegativeFieldStops(userUi: string, b: ButtonState)
    requires |b.color| >= 1 && AllInClass(b.color, WordChars)
    requires HasNegativeField(b)
    ensures RunSteps(LinePattern, MatchText(GroupsOf(userUi, b))) == None
  {
    var k := if b.id < 0 then 1
      else if b.size.mantissa < 0 then 2
      else if b.offsetX.mantissa < 0 then 3
      else if b.offsetY.mantissa < 0 then 4
      else if b.keyCode < 0 then 6
      else 9;
    StopsAtNegative(userUi, b, k);
  }

  /**
   * A control with a negative number is written but never read back: the
   * numeric groups are `[\d.]+`, so the line is skipped.
   */
  lemma NegativeFieldDropped(userUi: string, b: ButtonState)
    requires |b.color| >= 1 && AllInClass(b.color, WordChars)
    requires HasNegativeField(b)
    requires StartsOnlyAtBeginning(EncodeLine(userUi, b))
    ensures DecodeLineAsWritten(userUi, EncodeLine(userUi, b)) == Skipped
    ensures DecodeLine(userUi, EncodeLine(userUi, b)) == None
  {
    FindOnlyAtStart(EncodeLine(userUi, b));
    NegativeFieldStops(userUi, b);
  }

  // ---------------------------------------------------------------------------
  // Lines the pattern accepts but the conversions refuse

  /**
   * A line whose groups the pattern accepts but a `toInt` or `toFloat`
   * refuses: the load as written throws out of `mapNotNull` instead of
   * skipping the line.
   */
  lemma AsWrittenCrashes(userUi: string, g: Groups)
    requires WellFormedGroups(g) && Convert(userUi, g).None?
    ensures DecodeLineAsWritten(userUi, MatchText(g)) == Crashed
    ensures DecodeLine(userUi, MatchText(g)) == None
  {
    MatchOfMatchText(g);
    FindAtStart(MatchText(g));
  }

  /** The groups of the line `ButtonID_1(1.2.3;0.0;0.0;false;29;Color.Black;0.25;null)`. */
  const TwoPointGroups := Groups("1", "1.2.3", "0.0", "0.0", "false", "29", "Black", "0.25", "null")

  /** Two points in the size group: `[\d.]+` accepts the token, `toFloat` refuses it. */
  lemma TwoPointsRefused(userUi: string)
    ensures WellFormedGroups(TwoPointGroups) && Convert(userUi, TwoPointGroups).None?
  {
    var g := TwoPointGroups;
    assert AllDigits(g.id) && AllDigits(g.keyCode);
    assert IsNumeral(g.size) && IsNumeral(g.offsetX) && IsNumeral(g.offsetY) && IsNumeral(g.alpha);
    assert AllInClass(g.color, WordChars) && AllInClass(g.uri, LineChars);
    assert IndexOf(g.size, '.') == Some(1);
    assert ParseUnsigned(g.size) == None;
  }

  /** The groups of the line `ButtonID_3000000000(60.0;0.0;0.0;false;29;Color.Black;0.25;null)`. */
  const OverflowGroups := Groups("3000000000", "60.0", "0.0", "0.0", "false", "29", "Black", "0.25", "null")

  /** An id above `Int.MAX_VALUE`: `\d+` accepts it, `toInt` refuses it. */
  lemma OverflowRefused(userUi: string)
    ensures WellFormedGroups(OverflowGroups) && Convert(userUi, OverflowGroups).None?
  {
    var g := OverflowGroups;
    assert AllDigits(g.id) && AllDigits(g.keyCode);
    assert IsNumeral(g.size) && IsNumeral(g.offsetX) && IsNumeral(g.offsetY) && IsNumeral(g.alpha);
    assert AllInClass(g.color, WordChars) && AllInClass(g.uri, LineChars);
    var rest := g.id[1..];
    assert g.id == [g.id[0]] + rest;
    DigitsValueAppend([g.id[0]], rest);
    assert DigitsValue(g.id) >= 3 * Pow10(9);
  }
}
