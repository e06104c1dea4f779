/**
 * Two helpers of the launcher's user-interface tools: writing the screen
 * resolution into `settings.cfg` (`updateResolutionInConfig`), and the byte
 * counts of the memory read-out (`humanReadableByteCountBin`) below one KiB.
 * The settings file is its lines.
 */
module UITools {
  import opened Wrappers
  import opened Text

  // The lines the resolution update looks for, and the text it writes in their place.
  const WIDTH_COMMENT: string := "# Width of screen"
  const HEIGHT_COMMENT: string := "# Height of screen"
  const RESOLUTION_Y_UNSET: string := "resolution y = 0"
  const RESOLUTION_X_UNSET: string := "resolution x = 0"
  const WIDTH_NOTE: string := "# Width recommended for your device = "
  const HEIGHT_NOTE: string := "# Height recommended for your device = "
  const RESOLUTION_Y: string := "resolution y = "
  const RESOLUTION_X: string := "resolution x = "

  // ---------------------------------------------------------------------------
  // `updateResolutionInConfig`

  /** The resolution in landscape: the two values, the larger one as the width. */
  function Landscape(width: int, height: int): (r: (int, int))
    ensures r.0 >= r.1
    ensures multiset{r.0, r.1} == multiset{width, height}
  {
    if width > height then (width, height) else (height, width)
  }

  /** Whether the line is one the update rewrites. */
  predicate IsResolutionLine(line: string) {
    StartsWith(line, WIDTH_COMMENT) || StartsWith(line, HEIGHT_COMMENT)
    || StartsWith(line, RESOLUTION_Y_UNSET) || StartsWith(line, RESOLUTION_X_UNSET)
  }

  /** One line of the update, for the landscape width `w` and height `h`; the first matching prefix wins. */
  function RewriteLine(line: string, w: int, h: int): string {
    if StartsWith(line, WIDTH_COMMENT) then WIDTH_NOTE + IntToString(w)
    else if StartsWith(line, HEIGHT_COMMENT) then HEIGHT_NOTE + IntToString(h)
    else if StartsWith(line, RESOLUTION_Y_UNSET) then RESOLUTION_Y + IntToString(h)
    else if StartsWith(line, RESOLUTION_X_UNSET) then RESOLUTION_X + IntToString(w)
    else line
  }

  /** The settings file after the update: each line rewritten on its own. */
  function UpdatedSettings(lines: seq<string>, width: int, height: int): (r: seq<string>)
    ensures |r| == |lines|
    ensures forall i | 0 <= i < |lines| && !IsResolutionLine(lines[i]) :: r[i] == lines[i]
  {
    var (w, h) := Landscape(width, height);
    seq(|lines|, i requires 0 <= i < |lines| => RewriteLine(lines[i], w, h))
  }

  /** `x` does not start with `p` when they differ at a position both have. */
  lemma DiffersAt(x: string, p: string, i: nat)
    requires i < |p| && i < |x| && x[i] != p[i]
    ensures !StartsWith(x, p)
  {
  }

  /** A line `prefix + s` starts with `prefix + [c]` exactly when `s` starts with `c`. */
  lemma StartsWithNext(prefix: string, s: string, c: char)
    requires |s| >= 1
    ensures StartsWith(prefix + s, prefix + [c]) <==> s[0] == c
  {
    var x := prefix + s;
    assert x[|prefix|] == s[0];
    if s[0] == c {
      assert x[..|prefix| + 1] == prefix + [c];
    } else {
      DiffersAt(x, prefix + [c], |prefix|);
    }
  }

  /** A number's text starts with `0` only when the number is 0. */
  lemma LeadingZero(n: int)
    ensures IntToString(n)[0] == '0' <==> n == 0
  {
    if n < 0 {
      assert IntToString(n)[0] == '-';
    }
  }

  /** What each kind of rewritten line is, for the second pass. */
  lemma WidthNoteKept(s: string, w: int, h: int)
    ensures RewriteLine(WIDTH_NOTE + s, w, h) == WIDTH_NOTE + s
  {
    var x := WIDTH_NOTE + s;
    assert x[8] == 'r' && x[2] == 'W' && x[0] == '#';
    DiffersAt(x, WIDTH_COMMENT, 8);
    DiffersAt(x, HEIGHT_COMMENT, 2);
    DiffersAt(x, RESOLUTION_Y_UNSET, 0);
    DiffersAt(x, RESOLUTION_X_UNSET, 0);
  }

  lemma HeightNoteKept(s: string, w: int, h: int)
    ensures RewriteLine(HEIGHT_NOTE + s, w, h) == HEIGHT_NOTE + s
  {
    var x := HEIGHT_NOTE + s;
    assert x[9] == 'r' && x[2] == 'H' && x[0] == '#';
    DiffersAt(x, WIDTH_COMMENT, 2);
    DiffersAt(x, HEIGHT_COMMENT, 9);
    DiffersAt(x, RESOLUTION_Y_UNSET, 0);
    DiffersAt(x, RESOLUTION_X_UNSET, 0);
  }

  lemma {:induction false} ResolutionYKept(w: int, h: int)
    ensures RewriteLine(RESOLUTION_Y + IntToString(h), w, h) == RESOLUTION_Y + IntToString(h)
  {
    var x := RESOLUTION_Y + IntToString(h);
    assert x[0] == 'r' && x[11] == 'y';
    DiffersAt(x, WIDTH_COMMENT, 0);
    DiffersAt(x, HEIGHT_COMMENT, 0);
    assert RESOLUTION_Y_UNSET == RESOLUTION_Y + ['0'];
    StartsWithNext(RESOLUTION_Y, IntToString(h), '0');
    LeadingZero(h);
  }

  lemma {:induction false} ResolutionXKept(w: int, h: int)
    ensures RewriteLine(RESOLUTION_X + IntToString(w), w, h) == RESOLUTION_X + IntToString(w)
  {
    var x := RESOLUTION_X + IntToString(w);
    assert x[0] == 'r' && x[11] == 'x';
    DiffersAt(x, WIDTH_COMMENT, 0);
    DiffersAt(x, HEIGHT_COMMENT, 0);
    DiffersAt(x, RESOLUTION_Y_UNSET, 11);
    assert RESOLUTION_X_UNSET == RESOLUTION_X + ['0'];
    StartsWithNext(RESOLUTION_X, IntToString(w), '0');
    LeadingZero(w);
  }

  /** Rewriting a line a second time changes nothing. */
  lemma {:induction false} RewriteTwice(line: string, w: int, h: int)
    ensures RewriteLine(RewriteLine(line, w, h), w, h) == RewriteLine(line, w, h)
  {
    if StartsWith(line, WIDTH_COMMENT) {
      WidthNoteKept(IntToString(w), w, h);
    } else if StartsWith(line, HEIGHT_COMMENT) {
      HeightNoteKept(IntToString(h), w, h);
    } else if StartsWith(line, RESOLUTION_Y_UNSET) {
      ResolutionYKept(w, h);
    } else if StartsWith(line, RESOLUTION_X_UNSET) {
      ResolutionXKept(w, h);
    }
  }

  /** Running the update twice with the same screen size gives the same file as running it once. */
  lemma {:induction false} UpdateIdempotent(lines: seq<string>, width: int, height: int)
    ensures UpdatedSettings(UpdatedSettings(lines, width, height), width, height) == UpdatedSettings(lines, width, height)
  {
    var once := UpdatedSettings(lines, width, height);
    var twice := UpdatedSettings(once, width, height);
    var (w, h) := Landscape(width, height);
    forall i | 0 <= i < |lines| ensures twice[i] == once[i] {
      RewriteTwice(lines[i], w, h);
    }
  }

  /** The unset resolution lines of the file come out holding the landscape width and height, as numbers that read back. */
  lemma {:induction false} ResolutionWritten(lines: seq<string>, width: int, height: int, i: int)
    requires 0 <= i < |lines|
    ensures StartsWith(lines[i], RESOLUTION_X_UNSET) ==> exists s :: UpdatedSettings(lines, width, height)[i] == RESOLUTION_X + s && ParseInt(s) == Some(Landscape(width, height).0)
    ensures StartsWith(lines[i], RESOLUTION_Y_UNSET) ==> exists s :: UpdatedSettings(lines, width, height)[i] == RESOLUTION_Y + s && ParseInt(s) == Some(Landscape(width, height).1)
  {
    var (w, h) := Landscape(width, height);
    var line := lines[i];
    if StartsWith(line, RESOLUTION_X_UNSET) {
      assert line[0] == 'r' && line[11] == 'x';
      DiffersAt(line, WIDTH_COMMENT, 0);
      DiffersAt(line, HEIGHT_COMMENT, 0);
      DiffersAt(line, RESOLUTION_Y_UNSET, 11);
      ParseIntOfIntToString(w);
    }
    if StartsWith(line, RESOLUTION_Y_UNSET) {
      assert line[0] == 'r';
      DiffersAt(line, WIDTH_COMMENT, 0);
      DiffersAt(line, HEIGHT_COMMENT, 0);
      ParseIntOfIntToString(h);
    }
  }

  /** The holder of the resolution the engine is started with (`EngineActivity.resolutionX` and `resolutionY`). */
  class EngineResolution {
    var resolutionX: int
    var resolutionY: int

    constructor()
      ensures resolutionX == 0 && resolutionY == 0
    {
      resolutionX, resolutionY := 0, 0;
    }
  }

  /** The update: the settings file is rewritten and the engine's resolution set to the landscape width and height. */
  method UpdateResolutionInConfig(settings: seq<string>, width: int, height: int, engine: EngineResolution) returns (written: seq<string>)
    modifies engine
    ensures written == UpdatedSettings(settings, width, height)
    ensures engine.resolutionX == Landscape(width, height).0 && engine.resolutionY == Landscape(width, height).1
  {
    var (w, h) := Landscape(width, height);
    written := UpdatedSettings(settings, width, height);
    engine.resolutionX, engine.resolutionY := w, h;
  }

  // ---------------------------------------------------------------------------
  // `humanReadableByteCountBin`, below one KiB

  /** The read-out of a byte count under 1024: the number and ` B`. */
  function SmallByteCount(bytes: int): (s: string)
    requires bytes < 1024
    ensures |s| >= 3 && s[|s| - 2..] == " B"
    ensures ParseInt(s[..|s| - 2]) == Some(bytes)
  {
    var digits := IntToString(bytes);
    ParseIntOfIntToString(bytes);
    assert (digits + " B")[..|digits|] == digits;
    digits + " B"
  }
}
