/**
 * One on-screen control as the layout store keeps it (`ButtonState`), the
 * ids reserved for the two thumbsticks, and the colour names the controls
 * persist (`toColor` / `toColorString`).
 */
module ButtonModel {
  import opened Wrappers
  import opened Decimals

  const LEFT_THUMBSTICK_ID := 99
  const RIGHT_THUMBSTICK_ID := 98

  /**
   * A control: its id, size and offsets (dp), whether it is locked, the key
   * it sends, its colour name, its alpha and, optionally, the text of its
   * icon uri.
   */
  datatype ButtonState = ButtonState(
    id: int,
    size: Decimal,
    offsetX: Decimal,
    offsetY: Decimal,
    isLocked: bool,
    keyCode: int,
    color: string,
    alpha: Decimal,
    uri: Option<string>)

  predicate IsThumbstickId(id: int) {
    id == LEFT_THUMBSTICK_ID || id == RIGHT_THUMBSTICK_ID
  }

  /** The entries the layout file lists last, and the activities keep out of the user buttons. */
  predicate IsThumbstick(b: ButtonState) {
    IsThumbstickId(b.id)
  }

  predicate IsUserButton(b: ButtonState) {
    !IsThumbstickId(b.id)
  }

  // ---------------------------------------------------------------------------
  // Colours

  /** The nine palette colours, and any other colour value a control could hold. */
  datatype Color = Black | Gray | White | Red | Green | Blue | Yellow | Magenta | Cyan | Unlisted

  const PaletteNames: seq<string> := ["Black", "Gray", "White", "Red", "Green", "Blue", "Yellow", "Magenta", "Cyan"]

  /** `String.toColor()`: the nine palette names map to their colour, anything else to gray. */
  function ToColor(s: string): (c: Color)
    ensures c != Unlisted
    ensures c == Gray <==> s == "Gray" || s !in PaletteNames
  {
    match s
    case "Black" => Black
    case "Gray" => Gray
    case "White" => White
    case "Red" => Red
    case "Green" => Green
    case "Blue" => Blue
    case "Yellow" => Yellow
    case "Magenta" => Magenta
    case "Cyan" => Cyan
    case _ => Gray
  }

  /** `Color.toColorString()`: the palette name, and "Gray" for any colour outside the palette. */
  function ToColorString(c: Color): (s: string)
    ensures s in PaletteNames
    ensures c == Unlisted ==> s == "Gray"
  {
    match c
    case Black => "Black"
    case Gray => "Gray"
    case White => "White"
    case Red => "Red"
    case Green => "Green"
    case Blue => "Blue"
    case Yellow => "Yellow"
    case Magenta => "Magenta"
    case Cyan => "Cyan"
    case Unlisted => "Gray"
  }

  /** A colour name read from the layout survives a trip through the colour only if it is a palette name. */
  lemma ColorNameRoundTrip(s: string)
    ensures ToColorString(ToColor(s)) == (if s in PaletteNames then s else "Gray")
  {
  }

  /** Every palette colour comes back from its own name. */
  lemma ColorRoundTrip(c: Color)
    requires c != Unlisted
    ensures ToColor(ToColorString(c)) == c
  {
  }

  /** Distinct palette colours have distinct names. */
  lemma ColorStringInjective(c: Color, d: Color)
    requires c != Unlisted && d != Unlisted && ToColorString(c) == ToColorString(d)
    ensures c == d
  {
    ColorRoundTrip(c);
    ColorRoundTrip(d);
  }
}
