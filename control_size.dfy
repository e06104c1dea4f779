/**
 * The size steps of the on-screen controls: "+" grows a control by a fixed
 * step with no upper bound, "-" shrinks it by the same step but never below
 * 50 dp.
 */
module ControlSize {
  import opened Decimals

  /** The smallest size a shrink leaves, in dp. */
  const MIN_SIZE := 50

  /** `size += step`. */
  function Grow(size: Decimal, step: nat): (r: Decimal)
    ensures Value(r) == Value(size) + step as real
  {
    AddValue(size, FromInt(step));
    Add(size, FromInt(step))
  }

  /** `size -= step; if (size < 50) size = 50`. */
  function Shrink(size: Decimal, step: nat): (r: Decimal)
    ensures Value(r) == if Value(size) - step as real < MIN_SIZE as real then MIN_SIZE as real else Value(size) - step as real
  {
    var smaller := Add(size, FromInt(-(step as int)));
    AddValue(size, FromInt(-(step as int)));
    if Less(smaller, FromInt(MIN_SIZE)) then FromInt(MIN_SIZE) else smaller
  }

  /** After any shrink the size is at least 50 dp. */
  lemma ShrinkAtLeastMin(size: Decimal, step: nat)
    ensures Value(Shrink(size, step)) >= MIN_SIZE as real
  {
  }

  /** A shrink never grows a control that is at least the minimum, and a grow never shrinks one. */
  lemma ShrinkNotAboveGrow(size: Decimal, step: nat)
    requires Value(size) >= MIN_SIZE as real
    ensures Value(Shrink(size, step)) <= Value(size) <= Value(Grow(size, step))
  {
  }

  /** Shrinking undoes a grow. */
  lemma ShrinkUndoesGrow(size: Decimal, step: nat)
    requires Value(size) >= MIN_SIZE as real
    ensures Value(Shrink(Grow(size, step), step)) == Value(size)
  {
  }

  /** From the minimum a shrink stays at the minimum. */
  lemma ShrinkAtMin(size: Decimal, step: nat)
    requires Value(size) == MIN_SIZE as real
    ensures Value(Shrink(size, step)) == MIN_SIZE as real
  {
  }
}
