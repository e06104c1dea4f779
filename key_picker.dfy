/**
 * The key picker of `KeySelectionMenu`: the letters, function keys and
 * named keys it offers for a new button, and their labels. A key is offered
 * only when no existing button uses it and it is not one of the movement
 * keys W, A, S, D, which the left thumbstick drives.
 */
module KeyPicker {
  import opened Seqs
  import opened Text
  import opened KeyCodes

  /** The movement keys, added to the used keys. */
  const ReservedKeys: seq<int> := [KEYCODE_A, KEYCODE_S, KEYCODE_D, KEYCODE_W]

  function AllUsedKeys(usedKeys: seq<int>): (r: seq<int>)
    ensures forall k :: k in r <==> k in usedKeys || IsMovementKey(k)
  {
    usedKeys + ReservedKeys
  }

  /** The key code of a letter: `KEYCODE_A + (c - 'A')`. */
  function LetterCode(c: char): int {
    KEYCODE_A + (c as int - 'A' as int)
  }

  /** `'A'..'Z'`. */
  const Alphabet: string := "ABCDEFGHIJKLMNOPQRSTUVWXYZ"

  /** `KEYCODE_F1..KEYCODE_F12`. */
  const FunctionKeyCodes: seq<int> := [131, 132, 133, 134, 135, 136, 137, 138, 139, 140, 141, 142]

  /** The alphabet holds the letters in order, and the function keys run from F1 to F12. */
  lemma KeyRanges()
    ensures |Alphabet| == 26 && forall i | 0 <= i < 26 :: Alphabet[i] as int == 'A' as int + i
    ensures |FunctionKeyCodes| == 12 && forall i | 0 <= i < 12 :: FunctionKeyCodes[i] == KEYCODE_F1 + i
  {
  }

  /** The named keys, in the order the menu lists them. */
  const AdditionalKeyCodes: seq<int> := [
    KEYCODE_SHIFT_LEFT, KEYCODE_SHIFT_RIGHT, KEYCODE_CTRL_LEFT, KEYCODE_CTRL_RIGHT,
    KEYCODE_ALT_LEFT, KEYCODE_ALT_RIGHT, KEYCODE_SPACE, KEYCODE_ESCAPE,
    KEYCODE_ENTER, KEYCODE_GRAVE]

  /** The letters offered. */
  function LetterKeys(usedKeys: seq<int>): seq<char> {
    Filter(Alphabet, c => LetterCode(c) !in AllUsedKeys(usedKeys))
  }

  /** The function keys offered. */
  function FKeys(usedKeys: seq<int>): seq<int> {
    Filter(FunctionKeyCodes, k => k !in AllUsedKeys(usedKeys))
  }

  /** The named keys offered. */
  function AdditionalKeys(usedKeys: seq<int>): seq<int> {
    Filter(AdditionalKeyCodes, k => k !in AllUsedKeys(usedKeys))
  }

  function LetterCodes(cs: seq<char>): (r: seq<int>)
    ensures |r| == |cs| && forall i | 0 <= i < |cs| :: r[i] == LetterCode(cs[i])
  {
    if cs == [] then [] else [LetterCode(cs[0])] + LetterCodes(cs[1..])
  }

  /** Every key code the menu offers, in the order it shows them. */
  function OfferedKeys(usedKeys: seq<int>): seq<int> {
    LetterCodes(LetterKeys(usedKeys)) + FKeys(usedKeys) + AdditionalKeys(usedKeys)
  }

  /** The keys the menu can show at all: the 26 letters, F1 to F12 and the named keys. */
  predicate IsPickableKey(k: int) {
    KEYCODE_A <= k < KEYCODE_A + 26 || KEYCODE_F1 <= k <= KEYCODE_F12 || k in AdditionalKeyCodes
  }

  // ---------------------------------------------------------------------------
  // Labels

  /** The label of a function key: `"F<n>"` for `KEYCODE_F1 + n - 1`. */
  function FunctionKeyLabel(k: int): string
    requires KEYCODE_F1 <= k <= KEYCODE_F12
  {
    "F" + NatToString(k - KEYCODE_F1 + 1)
  }

  /** The label of a named key; any other code shows as its number. */
  function AdditionalKeyLabel(k: int): string {
    if k == KEYCODE_SHIFT_LEFT then "Shift-L"
    else if k == KEYCODE_SHIFT_RIGHT then "Shift-R"
    else if k == KEYCODE_CTRL_LEFT then "Ctrl-L"
    else if k == KEYCODE_CTRL_RIGHT then "Ctrl-R"
    else if k == KEYCODE_ALT_LEFT then "Alt-L"
    else if k == KEYCODE_ALT_RIGHT then "Alt-R"
    else if k == KEYCODE_SPACE then "Space"
    else if k == KEYCODE_ESCAPE then "Escape"
    else if k == KEYCODE_ENTER then "Enter"
    else if k == KEYCODE_GRAVE then "`"
    else IntToString(k)
  }

  // ---------------------------------------------------------------------------
  // Properties

  /** The menu never offers a key some button already uses, nor a movement key. */
  lemma OffersNoUsedKey(usedKeys: seq<int>)
    ensures forall k | k in OfferedKeys(usedKeys) :: k !in usedKeys && !IsMovementKey(k)
  {
    LettersFree(usedKeys);
  }

  lemma LetterKeysFree(usedKeys: seq<int>)
    ensures forall i | 0 <= i < |LetterKeys(usedKeys)| ::
      var c := LetterKeys(usedKeys)[i]; LetterCode(c) !in usedKeys && !IsMovementKey(LetterCode(c)) && 'A' <= c <= 'Z'
  {
    var letters := LetterKeys(usedKeys);
    forall i | 0 <= i < |letters| ensures LetterCode(letters[i]) !in usedKeys && !IsMovementKey(LetterCode(letters[i])) && 'A' <= letters[i] <= 'Z' {
      assert letters[i] in letters;
      AlphabetLetters(letters[i]);
    }
  }

  lemma {:induction false} LettersFree(usedKeys: seq<int>)
    ensures forall k | k in LetterCodes(LetterKeys(usedKeys)) :: k !in usedKeys && !IsMovementKey(k) && KEYCODE_A <= k < KEYCODE_A + 26
  {
    var letters := LetterKeys(usedKeys);
    LetterKeysFree(usedKeys);
    var codes := LetterCodes(letters);
    forall k | k in codes ensures k !in usedKeys && !IsMovementKey(k) && KEYCODE_A <= k < KEYCODE_A + 26 {
      var i :| 0 <= i < |codes| && codes[i] == k;
      assert codes[i] == LetterCode(letters[i]);
    }
  }

  lemma AlphabetLetters(c: char)
    requires c in Alphabet
    ensures 'A' <= c <= 'Z'
  {
    KeyRanges();
    var j :| 0 <= j < |Alphabet| && Alphabet[j] == c;
  }

  lemma {:induction false} LettersComplete(usedKeys: seq<int>)
    ensures forall k | KEYCODE_A <= k < KEYCODE_A + 26 && k !in usedKeys && !IsMovementKey(k) :: k in LetterCodes(LetterKeys(usedKeys))
  {
    var letters := LetterKeys(usedKeys);
    KeyRanges();
    forall k | KEYCODE_A <= k < KEYCODE_A + 26 && k !in usedKeys && !IsMovementKey(k) ensures k in LetterCodes(letters) {
      var c := Alphabet[k - KEYCODE_A];
      assert c in Alphabet && LetterCode(c) == k;
      assert c in letters;
      var i :| 0 <= i < |letters| && letters[i] == c;
      assert LetterCodes(letters)[i] == k;
    }
  }

  lemma {:induction false} FKeysExact(usedKeys: seq<int>)
    ensures forall k :: k in FKeys(usedKeys) <==> KEYCODE_F1 <= k <= KEYCODE_F12 && k !in usedKeys && !IsMovementKey(k)
  {
    KeyRanges();
    forall k | KEYCODE_F1 <= k <= KEYCODE_F12 ensures k in FunctionKeyCodes {
      assert FunctionKeyCodes[k - KEYCODE_F1] == k;
    }
  }

  lemma AdditionalExact(usedKeys: seq<int>)
    ensures forall k :: k in AdditionalKeys(usedKeys) <==> k in AdditionalKeyCodes && k !in usedKeys && !IsMovementKey(k)
  {
  }

  /** Every pickable key that is free is offered, and nothing else is. */
  lemma OffersEveryFreeKey(usedKeys: seq<int>)
    ensures forall k :: k in OfferedKeys(usedKeys) <==> IsPickableKey(k) && k !in usedKeys && !IsMovementKey(k)
  {
    var a, b, c := LetterCodes(LetterKeys(usedKeys)), FKeys(usedKeys), AdditionalKeys(usedKeys);
    LettersFree(usedKeys);
    LettersComplete(usedKeys);
    FKeysExact(usedKeys);
    AdditionalExact(usedKeys);
    assert OfferedKeys(usedKeys) == a + b + c;
    forall k | k in a + b + c ensures IsPickableKey(k) && k !in usedKeys && !IsMovementKey(k) {
      if k in a {
      } else if k in b {
      } else {
        assert k in c;
      }
    }
    forall k | IsPickableKey(k) && k !in usedKeys && !IsMovementKey(k) ensures k in a + b + c {
      if KEYCODE_A <= k < KEYCODE_A + 26 {
        assert k in a;
      } else if KEYCODE_F1 <= k <= KEYCODE_F12 {
        assert k in b;
      } else {
        assert k in c;
      }
    }
  }

  /** The letters are offered in alphabetical order, the function keys in ascending order. */
  lemma OfferedInOrder(usedKeys: seq<int>)
    ensures forall i, j | 0 <= i < j < |LetterKeys(usedKeys)| :: LetterKeys(usedKeys)[i] < LetterKeys(usedKeys)[j]
    ensures forall i, j | 0 <= i < j < |FKeys(usedKeys)| :: FKeys(usedKeys)[i] < FKeys(usedKeys)[j]
  {
    FilterKeepsOrder(Alphabet, c => LetterCode(c) !in AllUsedKeys(usedKeys), (a: char, b: char) => a < b);
    FilterKeepsOrder(FunctionKeyCodes, k => k !in AllUsedKeys(usedKeys), (a: int, b: int) => a < b);
  }

  /** A function key's label names its number. */
  lemma FunctionKeyLabels()
    ensures FunctionKeyLabel(KEYCODE_F1) == "F1" && FunctionKeyLabel(KEYCODE_F12) == "F12"
  {
    assert NatToString(12) == NatToString(1) + [DigitChar(2)];
  }
}
