/**
 * The few pieces of Kotlin's string library the launcher relies on:
 * decimal rendering of integers (`Int.toString`), digit parsing, prefix
 * and substring tests, `substringAfterLast`, `removePrefix` and `trim`.
 * Strings are sequences of Unicode scalar values.
 */
module Text {
  import opened Wrappers

  // ---------------------------------------------------------------------------
  // Characters

  predicate IsDigit(c: char) {
    '0' <= c <= '9'
  }

  predicate AllDigits(s: string) {
    forall i | 0 <= i < |s| :: IsDigit(s[i])
  }

  function DigitChar(d: nat): (c: char)
    requires d < 10
    ensures IsDigit(c) && DigitValue(c) == d
  {
    ('0' as int + d) as char
  }

  function DigitValue(c: char): (d: nat)
    requires IsDigit(c)
    ensures d < 10
  {
    c as int - '0' as int
  }

  /**
   * Kotlin's `Char.isWhitespace()` on the JVM: `Character.isWhitespace` or
   * `Character.isSpaceChar`, that is the space, line and paragraph separators
   * and the controls U+0009..U+000D and U+001C..U+001F. The control U+0085 is
   * neither, so it is not whitespace.
   */
  predicate IsWhitespace(c: char) {
    var n := c as int;
    n == 0x20 || 0x09 <= n <= 0x0D || 0x1C <= n <= 0x1F || n == 0xA0
    || n == 0x1680 || 0x2000 <= n <= 0x200A || n == 0x2028 || n == 0x2029
    || n == 0x202F || n == 0x205F || n == 0x3000
  }

  // ---------------------------------------------------------------------------
  // Powers of ten and digit strings

  function Pow10(n: nat): (p: nat)
    ensures p >= 1
  {
    if n == 0 then 1 else 10 * Pow10(n - 1)
  }

  /** The value of a string of decimal digits, most significant first (`""` is 0). */
  function DigitsValue(s: string): nat
    requires AllDigits(s)
  {
    if s == [] then 0 else DigitsValue(s[..|s| - 1]) * 10 + DigitValue(s[|s| - 1])
  }

  /** `Int.toString()` for a non-negative value: no leading zero except for 0 itself. */
  function NatToString(n: nat): (s: string)
    ensures |s| >= 1 && AllDigits(s)
    ensures (s[0] == '0') <==> (n == 0)
    ensures n < 10 <==> |s| == 1
  {
    if n < 10 then [DigitChar(n)] else NatToString(n / 10) + [DigitChar(n % 10)]
  }

  /** `Int.toString()`: a leading minus sign for negative values. */
  function IntToString(i: int): (s: string)
    ensures |s| >= 1
    ensures i >= 0 ==> AllDigits(s)
    ensures i < 0 ==> s[0] == '-'
  {
    if i < 0 then "-" + NatToString(-i) else NatToString(i)
  }

  /** A decimal numeral with an optional minus sign, read back to its value. */
  function ParseInt(s: string): Option<int> {
    if |s| >= 2 && s[0] == '-' && AllDigits(s[1..]) then Some(-(DigitsValue(s[1..]) as int))
    else if |s| >= 1 && AllDigits(s) then Some(DigitsValue(s))
    else None
  }

  lemma {:induction false} DigitsValueOfNatToString(n: nat)
    ensures DigitsValue(NatToString(n)) == n
  {
    if n >= 10 {
      var s := NatToString(n);
      assert s[..|s| - 1] == NatToString(n / 10);
      DigitsValueOfNatToString(n / 10);
    }
  }

  lemma {:induction false} DigitsValueAppend(a: string, b: string)
    requires AllDigits(a) && AllDigits(b)
    ensures AllDigits(a + b)
    ensures DigitsValue(a + b) == DigitsValue(a) * Pow10(|b|) + DigitsValue(b)
  {
    if b == [] {
      assert a + b == a;
    } else {
      var ab := a + b;
      var b' := b[..|b| - 1];
      assert ab[..|ab| - 1] == a + b';
      assert ab[|ab| - 1] == b[|b| - 1];
      DigitsValueAppend(a, b');
      var da, db', d := DigitsValue(a), DigitsValue(b'), DigitValue(b[|b| - 1]);
      var p' := Pow10(|b'|);
      assert DigitsValue(ab) == DigitsValue(a + b') * 10 + d;
      assert DigitsValue(b) == db' * 10 + d && Pow10(|b|) == p' * 10;
      ShiftDigit(da, db', d, p');
    }
  }

  /** Appending a digit to the right part of a split number: the arithmetic step. */
  lemma ShiftDigit(da: int, db: int, d: int, p: int)
    ensures (da * p + db) * 10 + d == da * (p * 10) + (db * 10 + d)
  {
    assert (da * p) * 10 == da * (p * 10);
  }

  /** A run of zeros: what left padding adds in front of a numeral. */
  function Zeros(n: nat): (s: string)
    ensures |s| == n && AllDigits(s)
  {
    if n == 0 then "" else "0" + Zeros(n - 1)
  }

  lemma {:induction false} ZerosValue(n: nat)
    ensures DigitsValue(Zeros(n)) == 0
  {
    if n > 0 {
      var z := Zeros(n);
      assert z == Zeros(n - 1) + "0" by { ZerosSnoc(n); }
      assert z[..|z| - 1] == Zeros(n - 1);
      ZerosValue(n - 1);
    }
  }

  lemma {:induction false} ZerosSnoc(n: nat)
    requires n > 0
    ensures Zeros(n) == Zeros(n - 1) + "0"
  {
    if n > 1 {
      ZerosSnoc(n - 1);
    }
  }

  /** Leading zeros do not change the value of a numeral. */
  lemma LeadingZerosValue(n: nat, s: string)
    requires AllDigits(s)
    ensures AllDigits(Zeros(n) + s) && DigitsValue(Zeros(n) + s) == DigitsValue(s)
  {
    DigitsValueAppend(Zeros(n), s);
    ZerosValue(n);
  }

  lemma ParseIntOfIntToString(i: int)
    ensures ParseInt(IntToString(i)) == Some(i)
  {
    var s := IntToString(i);
    if i < 0 {
      var digits := NatToString(-i);
      assert s == "-" + digits;
      assert s[1..] == digits;
      DigitsValueOfNatToString(-i);
    } else {
      assert s == NatToString(i);
      DigitsValueOfNatToString(i);
    }
  }

  // ---------------------------------------------------------------------------
  // Prefixes, occurrences and slicing

  predicate StartsWith(s: string, prefix: string) {
    |prefix| <= |s| && s[..|prefix|] == prefix
  }

  predicate OccursAt(s: string, sub: string, i: nat) {
    i + |sub| <= |s| && s[i..i + |sub|] == sub
  }

  /** `CharSequence.contains(other)`, case-sensitive. */
  predicate Contains(s: string, sub: string) {
    exists i | 0 <= i <= |s| :: OccursAt(s, sub, i)
  }

  /** `removePrefix`: the prefix is dropped only when the string starts with it. */
  function RemovePrefix(s: string, prefix: string): (r: string)
    ensures StartsWith(s, prefix) ==> s == prefix + r
    ensures !StartsWith(s, prefix) ==> r == s
  {
    if StartsWith(s, prefix) then s[|prefix|..] else s
  }

  /** The index of the first occurrence of `c`, if any. */
  function IndexOf(s: string, c: char): (r: Option<nat>)
    ensures r.None? <==> c !in s
    ensures r.Some? ==> r.value < |s| && s[r.value] == c && c !in s[..r.value]
  {
    if s == [] then None
    else if s[0] == c then Some(0)
    else match IndexOf(s[1..], c)
      case None => None
      case Some(k) => assert s[..k + 1] == [s[0]] + s[1..][..k]; Some(k + 1)
  }

  /** The index of the last occurrence of `c`, if any. */
  function LastIndexOf(s: string, c: char): (r: Option<nat>)
    ensures r.None? <==> c !in s
    ensures r.Some? ==> r.value < |s| && s[r.value] == c && c !in s[r.value + 1..]
  {
    if s == [] then None
    else if s[|s| - 1] == c then Some(|s| - 1)
    else
      var r := LastIndexOf(s[..|s| - 1], c);
      assert s == s[..|s| - 1] + [s[|s| - 1]];
      if r.Some? then
        assert s[r.value + 1..] == s[..|s| - 1][r.value + 1..] + [s[|s| - 1]];
        r
      else r
  }

  /** `substringAfterLast(c)`: the whole string when `c` does not occur. */
  function SubstringAfterLast(s: string, c: char): (r: string)
    ensures c !in r
    ensures |r| <= |s| && r == s[|s| - |r|..]
    ensures c !in s ==> r == s
    ensures c in s ==> |r| < |s| && s[|s| - |r| - 1] == c
  {
    match LastIndexOf(s, c)
    case None => s
    case Some(k) => s[k + 1..]
  }

  lemma SubstringAfterLastOfJoin(a: string, c: char, b: string)
    requires c !in b
    ensures SubstringAfterLast(a + [c] + b, c) == b
  {
    var s := a + [c] + b;
    assert s[|a|] == c;
    assert s[|a| + 1..] == b;
  }

  // ---------------------------------------------------------------------------
  // Trimming

  predicate AllWhitespace(s: string) {
    forall k | 0 <= k < |s| :: IsWhitespace(s[k])
  }

  /** `trimStart()`: drops exactly the leading whitespace. */
  function TrimStart(s: string): (r: string)
    ensures |r| <= |s|
    ensures r == s[|s| - |r|..]
    ensures AllWhitespace(s[..|s| - |r|])
    ensures r != [] ==> !IsWhitespace(r[0])
  {
    if s != [] && IsWhitespace(s[0]) then
      var r := TrimStart(s[1..]);
      assert s[..|s| - |r|] == [s[0]] + s[1..][..|s| - 1 - |r|];
      r
    else s
  }

  /** `trimEnd()`: drops exactly the trailing whitespace. */
  function TrimEnd(s: string): (r: string)
    ensures |r| <= |s|
    ensures r == s[..|r|]
    ensures AllWhitespace(s[|r|..])
    ensures r != [] ==> !IsWhitespace(r[|r| - 1])
  {
    if s != [] && IsWhitespace(s[|s| - 1]) then
      var r := TrimEnd(s[..|s| - 1]);
      assert s[|r|..] == s[..|s| - 1][|r|..] + [s[|s| - 1]];
      r
    else s
  }

  /** No whitespace at either end. */
  predicate Trimmed(s: string) {
    s != [] ==> !IsWhitespace(s[0]) && !IsWhitespace(s[|s| - 1])
  }

  /** The number of whitespace characters `s` starts with. */
  function LeadingWhitespace(s: string): (n: nat)
    ensures n <= |s|
    ensures AllWhitespace(s[..n])
    ensures n < |s| ==> !IsWhitespace(s[n])
  {
    if s != [] && IsWhitespace(s[0]) then
      var n := 1 + LeadingWhitespace(s[1..]);
      assert s[..n] == [s[0]] + s[1..][..n - 1];
      n
    else 0
  }

  /** `trimStart()` drops exactly the leading whitespace. */
  lemma TrimStartDropsLeading(s: string)
    ensures TrimStart(s) == s[LeadingWhitespace(s)..]
  {
    if s != [] && IsWhitespace(s[0]) {
      TrimStartDropsLeading(s[1..]);
    }
  }

  /** `trim()`: the string without leading and trailing whitespace (TrimIsSlice says which part of `s` it is). */
  function Trim(s: string): (r: string)
    ensures Trimmed(r)
    ensures Trimmed(s) ==> r == s
  {
    TrimEndOfTrimStart(s);
    TrimOfTrimmed(s);
    TrimEnd(TrimStart(s))
  }

  lemma TrimEndOfTrimStart(s: string)
    ensures Trimmed(TrimEnd(TrimStart(s)))
  {
    var t := TrimStart(s);
    var r := TrimEnd(t);
    if r != [] {
      assert r[0] == t[0];
    }
  }

  lemma TrimOfTrimmed(s: string)
    ensures Trimmed(s) ==> TrimEnd(TrimStart(s)) == s
  {
  }

  /**
   * What `trim()` keeps: the part of `s` that starts right after its leading
   * whitespace and has only whitespace after it. With `Trimmed(Trim(s))`
   * this determines the result.
   */
  lemma TrimIsSlice(s: string)
    ensures LeadingWhitespace(s) + |Trim(s)| <= |s|
    ensures Trim(s) == s[LeadingWhitespace(s)..LeadingWhitespace(s) + |Trim(s)|]
    ensures AllWhitespace(s[LeadingWhitespace(s) + |Trim(s)|..])
  {
    TrimStartPart(s);
    TrimEndPart(s);
  }

  lemma TrimStartPart(s: string)
    ensures LeadingWhitespace(s) + |Trim(s)| <= |s|
    ensures Trim(s) == s[LeadingWhitespace(s)..LeadingWhitespace(s) + |Trim(s)|]
  {
    TrimStartDropsLeading(s);
    SuffixSlices(s, LeadingWhitespace(s), |Trim(s)|);
  }

  lemma TrimEndPart(s: string)
    ensures LeadingWhitespace(s) + |Trim(s)| <= |s|
    ensures AllWhitespace(s[LeadingWhitespace(s) + |Trim(s)|..])
  {
    TrimStartDropsLeading(s);
    SuffixSlices(s, LeadingWhitespace(s), |Trim(s)|);
  }

  /** Slicing a suffix `s[i..]` again is slicing `s`. */
  lemma SuffixSlices(s: string, i: nat, m: nat)
    requires i + m <= |s|
    ensures s[i..][..m] == s[i..i + m]
    ensures s[i..][m..] == s[i + m..]
  {
  }

  /** A prefix of `a + [c] + b` that reaches past `c`. */
  lemma PrefixOfJoin(a: string, c: char, b: string, m: nat)
    requires |a| < m <= |a| + 1 + |b|
    ensures (a + [c] + b)[..m] == a + [c] + b[..m - |a| - 1]
  {
  }

  /** Trimming a string that starts with a non-blank character keeps a prefix reaching past every non-blank position. */
  lemma TrimKeepsPrefix(s: string, n: nat)
    requires n < |s| && !IsWhitespace(s[0]) && !IsWhitespace(s[n])
    ensures n < |Trim(s)| && Trim(s) == s[..|Trim(s)|]
  {
    var t := Trim(s);
    TrimIsSlice(s);
    assert LeadingWhitespace(s) == 0;
    WhitespaceSuffixBound(s, |t|, n);
  }

  /** A position past `m` holds whitespace when everything from `m` on is whitespace. */
  lemma WhitespaceSuffixBound(s: string, m: nat, n: nat)
    requires m <= |s| && AllWhitespace(s[m..]) && n < |s|
    ensures m <= n ==> IsWhitespace(s[n])
  {
    assert m <= n ==> s[m..][n - m] == s[n];
  }

  // ---------------------------------------------------------------------------
  // Case-insensitive search (ASCII letters fold)

  function UpperAscii(c: char): char {
    if 'a' <= c <= 'z' then (c as int - 32) as char else c
  }

  predicate EqualsIgnoreCase(a: char, b: char) {
    a == b || UpperAscii(a) == UpperAscii(b)
  }

  predicate OccursIgnoreCaseAt(s: string, sub: string, i: nat) {
    i + |sub| <= |s| && forall j | 0 <= j < |sub| :: EqualsIgnoreCase(s[i + j], sub[j])
  }

  /** `contains(other, ignoreCase = true)`. */
  predicate ContainsIgnoreCase(s: string, sub: string) {
    exists i | 0 <= i <= |s| :: OccursIgnoreCaseAt(s, sub, i)
  }
}
