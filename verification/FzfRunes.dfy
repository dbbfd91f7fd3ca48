/** Characters, case folding, character classes and bonuses of the fzf matcher (src/utils/scripts/fzf.js).
    A rune is a UTF-16 code unit or a code point. What JavaScript's Unicode tables say about non-ASCII runes
    is a parameter of the model; everything about ASCII runes is spelled out. */
module FzfRunes {
  import opened Wrappers

  type Rune = int

  /** 0 none, 1 lower, 2 upper, 3 letter, 4 number. */
  type CharClass = int

  /** What a normalised rune becomes: the accent table only holds ASCII letters. */
  type AsciiLetter = r: int | 65 <= r <= 90 || 97 <= r <= 122 witness 65

  /** JavaScript's answers about non-ASCII runes, and the accent table. */
  datatype Unicode = Unicode(
    classOfNonAscii: Rune -> CharClass,
    toLower: Rune -> Rune,
    plainLetter: Rune -> Option<AsciiLetter>)

  const MAX_ASCII := 127
  const SCORE_MATCH := 16
  const SCORE_GAP_START := -3
  const SCORE_GAP_EXTENSION := -1
  const BONUS_BOUNDARY := 8
  const BONUS_NON_WORD := 8
  const BONUS_CAMEL_123 := 7
  const BONUS_CONSECUTIVE := 4

  /** What a single first match scores: its bonus counts twice. */
  function FirstMatchScore(bonus: int): int {
    16 + 2 * bonus
  }

  /** No score of a pattern of `m` runes exceeds what an exact match is awarded (src/utils/scripts/fzf.js:903). */
  function ScoreCap(m: nat): int {
    24 * m + 8
  }

  function Max(a: int, b: int): int {
    if a > b then a else b
  }

  predicate IsUpperAscii(r: int) {
    65 <= r <= 90
  }

  predicate IsLowerAscii(r: int) {
    97 <= r <= 122
  }

  predicate IsAscii(t: seq<Rune>) {
    forall i :: 0 <= i < |t| ==> t[i] < 128
  }

  function NormalizeRune(u: Unicode, r: Rune): Rune {
    if r < 192 || r > 8580 then r
    else match u.plainLetter(r)
         case None => r
         case Some(letter) => letter
  }

  function ClassOfAscii(r: Rune): CharClass {
    if IsLowerAscii(r) then 1
    else if IsUpperAscii(r) then 2
    else if 48 <= r <= 57 then 4
    else 0
  }

  function ClassOf(u: Unicode, r: Rune): CharClass {
    if r <= MAX_ASCII then ClassOfAscii(r) else u.classOfNonAscii(r)
  }

  function BonusFor(prev: CharClass, curr: CharClass): (b: int)
    ensures 0 <= b <= BONUS_BOUNDARY
  {
    if prev == 0 && curr != 0 then BONUS_BOUNDARY
    else if (prev == 1 && curr == 2) || (prev != 4 && curr == 4) then BONUS_CAMEL_123
    else if curr == 0 then BONUS_NON_WORD
    else 0
  }

  /** Bonuses of ASCII runes: 8 for other characters and after them, 7 for a capital after a small letter and for the
      first digit of a number, and nothing within words and numbers. */
  lemma BonusOfKinds(u: Unicode, a: Rune, b: Rune)
    requires a <= 127 && b <= 127
    ensures var (small, capital) := (97 <= b <= 122, 65 <= b <= 90);
      var (digit, afterDigit, afterSmall) := (48 <= b <= 57, 48 <= a <= 57, 97 <= a <= 122);
      BonusFor(ClassOf(u, a), ClassOf(u, b)) ==
        if !small && !capital && !digit then 8
        else if !afterSmall && !afterDigit && !(65 <= a <= 90) then 8
        else if (capital && afterSmall) || (digit && !afterDigit) then 7 else 0
  {
  }

  /** All of them, by class before and class: none, lower, upper, letter and number. */
  lemma BonusOfClasses(prev: CharClass, curr: CharClass)
    requires 0 <= prev <= 4 && 0 <= curr <= 4
    ensures BonusFor(prev, curr) == [[8, 8, 8, 8, 8], [8, 0, 7, 0, 7], [8, 0, 0, 0, 7], [8, 0, 0, 0, 7],
                                     [8, 0, 0, 0, 0]][prev][curr]
  {
  }

  function BonusAt(u: Unicode, t: seq<Rune>, i: nat): (b: int)
    requires i < |t|
    ensures 0 <= b <= BONUS_BOUNDARY
  {
    if i == 0 then BONUS_BOUNDARY else BonusFor(ClassOf(u, t[i - 1]), ClassOf(u, t[i]))
  }

  /** The class the scans start from: the rune before `i`, or none at the start of the text. */
  function ClassBefore(u: Unicode, t: seq<Rune>, i: nat): CharClass
    requires i <= |t|
  {
    if i == 0 then 0 else ClassOf(u, t[i - 1])
  }

  /** The text as `fuzzyMatchV2` folds it: only runes of the upper class are lower-cased. */
  function FoldV2(u: Unicode, cs: bool, nz: bool, r: Rune): Rune {
    if r <= MAX_ASCII then
      if !cs && IsUpperAscii(r) then r + 32 else r
    else
      var l := if !cs && u.classOfNonAscii(r) == 2 then u.toLower(r) else r;
      if nz then NormalizeRune(u, l) else l
  }

  /** Lower-casing as the other matchers do it. */
  function Lower(u: Unicode, cs: bool, r: Rune): Rune {
    if cs then r
    else if IsUpperAscii(r) then r + 32
    else if r > MAX_ASCII then u.toLower(r)
    else r
  }

  function FoldV1(u: Unicode, cs: bool, nz: bool, r: Rune): Rune {
    if nz then NormalizeRune(u, Lower(u, cs, r)) else Lower(u, cs, r)
  }

  function FoldTextV2(u: Unicode, cs: bool, nz: bool, t: seq<Rune>): (f: seq<Rune>)
    ensures |f| == |t|
    ensures forall i :: 0 <= i < |t| ==> f[i] == FoldV2(u, cs, nz, t[i])
  {
    seq(|t|, i requires 0 <= i < |t| => FoldV2(u, cs, nz, t[i]))
  }

  function FoldTextV1(u: Unicode, cs: bool, nz: bool, t: seq<Rune>): (f: seq<Rune>)
    ensures |f| == |t|
    ensures forall i :: 0 <= i < |t| ==> f[i] == FoldV1(u, cs, nz, t[i])
  {
    seq(|t|, i requires 0 <= i < |t| => FoldV1(u, cs, nz, t[i]))
  }

  /** Both foldings turn ASCII capitals into small letters unless case matters, and leave other ASCII runes alone. */
  lemma AsciiFolds(u: Unicode, cs: bool, nz: bool, r: Rune)
    requires r <= 127
    ensures FoldV2(u, cs, nz, r) == FoldV1(u, cs, nz, r) == if !cs && 65 <= r <= 90 then r + 32 else r
  {
  }

  /** A plain letter is put in place of an accented one from 192 to 8580 if normalisation is on. */
  lemma AccentsGo(u: Unicode, cs: bool, r: Rune)
    requires r > 127
    ensures FoldV1(u, true, false, r) == r
    ensures FoldV1(u, cs, true, r) ==
      var l := if cs then r else u.toLower(r);
      if 192 <= l <= 8580 && u.plainLetter(l).Some? then u.plainLetter(l).value else l
  {
  }
}
