/**
 * `checkIdCard` of validator/utils.js: the 18-character resident identity
 * number. The source checks, in order, the format, the province code of the
 * first two digits, the birth date of digits 7-14 and the check character,
 * with a loop that sums `(2^i mod 11) * value` over the characters.
 *
 * The birth-date step builds a `Date` from the text and compares it with its
 * own rendering; that is the runtime's date parser, so it is a parameter
 * here (`birthdayRoundTrips`, given the year text, the month number and the
 * day number).
 */
module IdCard {
  import opened Text
  import opened Regex

  predicate IsXLetter(c: char) { c == 'x' || c == 'X' }

  /** `/^\d{17}(\d|x)$/i`: with the `i` flag the `x` also matches `X`. */
  const IdPattern: Re := Cat(Exactly(Digit, 17), Alt(Digit, Class(IsXLetter)))

  /** Seventeen digits, then a digit or the letter x in either case. */
  predicate IdFormat(s: string) {
    |s| == 18 && AllDigits(s[..17]) && (IsDigit(s[17]) || IsXLetter(s[17]))
  }

  lemma IdPatternAccepts(s: string)
    ensures Matches(IdPattern, s) <==> IdFormat(s)
  {
    CatExactly(Digit, 17, Alt(Digit, Class(IsXLetter)), s);
  }

  /** The keys of `aCity`. */
  const CityCodes: set<int> := {
    11, 12, 13, 14, 15, 21, 22, 23, 31, 32, 33, 34, 35, 36, 37, 41, 42, 43, 44, 45, 46,
    50, 51, 52, 53, 54, 61, 62, 63, 64, 65, 71, 81, 82, 91
  }

  /** `idCard.replace(/x$/i, "a")`: a final x or X becomes `a`. */
  function ReplaceTrailingX(s: string): (r: string)
    ensures |r| == |s|
    ensures forall i :: 0 <= i < |s| - 1 ==> r[i] == s[i]
    ensures |s| > 0 ==> r[|s| - 1] == if IsXLetter(s[|s| - 1]) then 'a' else s[|s| - 1]
  {
    if |s| > 0 && IsXLetter(s[|s| - 1]) then s[..|s| - 1] + "a" else s
  }

  /** The characters `parseInt(c, 11)` reads as one base-11 digit. */
  predicate IsBase11(c: char) { IsDigit(c) || c == 'a' || c == 'A' }

  /** `parseInt(c, 11)` of one base-11 digit. */
  function Base11(c: char): (v: nat)
    requires IsBase11(c)
    ensures v <= 10
    ensures IsDigit(c) ==> v == DigitValue(c)
    ensures !IsDigit(c) ==> v == 10
  {
    if IsDigit(c) then DigitValue(c) else 10
  }

  function Pow2(n: nat): nat {
    if n == 0 then 1 else 2 * Pow2(n - 1)
  }

  /** The weight the loop gives to position `k`: `2^(17-k) mod 11`. */
  function Weight(k: nat): nat
    requires k <= 17
  {
    Pow2(17 - k) % 11
  }

  /** After the replacement: seventeen digits and a final digit or `a`. */
  predicate Readable(card: string) {
    |card| == 18 && forall i :: 0 <= i < 18 ==> IsBase11(card[i])
  }

  /** The sum the loop has built once it has read the first `n` positions. */
  function WeightedSum(card: string, n: nat): int
    requires Readable(card) && n <= 18
  {
    if n == 0 then 0 else WeightedSum(card, n - 1) + Weight(n - 1) * Base11(card[n - 1])
  }

  lemma ReplacedReadable(idCard: string)
    requires IdFormat(idCard)
    ensures Readable(ReplaceTrailingX(idCard))
    ensures ReplaceTrailingX(idCard)[..17] == idCard[..17]
  {
    var card := ReplaceTrailingX(idCard);
    forall i | 0 <= i < 18 ensures IsBase11(card[i]) {
      if i < 17 { assert idCard[..17][i] == idCard[i]; }
    }
  }

  /** Everything `checkIdCard` requires of its argument. */
  predicate IdCardValid(idCard: string, birthdayRoundTrips: (string, int, int) -> bool) {
    IdFormat(idCard)
    && Decimal(idCard[..2]) in CityCodes
    && birthdayRoundTrips(idCard[6..10], Decimal(idCard[10..12]), Decimal(idCard[12..14]))
    && Checksum(idCard) % 11 == 1
  }

  /** The loop's sum over the number after the replacement. */
  function Checksum(idCard: string): int
    requires IdFormat(idCard)
  {
    ReplacedReadable(idCard);
    WeightedSum(ReplaceTrailingX(idCard), 18)
  }

  /** After the format check the city code and the birthday fields are digits the replacement leaves alone. */
  lemma FormatFields(idCard: string)
    requires IdFormat(idCard)
    ensures AllDigits(idCard[..2]) && AllDigits(idCard[10..12]) && AllDigits(idCard[12..14])
    ensures var card := ReplaceTrailingX(idCard);
      Readable(card) && card[..2] == idCard[..2] && card[6..10] == idCard[6..10]
      && card[10..12] == idCard[10..12] && card[12..14] == idCard[12..14]
  {
    ReplacedReadable(idCard);
    var card := ReplaceTrailingX(idCard);
    SlicesOfPrefix(idCard, card, 0, 2);
    SlicesOfPrefix(idCard, card, 6, 10);
    SlicesOfPrefix(idCard, card, 10, 12);
    SlicesOfPrefix(idCard, card, 12, 14);
  }

  /** Two words that agree on their first seventeen characters agree on every slice of them, and digits stay digits. */
  lemma SlicesOfPrefix(s: string, t: string, a: nat, b: nat)
    requires a <= b <= 17 <= |s| && 17 <= |t| && s[..17] == t[..17] && AllDigits(s[..17])
    ensures s[a..b] == t[a..b] && AllDigits(s[a..b])
  {
    forall i | 0 <= i < b - a ensures s[a..b][i] == t[a..b][i] && IsDigit(s[a..b][i]) {
      assert s[a..b][i] == s[..17][a + i] && t[a..b][i] == t[..17][a + i];
    }
    assert s[a..b] == t[a..b];
  }

  method CheckIdCard(idCard: string, birthdayRoundTrips: (string, int, int) -> bool) returns (ok: bool)
    ensures ok == IdCardValid(idCard, birthdayRoundTrips)
  {
    IdPatternAccepts(idCard);
    if !Matches(IdPattern, idCard) {
      return false;
    }
    var card := ReplaceTrailingX(idCard);
    FormatFields(idCard);
    if Decimal(card[..2]) !in CityCodes {
      return false;
    }
    if !birthdayRoundTrips(card[6..10], Decimal(card[10..12]), Decimal(card[12..14])) {
      return false;
    }
    var iSum := 0;
    var i := 17;
    while i >= 0
      invariant -1 <= i <= 17
      invariant iSum == WeightedSum(card, 17 - i)
    {
      iSum := iSum + (Pow2(i) % 11) * Base11(card[17 - i]);
      i := i - 1;
    }
    ok := iSum % 11 == 1;
  }

  // ---- the check character of the standard ----------------------------------

  /**
   * The weights of positions 1-17 and the check characters indexed by the
   * weighted sum modulo 11, as published for the 18-digit citizen identity
   * number (GB 11643-1999, ISO 7064 MOD 11-2).
   */
  const StandardWeights: seq<nat> := [7, 9, 10, 5, 8, 4, 2, 1, 6, 3, 7, 9, 10, 5, 8, 4, 2]
  const CheckCharacters: string := "10X98765432"

  function StandardSum(digits: string, n: nat): int
    requires n <= 17 && |digits| >= n && AllDigits(digits[..n])
  {
    if n == 0 then 0
    else
      assert AllDigits(digits[..n - 1]) by { assert forall i :: 0 <= i < n - 1 ==> digits[..n - 1][i] == digits[..n][i]; }
      assert IsDigit(digits[..n][n - 1]);
      StandardSum(digits, n - 1) + StandardWeights[n - 1] * DigitValue(digits[n - 1])
  }

  /** The check character the standard assigns to seventeen digits. */
  function CheckCharacter(digits: string): char
    requires |digits| >= 17 && AllDigits(digits[..17])
  {
    CheckCharacters[StandardSum(digits, 17) % 11]
  }

  lemma StandardWeightsArePowers(k: nat)
    requires k < 17
    ensures Weight(k) == StandardWeights[k]
  {
    assert Pow2(10) == 1024;
    assert Pow2(17) == 131072;
    if k == 0 { assert Weight(0) == 131072 % 11; }
    else if k == 1 { assert Pow2(16) == 65536; }
    else if k == 2 { assert Pow2(15) == 32768; }
    else if k == 3 { assert Pow2(14) == 16384; }
    else if k == 4 { assert Pow2(13) == 8192; }
    else if k == 5 { assert Pow2(12) == 4096; }
    else if k == 6 { assert Pow2(11) == 2048; }
    else if k == 7 { }
    else if k == 8 { assert Pow2(9) == 512; }
    else if k == 9 { assert Pow2(8) == 256; }
    else if k == 10 { assert Pow2(7) == 128; }
    else if k == 11 { assert Pow2(6) == 64; }
    else if k == 12 { assert Pow2(5) == 32; }
    else if k == 13 { assert Pow2(4) == 16; }
    else if k == 14 { assert Pow2(3) == 8; }
    else if k == 15 { assert Pow2(2) == 4; }
    else { assert Pow2(1) == 2; }
  }

  lemma {:induction false} SumsAgree(card: string, n: nat)
    requires Readable(card) && n <= 17 && AllDigits(card[..17])
    ensures AllDigits(card[..n])
    ensures WeightedSum(card, n) == StandardSum(card, n)
  {
    assert forall i :: 0 <= i < n ==> card[..n][i] == card[..17][i];
    if n > 0 {
      SumsAgree(card, n - 1);
      StandardWeightsArePowers(n - 1);
      assert IsDigit(card[..17][n - 1]);
    }
  }

  /** The last step of the sum closes `≡ 1 (mod 11)` exactly for the value the table gives. */
  lemma CheckValue(sum: int, v: int)
    requires sum >= 0 && 0 <= v <= 10
    ensures (sum + 1 * v) % 11 == 1 <==> v == (12 - sum % 11) % 11
  {
  }

  lemma CheckCharactersValues(r: int)
    requires 0 <= r < 11
    ensures CheckCharacters[r] == (if (12 - r) % 11 == 10 then 'X' else ('0' as int + (12 - r) % 11) as char)
  {
  }

  /** The value of the final character: a digit, or 10 for x and X. */
  function FinalValue(c: char): nat
    requires IsDigit(c) || IsXLetter(c)
  {
    if IsDigit(c) then DigitValue(c) else 10
  }

  /**
   * `checkIdCard`'s sum test is the standard check: the final character is
   * the one the table assigns to the first seventeen digits (x in either case
   * standing for X).
   */
  lemma ChecksumIsStandard(idCard: string)
    requires IdFormat(idCard)
    ensures Checksum(idCard) % 11 == 1
      <==> CheckCharacter(idCard) == (if IsXLetter(idCard[17]) then 'X' else idCard[17])
  {
    var card := ReplaceTrailingX(idCard);
    ReplacedReadable(idCard);
    assert AllDigits(card[..17]);
    SumsAgree(card, 17);
    assert StandardSum(card, 17) == StandardSum(idCard, 17) by { StandardSumPrefix(card, idCard, 17); }
    var sum := StandardSum(idCard, 17);
    assert sum >= 0 by { StandardSumNonNegative(idCard, 17); }
    assert Weight(17) == 1;
    var v := Base11(card[17]);
    assert v == FinalValue(idCard[17]);
    CheckValue(sum, v);
    CheckCharactersValues(sum % 11);
  }

  lemma {:induction false} StandardSumPrefix(a: string, b: string, n: nat)
    requires n <= 17 && |a| >= n && |b| >= n && a[..n] == b[..n] && AllDigits(a[..n])
    ensures AllDigits(b[..n]) && StandardSum(a, n) == StandardSum(b, n)
  {
    if n > 0 {
      assert a[..n - 1] == a[..n][..n - 1] && b[..n - 1] == b[..n][..n - 1];
      assert AllDigits(a[..n - 1]) by { assert forall i :: 0 <= i < n - 1 ==> a[..n - 1][i] == a[..n][i]; }
      StandardSumPrefix(a, b, n - 1);
      assert a[n - 1] == a[..n][n - 1] == b[..n][n - 1] == b[n - 1];
    }
  }

  lemma {:induction false} StandardSumNonNegative(digits: string, n: nat)
    requires n <= 17 && |digits| >= n && AllDigits(digits[..n])
    ensures StandardSum(digits, n) >= 0
  {
    if n > 0 {
      assert AllDigits(digits[..n - 1]) by { assert forall i :: 0 <= i < n - 1 ==> digits[..n - 1][i] == digits[..n][i]; }
      StandardSumNonNegative(digits, n - 1);
    }
  }

  /** `checkIdCard` accepts exactly the well-formed numbers with a known province, a round-tripping birth date and the standard check character. */
  lemma IdCardValidMeaning(idCard: string, birthdayRoundTrips: (string, int, int) -> bool)
    ensures IdCardValid(idCard, birthdayRoundTrips)
        <==> IdFormat(idCard) && Decimal(idCard[..2]) in CityCodes
             && birthdayRoundTrips(idCard[6..10], Decimal(idCard[10..12]), Decimal(idCard[12..14]))
             && CheckCharacter(idCard) == (if IsXLetter(idCard[17]) then 'X' else idCard[17])
  {
    if IdFormat(idCard) { ChecksumIsStandard(idCard); }
  }
}
