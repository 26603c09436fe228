/**
 * String helpers shared by the models of tools.js and validator/utils.js:
 * ASCII digits and their decimal value, `indexOf` for a character and for a
 * substring, `split`/`join` on a one-character separator, and the regular
 * expression class `\s`.
 */
module Text {

  predicate IsDigit(c: char) {
    '0' <= c <= '9'
  }

  predicate AllDigits(s: string) {
    forall i :: 0 <= i < |s| ==> IsDigit(s[i])
  }

  function DigitValue(c: char): (d: nat)
    requires IsDigit(c)
    ensures d <= 9
  {
    (c as int) - ('0' as int)
  }

  /** The value of a digit string read in base 10 (leading zeros allowed), as `Number()` reads it. */
  function Decimal(s: string): nat
    requires AllDigits(s)
  {
    if s == [] then 0 else 10 * Decimal(s[..|s| - 1]) + DigitValue(s[|s| - 1])
  }

  lemma DecimalOfTwo(s: string)
    requires |s| == 2 && AllDigits(s)
    ensures Decimal(s) == 10 * DigitValue(s[0]) + DigitValue(s[1])
  {
    var p := s[..1];
    assert p[..0] == [] && p[0] == s[0];
    assert Decimal(p) == DigitValue(s[0]);
  }

  lemma DecimalOfFour(s: string)
    requires |s| == 4 && AllDigits(s)
    ensures Decimal(s) == 1000 * DigitValue(s[0]) + 100 * DigitValue(s[1]) + 10 * DigitValue(s[2]) + DigitValue(s[3])
  {
    var p3, p2, p1 := s[..3], s[..2], s[..1];
    assert p3[..2] == p2 && p2[..1] == p1 && p1[..0] == [];
    assert Decimal(p1) == DigitValue(s[0]);
    assert Decimal(p2) == 10 * DigitValue(s[0]) + DigitValue(s[1]);
    assert Decimal(p3) == 100 * DigitValue(s[0]) + 10 * DigitValue(s[1]) + DigitValue(s[2]);
  }

  /** Digit strings keep their digits when concatenated. */
  lemma AllDigitsConcat(a: string, b: string)
    requires AllDigits(a) && AllDigits(b)
    ensures AllDigits(a + b)
  {
  }

  /** `s.indexOf(c)`: the first position of `c`, or -1 when `c` does not occur. */
  function IndexOf(s: string, c: char): (k: int)
    ensures -1 <= k < |s|
    ensures k == -1 <==> c !in s
    ensures k >= 0 ==> s[k] == c && forall i :: 0 <= i < k ==> s[i] != c
  {
    if s == [] then -1
    else if s[0] == c then 0
    else
      var k := IndexOf(s[1..], c);
      if k == -1 then -1 else k + 1
  }

  /** A position that holds `c` and has no `c` before it is the one `indexOf` finds. */
  lemma IndexOfUnique(s: string, c: char, k: int)
    requires 0 <= k < |s| && s[k] == c && c !in s[..k]
    ensures IndexOf(s, c) == k
  {
    assert forall i :: 0 <= i < k ==> s[..k][i] == s[i];
  }

  /** `s.split(c)` for a one-character separator `c`. */
  function Split(s: string, c: char): (parts: seq<string>)
    ensures |parts| >= 1
    ensures forall i :: 0 <= i < |parts| ==> c !in parts[i]
    ensures parts[0] == if c in s then s[..IndexOf(s, c)] else s
    ensures |parts| == 1 <==> c !in s
    decreases |s|
  {
    var k := IndexOf(s, c);
    if k == -1 then [s]
    else
      assert forall i :: 0 <= i < k ==> s[..k][i] == s[i];
      [s[..k]] + Split(s[k + 1..], c)
  }

  /** Splitting at a present separator yields the piece before it, then the split of the rest. */
  lemma SplitAt(s: string, c: char)
    requires c in s
    ensures Split(s, c) == [s[..IndexOf(s, c)]] + Split(s[IndexOf(s, c) + 1..], c)
  {
  }

  /** A split into exactly two parts: one separator, with the parts on either side of it. */
  lemma SplitTwo(s: string, c: char)
    requires c in s
    ensures |Split(s, c)| == 2 <==> c !in s[IndexOf(s, c) + 1..]
    ensures c !in s[IndexOf(s, c) + 1..] ==> Split(s, c) == [s[..IndexOf(s, c)], s[IndexOf(s, c) + 1..]]
  {
    SplitAt(s, c);
  }

  /** A first piece free of the separator is the first part of the split. */
  lemma SplitAfter(a: string, c: char, b: string)
    requires c !in a
    ensures Split(a + [c] + b, c) == [a] + Split(b, c)
  {
    var s := a + [c] + b;
    assert s[..|a|] == a;
    IndexOfUnique(s, c, |a|);
    assert s[|a| + 1..] == b;
  }

  /** `parts.join(sep)`. */
  function Join(parts: seq<string>, sep: string): string
  {
    if |parts| == 0 then ""
    else if |parts| == 1 then parts[0]
    else parts[0] + sep + Join(parts[1..], sep)
  }

  /** Splitting on a character and joining with it again gives back the string. */
  lemma {:induction false} JoinSplit(s: string, c: char)
    ensures Join(Split(s, c), [c]) == s
    decreases |s|
  {
    if c in s {
      var k := IndexOf(s, c);
      var head, rest := s[..k], s[k + 1..];
      var tail := Split(rest, c);
      SplitAt(s, c);
      JoinTwo(head, tail, [c]);
      JoinSplit(rest, c);
      Reassemble(s, k);
    }
  }

  /** A string is the part before position `k`, the character there, and the part after. */
  lemma Reassemble(s: string, k: int)
    requires 0 <= k < |s|
    ensures s[..k] + [s[k]] + s[k + 1..] == s
  {
  }

  lemma JoinTwo(head: string, tail: seq<string>, sep: string)
    requires |tail| >= 1
    ensures Join([head] + tail, sep) == head + sep + Join(tail, sep)
  {
    assert ([head] + tail)[1..] == tail;
  }

  /** Pushing one more part onto a non-empty list appends the separator and the part. */
  lemma {:induction false} JoinAppend(parts: seq<string>, sep: string, x: string)
    requires |parts| >= 1
    ensures Join(parts + [x], sep) == Join(parts, sep) + sep + x
  {
    if |parts| > 1 {
      JoinAppend(parts[1..], sep, x);
      assert (parts + [x])[1..] == parts[1..] + [x];
    }
  }

  /** `t` occurs in `s` starting at position `j`. */
  predicate OccursAt(s: string, t: string, j: int) {
    0 <= j && j + |t| <= |s| && s[j..j + |t|] == t
  }

  /** `s.indexOf(t)` for a substring: the first position of `t`, or -1; 0 for the empty `t`. */
  function IndexOfSub(s: string, t: string): (k: int)
    ensures k == -1 || OccursAt(s, t, k)
    ensures k >= 0 ==> forall j :: 0 <= j < k ==> !OccursAt(s, t, j)
    ensures k == -1 ==> forall j :: !OccursAt(s, t, j)
  {
    if |s| < |t| then -1
    else if s[..|t|] == t then 0
    else
      var k := IndexOfSub(s[1..], t);
      forall j | 1 <= j ensures OccursAt(s, t, j) == OccursAt(s[1..], t, j - 1) {
        if j + |t| <= |s| { assert s[1..][j - 1..j - 1 + |t|] == s[j..j + |t|]; }
      }
      assert !OccursAt(s, t, 0);
      if k == -1 then -1 else k + 1
  }

  /** An occurrence with none before it is the one `indexOf` finds. */
  lemma IndexOfSubUnique(s: string, t: string, k: int)
    requires OccursAt(s, t, k) && forall j :: 0 <= j < k ==> !OccursAt(s, t, j)
    ensures IndexOfSub(s, t) == k
  {
  }

  /** The white-space class `\s` of ECMAScript regular expressions: WhiteSpace and LineTerminator. */
  predicate IsSpace(c: char) {
    c == '\t' || c == '\n' || c == '\U{000B}' || c == '\U{000C}' || c == '\r' || c == ' '
    || c == '\U{00A0}' || c == '\U{1680}' || ('\U{2000}' <= c <= '\U{200A}')
    || c == '\U{2028}' || c == '\U{2029}' || c == '\U{202F}' || c == '\U{205F}'
    || c == '\U{3000}' || c == '\U{FEFF}'
  }
}
