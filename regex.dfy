/**
 * A small regular-expression language, enough to transcribe the anchored
 * patterns of validator/utils.js literally, with its meaning as a language:
 * `Matches(r, s)` holds when the whole of `s` is a word of `r`.
 *
 * For a pattern written `^...$`, ECMAScript's backtracking `test` succeeds
 * exactly when the whole input is a word of the pattern, as long as no
 * repeated sub-pattern can match the empty string (then the rule that stops
 * empty iterations never applies); none of the transcribed patterns has such
 * a sub-pattern.
 */
module Regex {
  import opened Text

  datatype Bound = Finite(n: nat) | Unbounded

  datatype Re =
    | Empty                                  // matches only ""
    | Class(member: char -> bool)            // one character of a class: [...], \d, a literal
    | Cat(left: Re, right: Re)               // concatenation
    | Alt(left: Re, right: Re)               // alternation  a|b
    | Repeat(body: Re, min: nat, max: Bound) // body{min,max}

  function Pred(b: Bound): Bound {
    match b
    case Finite(n) => if n == 0 then Finite(0) else Finite(n - 1)
    case Unbounded => Unbounded
  }

  predicate AtMost(n: nat, b: Bound) {
    match b
    case Finite(m) => n <= m
    case Unbounded => true
  }

  function Matches(r: Re, s: string): bool
    decreases |s|, r
  {
    match r
    case Empty => s == []
    case Class(member) => |s| == 1 && member(s[0])
    case Cat(a, b) => exists k :: 0 <= k <= |s| && Matches(a, s[..k]) && Matches(b, s[k..])
    case Alt(a, b) => Matches(a, s) || Matches(b, s)
    case Repeat(x, lo, hi) =>
      if s == [] then lo == 0 || Matches(x, s)
      else
        hi != Finite(0) &&
        exists k :: 1 <= k <= |s| && Matches(x, s[..k])
                    && Matches(Repeat(x, if lo == 0 then 0 else lo - 1, Pred(hi)), s[k..])
  }

  // Notation used in the transcriptions.

  function Char(c: char): Re { Class(d => d == c) }
  function Opt(r: Re): Re { Repeat(r, 0, Finite(1)) }          // r?
  function Star(r: Re): Re { Repeat(r, 0, Unbounded) }         // r*
  function Plus(r: Re): Re { Repeat(r, 1, Unbounded) }         // r+
  function Exactly(r: Re, n: nat): Re { Repeat(r, n, Finite(n)) }     // r{n}
  function Between(r: Re, lo: nat, hi: nat): Re { Repeat(r, lo, Finite(hi)) }  // r{lo,hi}
  function Str(w: string): Re {                                // a literal word
    if w == [] then Empty else Cat(Char(w[0]), Str(w[1..]))
  }
  const Digit: Re := Class(IsDigit)                            // \d and [0-9]

  /** Every class in `r` admits only characters satisfying `p`. */
  ghost predicate Within(r: Re, p: char -> bool) {
    match r
    case Empty => true
    case Class(member) => forall c :: member(c) ==> p(c)
    case Cat(a, b) => Within(a, p) && Within(b, p)
    case Alt(a, b) => Within(a, p) && Within(b, p)
    case Repeat(x, _, _) => Within(x, p)
  }

  lemma {:induction false} MatchesWithin(r: Re, p: char -> bool, s: string)
    requires Within(r, p) && Matches(r, s)
    ensures forall i :: 0 <= i < |s| ==> p(s[i])
    decreases |s|, r
  {
    match r
    case Empty =>
    case Class(_) =>
    case Alt(a, b) =>
      if Matches(a, s) { MatchesWithin(a, p, s); } else { MatchesWithin(b, p, s); }
    case Cat(a, b) =>
      var k :| 0 <= k <= |s| && Matches(a, s[..k]) && Matches(b, s[k..]);
      MatchesWithin(a, p, s[..k]);
      MatchesWithin(b, p, s[k..]);
      forall i | 0 <= i < |s| ensures p(s[i]) {
        if i < k { assert s[..k][i] == s[i]; } else { assert s[k..][i - k] == s[i]; }
      }
    case Repeat(x, lo, hi) =>
      if s != [] {
        var k :| 1 <= k <= |s| && Matches(x, s[..k])
                 && Matches(Repeat(x, if lo == 0 then 0 else lo - 1, Pred(hi)), s[k..]);
        MatchesWithin(x, p, s[..k]);
        MatchesWithin(Repeat(x, if lo == 0 then 0 else lo - 1, Pred(hi)), p, s[k..]);
        forall i | 0 <= i < |s| ensures p(s[i]) {
          if i < k { assert s[..k][i] == s[i]; } else { assert s[k..][i - k] == s[i]; }
        }
      }
  }

  /** The characters other than `sep`. */
  function Other(sep: char): char -> bool { c => c != sep }

  /** A pattern whose classes hold only digits never matches a word with a non-digit separator. */
  lemma {:induction false} WithinDigits(r: Re, sep: char)
    requires Within(r, IsDigit) && !IsDigit(sep)
    ensures Within(r, Other(sep))
  {
    match r
    case Empty =>
    case Class(_) =>
    case Cat(a, b) => WithinDigits(a, sep); WithinDigits(b, sep);
    case Alt(a, b) => WithinDigits(a, sep); WithinDigits(b, sep);
    case Repeat(x, _, _) => WithinDigits(x, sep);
  }

  /** A repeated class `[...]{lo,hi}` matches exactly the words of lo..hi characters of the class. */
  lemma {:induction false} RepeatClass(cls: Re, lo: nat, hi: Bound, s: string)
    requires cls.Class?
    ensures Matches(Repeat(cls, lo, hi), s)
        <==> lo <= |s| && AtMost(|s|, hi) && forall i :: 0 <= i < |s| ==> cls.member(s[i])
    decreases |s|
  {
    var member := cls.member;
    if s != [] {
      var lo', hi' := if lo == 0 then 0 else lo - 1, Pred(hi);
      var rest := Repeat(cls, lo', hi');
      RepeatClass(cls, lo', hi', s[1..]);
      if Matches(Repeat(cls, lo, hi), s) {
        var k :| 1 <= k <= |s| && Matches(cls, s[..k]) && Matches(rest, s[k..]);
        assert k == 1;
      }
      if lo <= |s| && AtMost(|s|, hi) && forall i :: 0 <= i < |s| ==> member(s[i]) {
        assert forall i :: 0 <= i < |s| - 1 ==> s[1..][i] == s[i + 1];
        assert Matches(cls, s[..1]) && Matches(rest, s[1..]);
      }
      assert lo <= |s| <==> lo' <= |s| - 1;
      assert (hi != Finite(0) && AtMost(|s| - 1, hi')) <==> AtMost(|s|, hi);
      assert (member(s[0]) && forall i :: 0 <= i < |s| - 1 ==> member(s[1..][i]))
         <==> forall i :: 0 <= i < |s| ==> member(s[i]);
    }
  }

  /** A leading one-character class takes exactly the first character. */
  lemma CatClass(cls: Re, b: Re, s: string)
    requires cls.Class?
    ensures Matches(Cat(cls, b), s) <==> |s| >= 1 && cls.member(s[0]) && Matches(b, s[1..])
  {
    if Matches(Cat(cls, b), s) {
      var k :| 0 <= k <= |s| && Matches(cls, s[..k]) && Matches(b, s[k..]);
      assert k == 1;
    }
    if |s| >= 1 && cls.member(s[0]) && Matches(b, s[1..]) {
      assert Matches(cls, s[..1]);
    }
  }

  /** A leading `[...]{n}` takes exactly the first n characters. */
  lemma CatExactly(cls: Re, n: nat, b: Re, s: string)
    requires cls.Class?
    ensures Matches(Cat(Exactly(cls, n), b), s)
        <==> |s| >= n && (forall i :: 0 <= i < n ==> cls.member(s[i])) && Matches(b, s[n..])
  {
    var e := Exactly(cls, n);
    if Matches(Cat(e, b), s) {
      var k :| 0 <= k <= |s| && Matches(e, s[..k]) && Matches(b, s[k..]);
      RepeatClass(cls, n, Finite(n), s[..k]);
      assert k == n;
      assert forall i :: 0 <= i < n ==> s[..k][i] == s[i];
    }
    if |s| >= n && (forall i :: 0 <= i < n ==> cls.member(s[i])) && Matches(b, s[n..]) {
      RepeatClass(cls, n, Finite(n), s[..n]);
      assert forall i :: 0 <= i < n ==> s[..n][i] == s[i];
      assert Matches(e, s[..n]);
    }
  }

  lemma CatAlt(a: Re, b: Re, c: Re, s: string)
    ensures Matches(Cat(Alt(a, b), c), s) <==> Matches(Cat(a, c), s) || Matches(Cat(b, c), s)
  {
    if Matches(Cat(Alt(a, b), c), s) {
      var k :| 0 <= k <= |s| && Matches(Alt(a, b), s[..k]) && Matches(c, s[k..]);
      if Matches(a, s[..k]) { assert Matches(Cat(a, c), s); } else { assert Matches(Cat(b, c), s); }
    }
    if Matches(Cat(a, c), s) {
      var k :| 0 <= k <= |s| && Matches(a, s[..k]) && Matches(c, s[k..]);
      assert Matches(Alt(a, b), s[..k]);
    }
    if Matches(Cat(b, c), s) {
      var k :| 0 <= k <= |s| && Matches(b, s[..k]) && Matches(c, s[k..]);
      assert Matches(Alt(a, b), s[..k]);
    }
  }

  lemma CatAssoc(a: Re, b: Re, c: Re, s: string)
    ensures Matches(Cat(Cat(a, b), c), s) <==> Matches(Cat(a, Cat(b, c)), s)
  {
    if Matches(Cat(Cat(a, b), c), s) { CatAssocLeft(a, b, c, s); }
    if Matches(Cat(a, Cat(b, c)), s) { CatAssocRight(a, b, c, s); }
  }

  lemma CatAssocLeft(a: Re, b: Re, c: Re, s: string)
    requires Matches(Cat(Cat(a, b), c), s)
    ensures Matches(Cat(a, Cat(b, c)), s)
  {
    var k := CatElim(Cat(a, b), c, s);
    var j := CatElim(a, b, s[..k]);
    Slices(s, j, k);
    CatIntro(b, c, s[j..], k - j);
    CatIntro(a, Cat(b, c), s, j);
  }

  lemma CatAssocRight(a: Re, b: Re, c: Re, s: string)
    requires Matches(Cat(a, Cat(b, c)), s)
    ensures Matches(Cat(Cat(a, b), c), s)
  {
    var j := CatElim(a, Cat(b, c), s);
    var m := CatElim(b, c, s[j..]);
    CatRegroup(a, b, c, s, j, m);
  }

  lemma CatRegroup(a: Re, b: Re, c: Re, s: string, j: nat, m: nat)
    requires j + m <= |s| && Matches(a, s[..j]) && Matches(b, s[j..][..m]) && Matches(c, s[j..][m..])
    ensures Matches(Cat(Cat(a, b), c), s)
  {
    var k := j + m;
    Slices(s, j, k);
    CatIntro(a, b, s[..k], j);
    CatIntro(Cat(a, b), c, s, k);
  }

  lemma CatIntro(a: Re, b: Re, s: string, k: nat)
    requires k <= |s| && Matches(a, s[..k]) && Matches(b, s[k..])
    ensures Matches(Cat(a, b), s)
  {
  }

  lemma CatElim(a: Re, b: Re, s: string) returns (k: nat)
    requires Matches(Cat(a, b), s)
    ensures k <= |s| && Matches(a, s[..k]) && Matches(b, s[k..])
  {
    k :| 0 <= k <= |s| && Matches(a, s[..k]) && Matches(b, s[k..]);
  }

  lemma Slices(s: string, j: nat, k: nat)
    requires j <= k <= |s|
    ensures s[..k][..j] == s[..j] && s[..k][j..] == s[j..][..k - j] && s[j..][k - j..] == s[k..]
  {
  }

  /** `r?` matches the empty word and the words of r. */
  lemma OptMatches(x: Re, s: string)
    ensures Matches(Opt(x), s) <==> s == [] || Matches(x, s)
  {
    if s != [] {
      var none := Repeat(x, 0, Finite(0));
      if Matches(Opt(x), s) {
        var k :| 1 <= k <= |s| && Matches(x, s[..k]) && Matches(none, s[k..]);
        assert k == |s|;
        assert s[..k] == s;
      }
      if Matches(x, s) {
        assert s[..|s|] == s && s[|s|..] == [];
        assert Matches(none, s[|s|..]);
      }
    }
  }

  lemma CatOpt(x: Re, b: Re, s: string)
    ensures Matches(Cat(Opt(x), b), s) <==> Matches(b, s) || Matches(Cat(x, b), s)
  {
    if Matches(Cat(Opt(x), b), s) {
      var k :| 0 <= k <= |s| && Matches(Opt(x), s[..k]) && Matches(b, s[k..]);
      OptMatches(x, s[..k]);
      if k == 0 { assert s[k..] == s; }
    }
    if Matches(b, s) {
      OptMatches(x, s[..0]);
      assert s[0..] == s;
    }
    if Matches(Cat(x, b), s) {
      var k :| 0 <= k <= |s| && Matches(x, s[..k]) && Matches(b, s[k..]);
      OptMatches(x, s[..k]);
    }
  }

  lemma CatEmpty(a: Re, s: string)
    ensures Matches(Cat(a, Empty), s) <==> Matches(a, s)
  {
    if Matches(a, s) {
      assert s[..|s|] == s;
    }
    if Matches(Cat(a, Empty), s) {
      var k :| 0 <= k <= |s| && Matches(a, s[..k]) && Matches(Empty, s[k..]);
      assert k == |s| && s[..k] == s;
    }
  }

  /** A literal word matches only itself. */
  lemma {:induction false} StrMatches(w: string, s: string)
    ensures Matches(Str(w), s) <==> s == w
  {
    if w != [] {
      CatClass(Char(w[0]), Str(w[1..]), s);
      if |s| >= 1 { StrMatches(w[1..], s[1..]); }
      if s == w { assert s[1..] == w[1..]; }
      if |s| >= 1 && s[0] == w[0] && s[1..] == w[1..] { assert s == [s[0]] + s[1..]; }
    }
  }

  /** `r0|r1|...|rn`: alternation of a non-empty list of patterns. */
  function Union(rs: seq<Re>): Re
    requires |rs| >= 1
  {
    if |rs| == 1 then rs[0] else Alt(rs[0], Union(rs[1..]))
  }

  /** A word of the union is a word of one of the alternatives. */
  lemma {:induction false} UnionMatches(rs: seq<Re>, s: string)
    requires |rs| >= 1
    ensures Matches(Union(rs), s) <==> exists i :: 0 <= i < |rs| && Matches(rs[i], s)
  {
    if |rs| > 1 {
      UnionMatches(rs[1..], s);
      assert forall i :: 1 <= i < |rs| ==> rs[1..][i - 1] == rs[i];
      if exists i :: 0 <= i < |rs| && Matches(rs[i], s) {
        var i :| 0 <= i < |rs| && Matches(rs[i], s);
        if i > 0 { assert Matches(rs[1..][i - 1], s); }
      }
    }
  }

  /** Two classes in a row match exactly the two-character words they admit. */
  lemma CatPair(a: Re, b: Re, s: string)
    requires a.Class? && b.Class?
    ensures Matches(Cat(a, b), s) <==> |s| == 2 && a.member(s[0]) && b.member(s[1])
  {
    CatClass(a, b, s);
  }

  /** `0?` before a class: one character of the class, or a zero and one. */
  lemma CatOptPair(z: char, b: Re, s: string)
    requires b.Class?
    ensures Matches(Cat(Opt(Char(z)), b), s)
        <==> (|s| == 1 && b.member(s[0])) || (|s| == 2 && s[0] == z && b.member(s[1]))
  {
    CatOpt(Char(z), b, s);
    CatPair(Char(z), b, s);
  }

  /**
   * `a` followed by a separator character that `a` never contains, then `b`:
   * the separator is the first one in the word.
   */
  lemma CatSeparator(a: Re, sep: char, b: Re, s: string)
    requires Within(a, Other(sep))
    ensures Matches(Cat(a, Cat(Char(sep), b)), s)
        <==> sep in s && Matches(a, s[..IndexOf(s, sep)]) && Matches(b, s[IndexOf(s, sep) + 1..])
  {
    if Matches(Cat(a, Cat(Char(sep), b)), s) {
      CatSeparatorSound(a, sep, b, s);
    }
    if sep in s && Matches(a, s[..IndexOf(s, sep)]) && Matches(b, s[IndexOf(s, sep) + 1..]) {
      CatSeparatorComplete(a, sep, b, s);
    }
  }

  lemma CatSeparatorSound(a: Re, sep: char, b: Re, s: string)
    requires Within(a, Other(sep)) && Matches(Cat(a, Cat(Char(sep), b)), s)
    ensures sep in s && Matches(a, s[..IndexOf(s, sep)]) && Matches(b, s[IndexOf(s, sep) + 1..])
  {
    var k :| 0 <= k <= |s| && Matches(a, s[..k]) && Matches(Cat(Char(sep), b), s[k..]);
    SeparatorAt(a, sep, b, s, k);
  }

  /** A split of the word after a prefix free of the separator, before the separator. */
  lemma SeparatorAt(a: Re, sep: char, b: Re, s: string, k: int)
    requires 0 <= k <= |s| && Within(a, Other(sep))
    requires Matches(a, s[..k]) && Matches(Cat(Char(sep), b), s[k..])
    ensures sep in s && IndexOf(s, sep) == k && Matches(b, s[k + 1..])
  {
    CatClass(Char(sep), b, s[k..]);
    MatchesWithin(a, Other(sep), s[..k]);
    assert sep !in s[..k] by {
      forall i | 0 <= i < k ensures s[..k][i] != sep {
        assert Other(sep)(s[..k][i]);
      }
    }
    IndexOfUnique(s, sep, k);
    assert s[k..][1..] == s[k + 1..];
  }

  lemma CatSeparatorComplete(a: Re, sep: char, b: Re, s: string)
    requires sep in s && Matches(a, s[..IndexOf(s, sep)]) && Matches(b, s[IndexOf(s, sep) + 1..])
    ensures Matches(Cat(a, Cat(Char(sep), b)), s)
  {
    var k := IndexOf(s, sep);
    CatClass(Char(sep), b, s[k..]);
    assert s[k..][1..] == s[k + 1..];
    assert Matches(Cat(Char(sep), b), s[k..]);
  }

  /** The same, for a word written as the part before the separator, the separator and the rest. */
  lemma CatSeparatorAfter(a: Re, sep: char, b: Re, head: string, tail: string)
    requires Within(a, Other(sep)) && sep !in head
    ensures Matches(Cat(a, Cat(Char(sep), b)), head + [sep] + tail) <==> Matches(a, head) && Matches(b, tail)
  {
    var s := head + [sep] + tail;
    CatSeparator(a, sep, b, s);
    assert s[..|head|] == head && s[|head|] == sep;
    IndexOfUnique(s, sep, |head|);
    assert s[|head| + 1..] == tail;
  }
}
