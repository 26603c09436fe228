/**
 * The masking and measuring helpers of tools/tools.js: `hideMobileInfo`,
 * `hideEmailInfo` and `getByteLen`. A string is a sequence of characters, each
 * standing for one UTF-16 code unit of the JavaScript string.
 */
module Masking {
  import opened Text

  /** `n` asterisks. */
  function Stars(n: nat): (s: string)
    ensures |s| == n && forall i :: 0 <= i < n ==> s[i] == '*'
  {
    seq(n, _ => '*')
  }

  /** One more star. */
  lemma StarsAppend(prefix: string, n: nat)
    ensures prefix + Stars(n) + "*" == prefix + Stars(n + 1)
  {
  }

  // ---- hideMobileInfo ----------------------------------------------------------

  /** `hideMobileInfo(mobile)`: positions 3 to 6 become `*` when there are more than 7 characters. */
  function HideMobileInfo(mobile: string): (r: string)
    ensures |r| == |mobile|
    ensures forall i :: 0 <= i < |r| ==> r[i] == if |mobile| > 7 && 3 <= i < 7 then '*' else mobile[i]
  {
    if |mobile| > 7 then mobile[..3] + "****" + mobile[7..] else mobile
  }

  /** Masking a masked number changes nothing more. */
  lemma HideMobileIdempotent(mobile: string)
    ensures HideMobileInfo(HideMobileInfo(mobile)) == HideMobileInfo(mobile)
  {
    var r := HideMobileInfo(mobile);
    assert forall i :: 0 <= i < |r| ==> HideMobileInfo(r)[i] == r[i];
  }

  // ---- hideEmailInfo -----------------------------------------------------------

  /** How many leading characters of a local part of length `n` stay visible. */
  function Kept(n: nat): nat {
    if n > 4 then 4 else 1
  }

  /** The local part with all but its first `Kept` characters starred. */
  function MaskLocal(local: string): (m: string)
    requires |local| >= 1
    ensures |m| == |local|
    ensures forall i :: 0 <= i < |m| ==> m[i] == if i < Kept(|local|) then local[i] else '*'
  {
    local[..Kept(|local|)] + Stars(|local| - Kept(|local|))
  }

  /**
   * What `hideEmailInfo(email)` returns: when an `@` occurs after position
   * 0, the masked piece before the first `@`, then `@`, then the piece
   * between the first and the second `@` (the split's second part);
   * otherwise the input.
   */
  function HiddenEmail(email: string): string {
    if IndexOf(email, '@') > 0 then
      var parts := Split(email, '@');
      MaskLocal(parts[0]) + "@" + parts[1]
    else email
  }

  /** `hideEmailInfo(email)`, with its loops appending `*` one at a time. */
  method HideEmailInfo(email: string) returns (newEmail: string)
    ensures newEmail == HiddenEmail(email)
  {
    if IndexOf(email, '@') > 0 {
      var str := Split(email, '@');
      var local := str[0];
      var s: string;
      if |local| > 4 {
        s := local[..4];
        for i := 0 to |local| - 4
          invariant s == local[..4] + Stars(i)
        {
          StarsAppend(local[..4], i);
          s := s + "*";
        }
      } else {
        s := local[..1];
        for i := 0 to |local| - 1
          invariant s == local[..1] + Stars(i)
        {
          StarsAppend(local[..1], i);
          s := s + "*";
        }
      }
      assert s == MaskLocal(local);
      newEmail := s + "@" + str[1];
    } else {
      newEmail := email;
    }
  }

  /**
   * An address with an `@` after position 0: the result keeps the address's
   * length up to the second `@` (if any), stars the local part after its
   * first `Kept` characters, and keeps everything else from the first `@` on.
   */
  lemma HiddenEmailShape(email: string)
    requires IndexOf(email, '@') > 0
    ensures var k, r := IndexOf(email, '@'), HiddenEmail(email);
      var domain := Split(email[k + 1..], '@')[0];
      |r| == k + 1 + |domain|
      && (forall i :: 0 <= i < k ==> r[i] == if i < Kept(k) then email[i] else '*')
      && r[k] == '@' && r[k + 1..] == domain
      && ('@' !in email[k + 1..] ==> domain == email[k + 1..] && |r| == |email|)
  {
    SplitAt(email, '@');
  }

  /** Masking a masked address changes nothing more. */
  lemma HiddenEmailIdempotent(email: string)
    ensures HiddenEmail(HiddenEmail(email)) == HiddenEmail(email)
  {
    if IndexOf(email, '@') > 0 {
      var parts := Split(email, '@');
      var local, domain := parts[0], parts[1];
      MaskLocalIdempotent(local);
      HiddenEmailOf(MaskLocal(local), domain);
    }
  }

  lemma MaskLocalIdempotent(local: string)
    requires |local| >= 1 && '@' !in local
    ensures MaskLocal(MaskLocal(local)) == MaskLocal(local) && '@' !in MaskLocal(local)
  {
  }

  /** An address whose local part and domain hold no `@` masks its local part. */
  lemma HiddenEmailOf(local: string, domain: string)
    requires |local| >= 1 && '@' !in local && '@' !in domain
    ensures HiddenEmail(local + "@" + domain) == MaskLocal(local) + "@" + domain
  {
    var r := local + "@" + domain;
    SplitAfter(local, '@', domain);
    assert r[..|local|] == local;
    IndexOfUnique(r, '@', |local|);
  }

  // ---- getByteLen --------------------------------------------------------------

  /** A character outside Latin-1, counted as one byte length unit. */
  predicate IsWide(c: char) {
    c > '\U{00FF}'
  }

  /**
   * The test `/[^\x00-\xff]/ig` as written: with the `i` flag a character
   * also fails the class when it is a case variant of a Latin-1 one under
   * the ignore-case canonicalization of ECMAScript regular expressions
   * (section 22.2.2.7.3 of ECMA-262): U+0178 (upper case of U+00FF), U+039C
   * and U+03BC (both case variants of U+00B5).
   */
  predicate IsWideAsWritten(c: char) {
    IsWide(c) && c != '\U{0178}' && c != '\U{039C}' && c != '\U{03BC}'
  }

  /** Twice `len` of `getByteLen`: 2 per wide character, 1 per other. */
  function Halves(s: string, wide: char -> bool): nat {
    if s == [] then 0
    else Halves(s[..|s| - 1], wide) + (if wide(s[|s| - 1]) then 2 else 1)
  }

  /** The byte length as the source computes it: `Math.floor` of half the halves. */
  function ByteLenAsWritten(s: string): nat {
    Halves(s, IsWideAsWritten) / 2
  }

  /** The byte length as evidently intended: every character outside Latin-1 is wide. */
  function ByteLen(s: string): nat {
    Halves(s, IsWide) / 2
  }

  /** `getByteLen(val)`: `len` is kept doubled, so that the half steps stay whole. */
  method GetByteLen(val: string) returns (n: nat)
    ensures n == ByteLenAsWritten(val)
  {
    var halves := 0;
    for i := 0 to |val|
      invariant halves == Halves(val[..i], IsWideAsWritten)
    {
      assert val[..i + 1][..i] == val[..i];
      if IsWideAsWritten(val[i]) {
        halves := halves + 2;
      } else {
        halves := halves + 1;
      }
    }
    assert val[..|val|] == val;
    n := halves / 2;
  }

  /** Counting is additive over concatenation. */
  lemma {:induction false} HalvesConcat(a: string, b: string, wide: char -> bool)
    ensures Halves(a + b, wide) == Halves(a, wide) + Halves(b, wide)
    decreases |b|
  {
    if b != [] {
      var b' := b[..|b| - 1];
      assert (a + b)[..|a + b| - 1] == a + b';
      assert (a + b)[|a + b| - 1] == b[|b| - 1];
      HalvesConcat(a, b', wide);
      assert Halves(b, wide) == Halves(b', wide) + (if wide(b[|b| - 1]) then 2 else 1);
    } else {
      assert a + b == a;
    }
  }

  /** Between one and two halves per character; all halves full exactly when every character is wide. */
  lemma {:induction false} HalvesBounds(s: string, wide: char -> bool)
    ensures |s| <= Halves(s, wide) <= 2 * |s|
    ensures Halves(s, wide) == 2 * |s| <==> forall i :: 0 <= i < |s| ==> wide(s[i])
    ensures Halves(s, wide) == |s| <==> forall i :: 0 <= i < |s| ==> !wide(s[i])
  {
    if s != [] {
      var p := s[..|s| - 1];
      HalvesBounds(p, wide);
      assert forall i :: 0 <= i < |p| ==> p[i] == s[i];
    }
  }

  /** The byte length lies between half the length (rounded down) and the length, and is the length exactly for wide-only text. */
  lemma ByteLenBounds(s: string)
    ensures |s| / 2 <= ByteLen(s) <= |s|
    ensures (forall i :: 0 <= i < |s| ==> IsWide(s[i])) ==> ByteLen(s) == |s|
    ensures (forall i :: 0 <= i < |s| ==> !IsWide(s[i])) ==> ByteLen(s) == |s| / 2
  {
    HalvesBounds(s, IsWide);
  }

  /** `getByteLen("ŸŸ")` is 1 as written, where two characters outside Latin-1 should count 2. */
  lemma ByteLenCaseFoldGap()
    ensures ByteLenAsWritten("\U{0178}\U{0178}") == 1
    ensures ByteLen("\U{0178}\U{0178}") == 2
    ensures ByteLenAsWritten("\U{03BC}") == 0 && ByteLen("\U{03BC}") == 1
  {
    assert "\U{0178}\U{0178}"[..1] == "\U{0178}";
    assert "\U{0178}"[..0] == [];
    assert "\U{03BC}"[..0] == [];
  }

  /** Away from the three case variants the source and the intended count agree. */
  lemma {:induction false} ByteLenAgrees(s: string)
    requires forall i :: 0 <= i < |s| ==> s[i] != '\U{0178}' && s[i] != '\U{039C}' && s[i] != '\U{03BC}'
    ensures ByteLenAsWritten(s) == ByteLen(s)
  {
    HalvesAgree(s);
  }

  lemma {:induction false} HalvesAgree(s: string)
    requires forall i :: 0 <= i < |s| ==> s[i] != '\U{0178}' && s[i] != '\U{039C}' && s[i] != '\U{03BC}'
    ensures Halves(s, IsWideAsWritten) == Halves(s, IsWide)
  {
    if s != [] {
      var p := s[..|s| - 1];
      assert forall i :: 0 <= i < |p| ==> p[i] == s[i];
      HalvesAgree(p);
    }
  }
}
