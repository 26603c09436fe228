/**
 * The validators of validator/utils.js. Each anchored pattern is transcribed
 * token by token as a `Regex.Re` value, the validator is `Matches` of that
 * pattern (plus the extra checks the source does), and a lemma states, for
 * every input, what the pattern accepts in plain terms.
 *
 * The validators take strings; the implicit conversion of other values by
 * `RegExp.prototype.test` is not modelled.
 */
module Validators {
  import opened Wrappers
  import opened Text
  import opened Regex

  predicate IsLetter(c: char) { 'a' <= c <= 'z' || 'A' <= c <= 'Z' }

  // ---- checkNotNull -------------------------------------------------------

  /** `checkNotNull`: `null` (None) and "" are rejected, anything else accepted. */
  function CheckNotNull(variable: Option<string>): (b: bool)
    ensures b <==> variable.Some? && |variable.value| > 0
  {
    if variable.None? || variable.value == "" then false else true
  }

  // ---- checkPhone: /^1[3|4|5|7|8][0-9]{9}$/ -------------------------------

  /** The class `[3|4|5|7|8]`: the bars are members of the class, not alternation. */
  predicate PhoneSecond(c: char) {
    c == '3' || c == '|' || c == '4' || c == '5' || c == '7' || c == '8'
  }

  const PhonePattern: Re := Cat(Char('1'), Cat(Class(PhoneSecond), Exactly(Digit, 9)))

  function CheckPhone(phone: string): bool { Matches(PhonePattern, phone) }

  lemma CheckPhoneAccepts(phone: string)
    ensures CheckPhone(phone)
        <==> |phone| == 11 && phone[0] == '1' && PhoneSecond(phone[1]) && AllDigits(phone[2..])
  {
    CatClass(Char('1'), Cat(Class(PhoneSecond), Exactly(Digit, 9)), phone);
    if |phone| >= 1 {
      CatClass(Class(PhoneSecond), Exactly(Digit, 9), phone[1..]);
      if |phone| >= 2 {
        RepeatClass(Digit, 9, Finite(9), phone[1..][1..]);
        assert phone[1..][1..] == phone[2..];
      }
    }
  }

  // ---- checkQQ: /^[1-9][0-9]{4,10}$/ --------------------------------------

  const QQPattern: Re := Cat(Class(c => '1' <= c <= '9'), Between(Digit, 4, 10))

  function CheckQQ(qq: string): bool { Matches(QQPattern, qq) }

  lemma CheckQQAccepts(qq: string)
    ensures CheckQQ(qq) <==> 5 <= |qq| <= 11 && '1' <= qq[0] <= '9' && AllDigits(qq)
  {
    CatClass(Class(c => '1' <= c <= '9'), Between(Digit, 4, 10), qq);
    if |qq| >= 1 {
      RepeatClass(Digit, 4, Finite(10), qq[1..]);
      assert forall i :: 1 <= i < |qq| ==> qq[1..][i - 1] == qq[i];
    }
  }

  // ---- checkWechat: /^[a-zA-Z]([-_a-zA-Z0-9]{5,19})+$/ --------------------

  predicate WechatChar(c: char) { c == '-' || c == '_' || IsLetter(c) || IsDigit(c) }

  const WechatChunk: Re := Between(Class(WechatChar), 5, 19)
  const WechatPattern: Re := Cat(Class(IsLetter), Plus(WechatChunk))

  function CheckWechat(wechat: string): bool { Matches(WechatPattern, wechat) }

  /**
   * The group `{5,19}` repeated by `+` accepts any run of five or more
   * characters of the class: there is no upper bound on the length.
   */
  lemma {:induction false} WechatChunks(lo: nat, s: string)
    requires lo <= 1
    ensures Matches(Repeat(WechatChunk, lo, Unbounded), s)
        <==> (s == [] && lo == 0) || (|s| >= 5 && forall i :: 0 <= i < |s| ==> WechatChar(s[i]))
    decreases |s|, 1
  {
    if s == [] {
      RepeatClass(Class(WechatChar), 5, Finite(19), s);
    } else {
      if Matches(Repeat(WechatChunk, lo, Unbounded), s) {
        WechatChunksSound(lo, s);
      }
      if |s| >= 5 && forall i :: 0 <= i < |s| ==> WechatChar(s[i]) {
        WechatChunksComplete(lo, s);
      }
    }
  }

  lemma {:induction false} WechatChunksSound(lo: nat, s: string)
    requires lo <= 1 && s != [] && Matches(Repeat(WechatChunk, lo, Unbounded), s)
    ensures |s| >= 5 && forall i :: 0 <= i < |s| ==> WechatChar(s[i])
    decreases |s|, 0
  {
    var k :| 1 <= k <= |s| && Matches(WechatChunk, s[..k]) && Matches(Repeat(WechatChunk, 0, Unbounded), s[k..]);
    RepeatClass(Class(WechatChar), 5, Finite(19), s[..k]);
    WechatChunks(0, s[k..]);
    forall i | 0 <= i < |s| ensures WechatChar(s[i]) {
      if i < k { assert s[..k][i] == s[i]; } else { assert s[k..][i - k] == s[i]; }
    }
  }

  /** A run of five to nineteen is one chunk; a longer run is a chunk of five and the remaining run. */
  lemma {:induction false} WechatChunksComplete(lo: nat, s: string)
    requires lo <= 1 && |s| >= 5 && forall i :: 0 <= i < |s| ==> WechatChar(s[i])
    ensures Matches(Repeat(WechatChunk, lo, Unbounded), s)
    decreases |s|, 0
  {
    var k := if |s| <= 19 then |s| else 5;
    RepeatClass(Class(WechatChar), 5, Finite(19), s[..k]);
    assert forall i :: 0 <= i < k ==> s[..k][i] == s[i];
    assert Matches(WechatChunk, s[..k]);
    WechatChunks(0, s[k..]);
    assert forall i :: 0 <= i < |s| - k ==> s[k..][i] == s[k + i];
    assert Matches(Repeat(WechatChunk, 0, Unbounded), s[k..]);
  }

  lemma CheckWechatAccepts(wechat: string)
    ensures CheckWechat(wechat)
        <==> |wechat| >= 6 && IsLetter(wechat[0]) && forall i :: 1 <= i < |wechat| ==> WechatChar(wechat[i])
  {
    CatClass(Class(IsLetter), Plus(WechatChunk), wechat);
    if |wechat| >= 1 {
      WechatChunks(1, wechat[1..]);
      assert forall i :: 1 <= i < |wechat| ==> wechat[1..][i - 1] == wechat[i];
    }
  }

  // ---- checkTel: /^(\(\d{3,4}\)|\d{3,4}-)?\d{7,8}$/ -----------------------

  const AreaDigits: Re := Between(Digit, 3, 4)
  const LocalDigits: Re := Between(Digit, 7, 8)
  const ParenArea: Re := Cat(Char('('), Cat(AreaDigits, Char(')')))
  const DashArea: Re := Cat(AreaDigits, Char('-'))
  const TelPattern: Re := Cat(Opt(Alt(ParenArea, DashArea)), LocalDigits)

  function CheckTel(tel: string): bool { Matches(TelPattern, tel) }

  predicate AreaCode(t: string) { 3 <= |t| <= 4 && AllDigits(t) }
  predicate LocalNumber(t: string) { 7 <= |t| <= 8 && AllDigits(t) }

  /** An area code of 3-4 digits then `sep`, then the rest. */
  predicate AreaThen(s: string, sep: char) {
    sep in s && AreaCode(s[..IndexOf(s, sep)]) && LocalNumber(s[IndexOf(s, sep) + 1..])
  }

  lemma AreaDigitsAccepts(t: string)
    ensures Matches(AreaDigits, t) <==> AreaCode(t)
  {
    RepeatClass(Digit, 3, Finite(4), t);
  }

  lemma LocalDigitsAccepts(t: string)
    ensures Matches(LocalDigits, t) <==> LocalNumber(t)
  {
    RepeatClass(Digit, 7, Finite(8), t);
  }

  /** `d{3,4}` then `sep` then `\d{7,8}`. */
  lemma AreaSeparator(sep: char, t: string)
    requires !IsDigit(sep)
    ensures Matches(Cat(AreaDigits, Cat(Char(sep), LocalDigits)), t) <==> AreaThen(t, sep)
  {
    WithinDigits(AreaDigits, sep);
    CatSeparator(AreaDigits, sep, LocalDigits, t);
    if sep in t {
      AreaDigitsAccepts(t[..IndexOf(t, sep)]);
      LocalDigitsAccepts(t[IndexOf(t, sep) + 1..]);
    }
  }

  lemma CheckTelAccepts(tel: string)
    ensures CheckTel(tel) <==>
      (LocalNumber(tel)
       || (|tel| >= 1 && tel[0] == '(' && AreaThen(tel[1..], ')'))
       || AreaThen(tel, '-'))
  {
    CatOpt(Alt(ParenArea, DashArea), LocalDigits, tel);
    LocalDigitsAccepts(tel);
    CatAlt(ParenArea, DashArea, LocalDigits, tel);
    // (\(\d{3,4}\))\d{7,8}
    CatAssoc(Char('('), Cat(AreaDigits, Char(')')), LocalDigits, tel);
    CatClass(Char('('), Cat(Cat(AreaDigits, Char(')')), LocalDigits), tel);
    if |tel| >= 1 {
      CatAssoc(AreaDigits, Char(')'), LocalDigits, tel[1..]);
      AreaSeparator(')', tel[1..]);
    }
    // (\d{3,4}-)\d{7,8}
    CatAssoc(AreaDigits, Char('-'), LocalDigits, tel);
    AreaSeparator('-', tel);
  }

  // ---- checkUserName: /^[a-zA-Z0-9_-]{4,16}$/ -----------------------------

  predicate UserNameChar(c: char) { IsLetter(c) || IsDigit(c) || c == '_' || c == '-' }

  const UserNamePattern: Re := Between(Class(UserNameChar), 4, 16)

  function CheckUserName(name: string): bool { Matches(UserNamePattern, name) }

  lemma CheckUserNameAccepts(name: string)
    ensures CheckUserName(name) <==> 4 <= |name| <= 16 && forall i :: 0 <= i < |name| ==> UserNameChar(name[i])
  {
    RepeatClass(Class(UserNameChar), 4, Finite(16), name);
  }

  // ---- checkCharacter: /^[一-龥]{0,}$/ -----------------------------

  predicate IsCjkIdeograph(c: char) { '\U{4E00}' <= c <= '\U{9FA5}' }

  const CharacterPattern: Re := Repeat(Class(IsCjkIdeograph), 0, Unbounded)

  function CheckCharacter(charValue: string): bool { Matches(CharacterPattern, charValue) }

  /** Accepts exactly the strings of CJK unified ideographs U+4E00..U+9FA5, the empty string included. */
  lemma CheckCharacterAccepts(charValue: string)
    ensures CheckCharacter(charValue) <==> forall i :: 0 <= i < |charValue| ==> IsCjkIdeograph(charValue[i])
  {
    RepeatClass(Class(IsCjkIdeograph), 0, Unbounded, charValue);
  }

  // ---- checkIp: /^(\d+)\.(\d+)\.(\d+)\.(\d+)$/ and each group <= 255 ------

  const Run: Re := Plus(Digit)
  const IpPattern: Re :=
    Cat(Run, Cat(Char('.'), Cat(Run, Cat(Char('.'), Cat(Run, Cat(Char('.'), Run))))))

  predicate DigitRun(t: string) { |t| >= 1 && AllDigits(t) }

  lemma RunAccepts(t: string)
    ensures Matches(Run, t) <==> DigitRun(t)
  {
    RepeatClass(Digit, 1, Unbounded, t);
  }

  /** A run of digits holds no dot. */
  lemma RunHasNoDot()
    ensures Within(Run, Other('.'))
  {
    assert Within(Class(IsDigit), Other('.'));
  }

  /** `(\d+)` repeated `n` times with dots in between. */
  function Fields(n: nat): Re
    requires n >= 1
  {
    if n == 1 then Run else Cat(Run, Cat(Char('.'), Fields(n - 1)))
  }

  /** `n` parts, each a non-empty run of digits. */
  predicate DigitRuns(f: seq<string>, n: nat) {
    |f| == n && forall i :: 0 <= i < n ==> DigitRun(f[i])
  }

  /** `n` dot-separated fields, each a non-empty run of digits. */
  predicate DigitFields(t: string, n: nat) {
    DigitRuns(Split(t, '.'), n)
  }

  lemma {:induction false} FieldsAccepts(n: nat, t: string)
    requires n >= 1
    ensures Matches(Fields(n), t) <==> DigitFields(t, n)
    decreases n, 1
  {
    if n == 1 {
      RunAccepts(t);
      OneField(t);
    } else if '.' in t {
      FieldsAtDot(n, t);
    } else {
      FieldsNoDot(n, t);
    }
  }

  /** The first dot ends the first field; the rest holds `n - 1` fields. */
  lemma {:induction false} FieldsAtDot(n: nat, t: string)
    requires n >= 2 && '.' in t
    ensures Matches(Fields(n), t) <==> DigitFields(t, n)
    decreases n, 0
  {
    var k := IndexOf(t, '.');
    var head, tail := t[..k], t[k + 1..];
    FieldsAccepts(n - 1, tail);
    Reassemble(t, k);
    FieldsAfterMatch(n, head, tail);
  }

  lemma FieldsUnfold(n: nat, t: string)
    requires n >= 2
    ensures Matches(Fields(n), t) <==> Matches(Cat(Run, Cat(Char('.'), Fields(n - 1))), t)
  {
  }

  /** One more field: a digit run, a dot, and the remaining fields. */
  lemma FieldsAfterMatch(n: nat, head: string, tail: string)
    requires n >= 2 && '.' !in head
    requires Matches(Fields(n - 1), tail) <==> DigitFields(tail, n - 1)
    ensures Matches(Fields(n), head + "." + tail) <==> DigitFields(head + "." + tail, n)
  {
    FieldsUnfold(n, head + "." + tail);
    RunHasNoDot();
    CatSeparatorAfter(Run, '.', Fields(n - 1), head, tail);
    RunAccepts(head);
    FieldsAfter(head, tail, n);
  }

  /** Without a dot there is only one field. */
  lemma FieldsNoDot(n: nat, t: string)
    requires n >= 2 && '.' !in t
    ensures !Matches(Fields(n), t) && !DigitFields(t, n)
  {
    FieldsUnfold(n, t);
    RunHasNoDot();
    CatSeparator(Run, '.', Fields(n - 1), t);
  }

  lemma OneField(t: string)
    ensures DigitRun(t) <==> DigitFields(t, 1)
  {
    if DigitRun(t) {
      assert forall i :: 0 <= i < |t| ==> t[i] != '.';
    }
  }

  /** The fields of `t` are its first field followed by the fields after the first dot. */
  lemma DigitFieldsCons(t: string, n: nat)
    requires '.' in t && n >= 2
    ensures DigitFields(t, n)
        <==> DigitRun(t[..IndexOf(t, '.')]) && DigitFields(t[IndexOf(t, '.') + 1..], n - 1)
  {
    var k := IndexOf(t, '.');
    Reassemble(t, k);
    FieldsAfter(t[..k], t[k + 1..], n);
  }

  lemma FieldsAfter(head: string, tail: string, n: nat)
    requires '.' !in head && n >= 1
    ensures DigitFields(head + "." + tail, n) <==> DigitRun(head) && DigitFields(tail, n - 1)
  {
    SplitAfter(head, '.', tail);
    DigitRunsCons(head, Split(tail, '.'), n);
  }

  lemma DigitRunsCons(head: string, g: seq<string>, n: nat)
    requires n >= 1
    ensures DigitRuns([head] + g, n) <==> DigitRun(head) && DigitRuns(g, n - 1)
  {
    var f := [head] + g;
    assert |f| == |g| + 1 && f[0] == head;
    assert forall i :: 0 <= i < |g| ==> f[i + 1] == g[i];
    if DigitRuns(f, n) {
      forall i | 0 <= i < n - 1 ensures DigitRun(g[i]) {
        assert f[i + 1] == g[i];
      }
    }
    if DigitRun(head) && DigitRuns(g, n - 1) {
      forall i | 0 <= i < n ensures DigitRun(f[i]) {
        if i > 0 { assert f[i] == g[i - 1]; }
      }
    }
  }

  /** The pattern accepts exactly four non-empty digit fields separated by dots. */
  lemma IpPatternAccepts(ip: string)
    ensures Matches(IpPattern, ip) <==> DigitFields(ip, 4)
  {
    assert IpPattern == Fields(4);
    FieldsAccepts(4, ip);
  }

  /** `checkIp`: the pattern, then `0 <= Number(group) <= 255` for the four groups. */
  function CheckIp(ip: string): bool {
    if !Matches(IpPattern, ip) then false
    else
      IpPatternAccepts(ip);
      var group := Split(ip, '.');
      // Number() of a digit run is its decimal value, never negative.
      Decimal(group[0]) <= 255 && Decimal(group[1]) <= 255
      && Decimal(group[2]) <= 255 && Decimal(group[3]) <= 255
  }

  predicate Octet(t: string) { DigitRun(t) && Decimal(t) <= 255 }

  lemma CheckIpAccepts(ip: string)
    ensures CheckIp(ip) <==> var f := Split(ip, '.'); |f| == 4 && forall i :: 0 <= i < 4 ==> Octet(f[i])
  {
    var f := Split(ip, '.');
    if DigitFields(ip, 4) {
      CheckIpFields(ip);
      FourOctets(f);
    } else {
      CheckIpNoFields(ip);
      if |f| == 4 { FourOctets(f); }
    }
  }

  /** Four octets, one by one; octets are digit runs. */
  lemma FourOctets(f: seq<string>)
    requires |f| == 4
    ensures (forall i :: 0 <= i < 4 ==> Octet(f[i])) <==> Octet(f[0]) && Octet(f[1]) && Octet(f[2]) && Octet(f[3])
    ensures (forall i :: 0 <= i < 4 ==> Octet(f[i])) ==> DigitRuns(f, 4)
  {
  }

  lemma CheckIpFields(ip: string)
    requires DigitFields(ip, 4)
    ensures var f := Split(ip, '.'); CheckIp(ip) == (Octet(f[0]) && Octet(f[1]) && Octet(f[2]) && Octet(f[3]))
  {
    IpPatternAccepts(ip);
    assert Matches(IpPattern, ip);
  }

  lemma CheckIpNoFields(ip: string)
    requires !DigitFields(ip, 4)
    ensures !CheckIp(ip)
  {
    IpPatternAccepts(ip);
    assert !Matches(IpPattern, ip);
  }

  // ---- checkIsPosNumber / checkIsNegNumber / checkIsNumber -----------------

  /** `\d*\.?\d+` */
  const UnsignedPattern: Re := Cat(Star(Digit), PointThenDigits)
  /** `^\d*\.?\d+$` */
  const PosNumberPattern: Re := UnsignedPattern
  /** `^-\d*\.?\d+$` */
  const NegNumberPattern: Re := Cat(Char('-'), UnsignedPattern)
  /** `^-?\d*\.?\d+$` */
  const NumberPattern: Re := Cat(Opt(Char('-')), UnsignedPattern)

  /**
   * Digits with at most one decimal point, at least one digit after the
   * point (or at least one digit when there is no point).
   */
  predicate UnsignedDecimal(s: string) {
    if '.' in s then
      var k := IndexOf(s, '.');
      AllDigits(s[..k]) && AllDigits(s[k + 1..]) && k + 1 < |s|
    else |s| >= 1 && AllDigits(s)
  }

  const PointThenDigits: Re := Cat(Opt(Char('.')), Plus(Digit))

  /** `\.?\d+`: digits, or a point followed by digits. */
  lemma PointThenDigitsAccepts(u: string)
    ensures Matches(PointThenDigits, u) <==> DigitRun(u) || (|u| >= 1 && u[0] == '.' && DigitRun(u[1..]))
  {
    CatOpt(Char('.'), Plus(Digit), u);
    CatClass(Char('.'), Plus(Digit), u);
    RunAccepts(u);
    if |u| >= 1 { RunAccepts(u[1..]); }
  }

  lemma UnsignedPatternSound(s: string)
    requires Matches(UnsignedPattern, s)
    ensures UnsignedDecimal(s)
  {
    var k := CatElim(Star(Digit), PointThenDigits, s);
    var a, u := s[..k], s[k..];
    RepeatClass(Digit, 0, Unbounded, a);
    PointThenDigitsAccepts(u);
    assert s == a + u;
    if DigitRun(u) {
      DigitsThenRun(a, u);
    } else {
      DigitsThenPoint(a, u);
    }
  }

  lemma DigitsThenRun(a: string, u: string)
    requires AllDigits(a) && DigitRun(u)
    ensures UnsignedDecimal(a + u)
  {
    AllDigitsConcat(a, u);
    assert forall i :: 0 <= i < |a + u| ==> (a + u)[i] != '.';
  }

  lemma DigitsThenPoint(a: string, u: string)
    requires AllDigits(a) && |u| >= 1 && u[0] == '.' && DigitRun(u[1..])
    ensures UnsignedDecimal(a + u)
  {
    var s := a + u;
    var k := |a|;
    assert s[..k] == a && s[k] == '.';
    IndexOfUnique(s, '.', k);
    assert s[k + 1..] == u[1..];
  }

  lemma UnsignedPatternComplete(s: string)
    requires UnsignedDecimal(s)
    ensures Matches(UnsignedPattern, s)
  {
    var k := if '.' in s then IndexOf(s, '.') else 0;
    RepeatClass(Digit, 0, Unbounded, s[..k]);
    if '.' in s {
      assert s[k..][1..] == s[k + 1..];
    } else {
      assert s[k..] == s;
    }
    PointThenDigitsAccepts(s[k..]);
    CatIntro(Star(Digit), PointThenDigits, s, k);
  }

  lemma UnsignedPatternAccepts(s: string)
    ensures Matches(UnsignedPattern, s) <==> UnsignedDecimal(s)
  {
    if Matches(UnsignedPattern, s) { UnsignedPatternSound(s); }
    if UnsignedDecimal(s) { UnsignedPatternComplete(s); }
  }

  function CheckIsPosNumber(str: Option<string>): bool {
    if str.None? || str.value == "" then false
    else Matches(PosNumberPattern, str.value)
  }

  function CheckIsNegNumber(str: Option<string>): bool {
    if str.None? || str.value == "" then false
    else Matches(NegNumberPattern, str.value)
  }

  function CheckIsNumber(str: Option<string>): bool {
    if str.None? || str.value == "" then false
    else Matches(NumberPattern, str.value)
  }

  lemma CheckIsPosNumberAccepts(str: Option<string>)
    ensures CheckIsPosNumber(str) <==> str.Some? && UnsignedDecimal(str.value)
  {
    if str.Some? { UnsignedPatternAccepts(str.value); }
  }

  lemma CheckIsNegNumberAccepts(str: Option<string>)
    ensures CheckIsNegNumber(str)
        <==> str.Some? && |str.value| >= 1 && str.value[0] == '-' && UnsignedDecimal(str.value[1..])
  {
    if str.Some? {
      CatClass(Char('-'), UnsignedPattern, str.value);
      if |str.value| >= 1 { UnsignedPatternAccepts(str.value[1..]); }
    }
  }

  /** A number is exactly a positive number or a negative number; the two never overlap. */
  lemma NumberIsPosOrNeg(str: Option<string>)
    ensures CheckIsNumber(str) <==> CheckIsPosNumber(str) || CheckIsNegNumber(str)
    ensures !(CheckIsPosNumber(str) && CheckIsNegNumber(str))
  {
    if str.Some? {
      NumberIsSignedUnsigned(str.value);
      CheckIsPosNumberAccepts(str);
      CheckIsNegNumberAccepts(str);
      if |str.value| >= 1 && str.value[0] == '-' { MinusIsNotUnsigned(str.value); }
    }
  }

  lemma NumberIsSignedUnsigned(s: string)
    ensures Matches(NumberPattern, s) <==> Matches(UnsignedPattern, s) || Matches(NegNumberPattern, s)
  {
    CatOpt(Char('-'), UnsignedPattern, s);
  }

  /** A leading minus sign is neither a digit nor the point. */
  lemma MinusIsNotUnsigned(s: string)
    requires |s| >= 1 && s[0] == '-'
    ensures !UnsignedDecimal(s)
  {
    if '.' in s {
      assert IndexOf(s, '.') > 0;
      assert s[..IndexOf(s, '.')][0] == '-';
    }
  }

  /** All three reject `null` and "", and each sign check implies `checkNotNull`. */
  lemma NumberChecksRejectEmpty(str: Option<string>)
    ensures str.None? || str == Some("") ==> !CheckIsPosNumber(str) && !CheckIsNegNumber(str) && !CheckIsNumber(str)
    ensures CheckIsNumber(str) ==> CheckNotNull(str)
  {
  }
}
