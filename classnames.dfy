/**
 * The class-name helpers of tools/tools.js: `hasClass`, `addClass`,
 * `removeClass` and `toggleClass` on an element's `className`, a string of
 * class names separated by white space. Class names are taken to be plain
 * text: the source builds regular expressions from them unescaped.
 */
module ClassNames {
  import opened Wrappers
  import opened Text

  /** `name` stands at `j` in `cls` as a whole class: bounded by the ends or white space. */
  predicate TokenAt(cls: string, name: string, j: int) {
    OccursAt(cls, name, j)
    && (j == 0 || IsSpace(cls[j - 1]))
    && (j + |name| == |cls| || IsSpace(cls[j + |name|]))
  }

  /** A class name the helpers are meant for: non-empty, without white space. */
  predicate IsToken(name: string) {
    |name| > 0 && forall i :: 0 <= i < |name| ==> !IsSpace(name[i])
  }

  // ---- hasClass ----------------------------------------------------------------

  function HasClassFrom(cls: string, name: string, p: nat): (b: bool)
    requires p <= |cls|
    ensures b <==> exists j :: p <= j <= |cls| && TokenAt(cls, name, j)
    decreases |cls| - p
  {
    TokenAt(cls, name, p) || (p < |cls| && HasClassFrom(cls, name, p + 1))
  }

  /**
   * `hasClass(element, name)`: the search for `(^|\s+)name(\s+|$)` succeeds
   * exactly when `name` stands somewhere as a whole class.
   */
  function HasClass(cls: string, name: string): (b: bool)
    ensures b <==> exists j :: 0 <= j <= |cls| && TokenAt(cls, name, j)
  {
    HasClassFrom(cls, name, 0)
  }

  /** Without white space the class string is one class. */
  lemma HasClassSingle(cls: string, name: string)
    requires forall i :: 0 <= i < |cls| ==> !IsSpace(cls[i])
    ensures HasClass(cls, name) <==> cls == name
  {
    if cls == name {
      assert TokenAt(cls, name, 0);
    }
  }

  // ---- addClass ----------------------------------------------------------------

  /** `addClass`: nothing when the class is there, otherwise split on spaces, push `name`, join with spaces. */
  function AddedClass(cls: string, name: string): string {
    if HasClass(cls, name) then cls else Join(Split(cls, ' ') + [name], " ")
  }

  /** Adding appends one space and the name, and afterwards the class is there. */
  lemma AddedClassMeaning(cls: string, name: string)
    ensures AddedClass(cls, name) == if HasClass(cls, name) then cls else cls + " " + name
    ensures HasClass(AddedClass(cls, name), name)
  {
    if !HasClass(cls, name) {
      PushJoin(cls, name);
      AppendedToken(cls, name);
    }
  }

  lemma PushJoin(cls: string, name: string)
    ensures Join(Split(cls, ' ') + [name], " ") == cls + " " + name
  {
    JoinAppend(Split(cls, ' '), " ", name);
    JoinSplit(cls, ' ');
  }

  /** A name appended after a space stands there as a whole class. */
  lemma AppendedToken(cls: string, name: string)
    ensures TokenAt(cls + " " + name, name, |cls| + 1)
    ensures HasClass(cls + " " + name, name)
  {
    var r := cls + " " + name;
    assert r[|cls| + 1..|cls| + 1 + |name|] == name;
    assert r[|cls|] == ' ';
    assert TokenAt(r, name, |cls| + 1);
  }

  /** Adding twice is adding once. */
  lemma AddClassIdempotent(cls: string, name: string)
    ensures AddedClass(AddedClass(cls, name), name) == AddedClass(cls, name)
  {
    AddedClassMeaning(cls, name);
  }

  // ---- removeClass -------------------------------------------------------------

  /** What `(\s|$)` consumes at `e`: one white-space character, or nothing at the end. */
  function TailAt(cls: string, e: nat): (r: Option<nat>)
    ensures r.Some? ==> e + r.value <= |cls|
  {
    if e < |cls| && IsSpace(cls[e]) then Some(1)
    else if e == |cls| then Some(0)
    else None
  }

  /** The length of a match of `(^|\s)name(\s|$)` starting at `p`, trying the alternatives in order. */
  function RemovalAt(cls: string, name: string, p: nat): (r: Option<nat>)
    ensures r.Some? ==> p + r.value <= |cls| && r.value >= |name|
  {
    if p == 0 && OccursAt(cls, name, 0) && TailAt(cls, |name|).Some? then
      Some(|name| + TailAt(cls, |name|).value)
    else if p < |cls| && IsSpace(cls[p]) && OccursAt(cls, name, p + 1) && TailAt(cls, p + 1 + |name|).Some? then
      Some(1 + |name| + TailAt(cls, p + 1 + |name|).value)
    else None
  }

  /**
   * Where the removal pattern matches: at the start of the string when the
   * name stands there as a whole class (`^` is tried first), or at a white
   * space followed by the name as a whole class. The match takes the leading
   * white space, the name, and the following white space unless at the end.
   */
  lemma RemovalAtMeaning(cls: string, name: string, p: nat)
    ensures RemovalAt(cls, name, p).Some?
        <==> (p == 0 && TokenAt(cls, name, 0)) || (p < |cls| && IsSpace(cls[p]) && TokenAt(cls, name, p + 1))
    ensures RemovalAt(cls, name, p).Some? && p == 0 && TokenAt(cls, name, 0)
        ==> RemovalAt(cls, name, p).value == |name| + (if |name| < |cls| then 1 else 0)
    ensures RemovalAt(cls, name, p).Some? && !(p == 0 && TokenAt(cls, name, 0))
        ==> RemovalAt(cls, name, p).value == 1 + |name| + (if p + 1 + |name| < |cls| then 1 else 0)
  {
  }

  /** The removal pattern matches somewhere from `p` on. */
  predicate MatchFrom(cls: string, name: string, p: nat)
    requires p <= |cls|
    decreases |cls| - p
  {
    RemovalAt(cls, name, p).Some? || (p < |cls| && MatchFrom(cls, name, p + 1))
  }

  /** `cls.replace(/(^|\s)name(\s|$)/g, ' ')` from position `p` on: each leftmost match becomes one space. */
  function ReplaceAll(cls: string, name: string, p: nat): string
    requires p <= |cls|
    decreases |cls| - p
  {
    match RemovalAt(cls, name, p)
    case Some(len) =>
      if len > 0 then " " + ReplaceAll(cls, name, p + len)
      else " " + (if p < |cls| then [cls[p]] + ReplaceAll(cls, name, p + 1) else "")
    case None =>
      if p < |cls| then [cls[p]] + ReplaceAll(cls, name, p + 1) else ""
  }

  /** `removeClass`: nothing when the class is not there, otherwise the global replacement. */
  function RemovedClass(cls: string, name: string): string {
    if HasClass(cls, name) then ReplaceAll(cls, name, 0) else cls
  }

  /** The number of characters that are not white space. */
  function NonSpaces(s: string): nat {
    if s == [] then 0 else (if IsSpace(s[0]) then 0 else 1) + NonSpaces(s[1..])
  }

  lemma {:induction false} NonSpacesConcat(a: string, b: string)
    ensures NonSpaces(a + b) == NonSpaces(a) + NonSpaces(b)
  {
    if a != [] {
      assert (a + b)[1..] == a[1..] + b;
      NonSpacesConcat(a[1..], b);
    } else {
      assert a + b == b;
    }
  }

  /** A stretch that holds a class name holds a character that is not white space. */
  lemma NonSpacesOfMatch(cls: string, name: string, p: nat, len: nat, j: nat)
    requires IsToken(name) && p <= j && j + |name| <= p + len <= |cls| && OccursAt(cls, name, j)
    ensures NonSpaces(cls[p..p + len]) >= 1
  {
    var w := cls[p..p + len];
    var k := j - p;
    assert w[k] == name[0] && !IsSpace(w[k]);
    assert w == w[..k] + w[k..];
    NonSpacesConcat(w[..k], w[k..]);
  }

  /** Where the removal pattern matches nowhere, the replacement leaves the string as it is. */
  lemma {:induction false} ReplaceAllNoMatch(cls: string, name: string, p: nat)
    requires p <= |cls| && !MatchFrom(cls, name, p)
    ensures ReplaceAll(cls, name, p) == cls[p..]
    decreases |cls| - p
  {
    if p < |cls| {
      ReplaceAllNoMatch(cls, name, p + 1);
      assert cls[p..] == [cls[p]] + cls[p + 1..];
    }
  }

  /** A match at `q` is a match from any `p` up to `q`. */
  lemma {:induction false} MatchFromReaches(cls: string, name: string, p: nat, q: nat)
    requires p <= q <= |cls| && RemovalAt(cls, name, q).Some?
    ensures MatchFrom(cls, name, p)
    decreases q - p
  {
    if p < q {
      MatchFromReaches(cls, name, p + 1, q);
    }
  }

  /** Only a white-space-free class name is ever replaced, so the replacement never adds non-space characters, and removes some when it matches. */
  lemma {:induction false} ReplaceAllNonSpaces(cls: string, name: string, p: nat)
    requires IsToken(name) && p <= |cls|
    ensures NonSpaces(ReplaceAll(cls, name, p)) <= NonSpaces(cls[p..])
    ensures MatchFrom(cls, name, p) ==> NonSpaces(ReplaceAll(cls, name, p)) < NonSpaces(cls[p..])
    decreases |cls| - p
  {
    if RemovalAt(cls, name, p).Some? {
      var len := RemovalAt(cls, name, p).value;
      ReplacedStep(cls, name, p, len);
      ReplaceAllNonSpaces(cls, name, p + len);
    } else if p < |cls| {
      KeptStep(cls, name, p);
      ReplaceAllNonSpaces(cls, name, p + 1);
    }
  }

  /** A match at `p` becomes one space and takes at least one non-space character with it. */
  lemma ReplacedStep(cls: string, name: string, p: nat, len: nat)
    requires IsToken(name) && p <= |cls| && RemovalAt(cls, name, p) == Some(len)
    ensures len > 0 && p + len <= |cls|
    ensures NonSpaces(ReplaceAll(cls, name, p)) == NonSpaces(ReplaceAll(cls, name, p + len))
    ensures NonSpaces(cls[p..]) >= 1 + NonSpaces(cls[p + len..])
  {
    ReplacedBySpace(cls, name, p, len);
    MatchHasNonSpace(cls, name, p, len);
  }

  lemma ReplacedBySpace(cls: string, name: string, p: nat, len: nat)
    requires p + len <= |cls| && len > 0 && RemovalAt(cls, name, p) == Some(len)
    ensures NonSpaces(ReplaceAll(cls, name, p)) == NonSpaces(ReplaceAll(cls, name, p + len))
  {
    assert ReplaceAll(cls, name, p) == " " + ReplaceAll(cls, name, p + len);
    NonSpacesConcat(" ", ReplaceAll(cls, name, p + len));
  }

  lemma MatchHasNonSpace(cls: string, name: string, p: nat, len: nat)
    requires IsToken(name) && RemovalAt(cls, name, p) == Some(len)
    ensures p + len <= |cls| && NonSpaces(cls[p..]) >= 1 + NonSpaces(cls[p + len..])
  {
    var j := if p == 0 && OccursAt(cls, name, 0) && TailAt(cls, |name|).Some? then 0 else p + 1;
    assert OccursAt(cls, name, j) && p <= j && j + |name| <= p + len;
    NonSpacesAt(cls, p, len);
    NonSpacesOfMatch(cls, name, p, len, j);
  }

  /** Without a match at `p` the character there is kept. */
  lemma KeptStep(cls: string, name: string, p: nat)
    requires p < |cls| && RemovalAt(cls, name, p).None?
    ensures NonSpaces(ReplaceAll(cls, name, p)) == NonSpaces([cls[p]]) + NonSpaces(ReplaceAll(cls, name, p + 1))
    ensures NonSpaces(cls[p..]) == NonSpaces([cls[p]]) + NonSpaces(cls[p + 1..])
  {
    NonSpacesConcat([cls[p]], ReplaceAll(cls, name, p + 1));
    NonSpacesAt(cls, p, 1);
    assert cls[p..p + 1] == [cls[p]];
  }

  lemma NonSpacesAt(cls: string, p: nat, len: nat)
    requires p + len <= |cls|
    ensures NonSpaces(cls[p..]) == NonSpaces(cls[p..p + len]) + NonSpaces(cls[p + len..])
  {
    assert cls[p..] == cls[p..p + len] + cls[p + len..];
    NonSpacesConcat(cls[p..p + len], cls[p + len..]);
  }

  /** Where the class stands as a whole, the removal pattern matches (at it, or at the space before it). */
  lemma RemovalWhereClass(cls: string, name: string, j: nat)
    requires TokenAt(cls, name, j)
    ensures MatchFrom(cls, name, 0)
  {
    if j == 0 {
      assert RemovalAt(cls, name, 0).Some?;
    } else {
      assert RemovalAt(cls, name, j - 1).Some?;
      MatchFromReaches(cls, name, 0, j - 1);
    }
  }

  /** `removeClass` of a present class leaves fewer non-space characters. */
  lemma RemovedClassShrinks(cls: string, name: string)
    requires IsToken(name) && HasClass(cls, name)
    ensures NonSpaces(RemovedClass(cls, name)) < NonSpaces(cls)
  {
    var j :| 0 <= j <= |cls| && TokenAt(cls, name, j);
    RemovalWhereClass(cls, name, j);
    ReplaceAllNonSpaces(cls, name, 0);
    assert cls[0..] == cls;
  }

  /** A repeated class survives: removing `"a"` from `"a a"` leaves `" a"`, which still has class `a`. */
  lemma RemoveClassRepeated()
    ensures RemovedClass("a a", "a") == " a" && HasClass(" a", "a")
  {
    assert TokenAt("a a", "a", 0);
    assert TokenAt(" a", "a", 1);
    var cls := "a a";
    assert RemovalAt(cls, "a", 0) == Some(2);
    assert RemovalAt(cls, "a", 2) == None;
    assert ReplaceAll(cls, "a", 3) == "";
    assert ReplaceAll(cls, "a", 2) == "a";
  }

  /**
   * `removeClass` as evidently intended: the source's replacement repeated
   * until the class is gone, so that afterwards the element does not have it.
   */
  function RemovedAll(cls: string, name: string): (r: string)
    requires IsToken(name)
    ensures !HasClass(r, name)
    ensures !HasClass(cls, name) ==> r == cls
    decreases NonSpaces(cls)
  {
    if HasClass(cls, name) then
      RemovedClassShrinks(cls, name);
      RemovedAll(RemovedClass(cls, name), name)
    else cls
  }

  // ---- the other classes stay ---------------------------------------------------

  /** A class name standing somewhere has no white space inside it. */
  lemma NoSpaceIn(cls: string, a: string, i: int)
    requires IsToken(a) && OccursAt(cls, a, i)
    ensures forall k :: i <= k < i + |a| ==> !IsSpace(cls[k])
  {
    forall k | i <= k < i + |a| ensures !IsSpace(cls[k]) {
      assert cls[k] == cls[i..i + |a|][k - i];
    }
  }

  /** Two whole classes are the same run of characters, or one ends before the white space ahead of the other. */
  lemma TokenRuns(cls: string, a: string, i: int, b: string, j: int)
    requires IsToken(a) && IsToken(b)
    ensures TokenAt(cls, a, i) && TokenAt(cls, b, j) && i == j ==> a == b
    ensures TokenAt(cls, a, i) && TokenAt(cls, b, j) && i < j ==> i + |a| < j
  {
    if TokenAt(cls, a, i) && TokenAt(cls, b, j) && i <= j {
      NoSpaceIn(cls, a, i);
      NoSpaceIn(cls, b, j);
      if i == j {
        assert |a| == |b|;
        assert a == cls[j..j + |a|];
      }
    }
  }

  /** No match of the removal pattern starts inside another whole class. */
  lemma NoRemovalInToken(cls: string, name: string, t: string, j: nat, q: nat)
    requires IsToken(name) && IsToken(t) && t != name && TokenAt(cls, t, j) && j <= q < j + |t|
    ensures RemovalAt(cls, name, q).None?
  {
    RemovalAtMeaning(cls, name, q);
    NoSpaceIn(cls, t, j);
    TokenRuns(cls, name, 0, t, j);
  }

  /** A match that starts before another whole class ends before it. */
  lemma MatchBeforeToken(cls: string, name: string, t: string, j: nat, q: nat)
    requires IsToken(name) && IsToken(t) && t != name && TokenAt(cls, t, j) && q < j
    requires RemovalAt(cls, name, q).Some?
    ensures q + RemovalAt(cls, name, q).value <= j
  {
    RemovalAtMeaning(cls, name, q);
    var s0 := if q == 0 && TokenAt(cls, name, 0) then 0 else q + 1;
    TokenRuns(cls, name, s0, t, j);
  }

  /** The replacement reaches the start `j` of another whole class, having produced white space just before it. */
  lemma {:induction false} ScanReaches(cls: string, name: string, t: string, j: nat, p: nat) returns (x: string)
    requires IsToken(name) && IsToken(t) && t != name && TokenAt(cls, t, j) && p <= j
    ensures ReplaceAll(cls, name, p) == x + ReplaceAll(cls, name, j)
    ensures p == j ==> x == []
    ensures p < j ==> |x| > 0 && IsSpace(x[|x| - 1])
    decreases j - p, 1
  {
    if p == j {
      x := [];
    } else if RemovalAt(cls, name, p).Some? {
      x := ScanMatch(cls, name, t, j, p);
    } else {
      x := ScanKeep(cls, name, t, j, p);
    }
  }

  lemma {:induction false} ScanMatch(cls: string, name: string, t: string, j: nat, p: nat) returns (x: string)
    requires IsToken(name) && IsToken(t) && t != name && TokenAt(cls, t, j) && p < j
    requires RemovalAt(cls, name, p).Some?
    ensures ReplaceAll(cls, name, p) == x + ReplaceAll(cls, name, j)
    ensures |x| > 0 && IsSpace(x[|x| - 1])
    decreases j - p, 0
  {
    var len := RemovalAt(cls, name, p).value;
    MatchBeforeToken(cls, name, t, j, p);
    ReplaceAllAtMatch(cls, name, p, len);
    var y := ScanReaches(cls, name, t, j, p + len);
    ConsGlue(ReplaceAll(cls, name, p), ReplaceAll(cls, name, p + len), ReplaceAll(cls, name, j), ' ', y);
    x := [' '] + y;
  }

  lemma {:induction false} ScanKeep(cls: string, name: string, t: string, j: nat, p: nat) returns (x: string)
    requires IsToken(name) && IsToken(t) && t != name && TokenAt(cls, t, j) && p < j
    requires RemovalAt(cls, name, p).None?
    ensures ReplaceAll(cls, name, p) == x + ReplaceAll(cls, name, j)
    ensures |x| > 0 && IsSpace(x[|x| - 1])
    decreases j - p, 0
  {
    ReplaceAllAtKeep(cls, name, p);
    var y := ScanReaches(cls, name, t, j, p + 1);
    assert |y| == 0 ==> IsSpace(cls[p]);
    ConsGlue(ReplaceAll(cls, name, p), ReplaceAll(cls, name, p + 1), ReplaceAll(cls, name, j), cls[p], y);
    x := [cls[p]] + y;
  }

  /** A character and then a piece ending in white space (or white space alone) ends in white space. */
  lemma ConsGlue(a: string, b: string, c: string, ch: char, y: string)
    requires a == [ch] + b && b == y + c
    requires |y| == 0 ==> IsSpace(ch)
    requires |y| > 0 ==> IsSpace(y[|y| - 1])
    ensures a == [ch] + y + c
    ensures IsSpace(([ch] + y)[|[ch] + y| - 1])
  {
    if |y| > 0 {
      assert ([ch] + y)[|[ch] + y| - 1] == y[|y| - 1];
    }
  }

  /** A match becomes one space, and the replacement goes on after it. */
  lemma ReplaceAllAtMatch(cls: string, name: string, p: nat, len: nat)
    requires p + len <= |cls| && len > 0 && RemovalAt(cls, name, p) == Some(len)
    ensures ReplaceAll(cls, name, p) == [' '] + ReplaceAll(cls, name, p + len)
  {
  }

  /** Without a match the character is copied, and the replacement goes on after it. */
  lemma ReplaceAllAtKeep(cls: string, name: string, p: nat)
    requires p < |cls| && RemovalAt(cls, name, p).None?
    ensures ReplaceAll(cls, name, p) == [cls[p]] + ReplaceAll(cls, name, p + 1)
  {
  }

  /** The replacement copies another whole class character by character. */
  lemma {:induction false} ScanThrough(cls: string, name: string, t: string, j: nat, i: nat)
    requires IsToken(name) && IsToken(t) && t != name && TokenAt(cls, t, j) && i <= |t|
    ensures ReplaceAll(cls, name, j + i) == t[i..] + ReplaceAll(cls, name, j + |t|)
    decreases |t| - i
  {
    if i < |t| {
      NoRemovalInToken(cls, name, t, j, j + i);
      ReplaceAllAtKeep(cls, name, j + i);
      ScanThrough(cls, name, t, j, i + 1);
      CopiedChar(cls, t, j, i);
    }
  }

  lemma CopiedChar(cls: string, t: string, j: nat, i: nat)
    requires OccursAt(cls, t, j) && i < |t|
    ensures cls[j + i] == t[i] && t[i..] == [t[i]] + t[i + 1..]
  {
    assert cls[j + i] == cls[j..j + |t|][i];
  }

  /** After another whole class the replacement goes on with white space, or ends. */
  lemma ScanAfter(cls: string, name: string, t: string, j: nat)
    requires IsToken(t) && TokenAt(cls, t, j)
    ensures var y := ReplaceAll(cls, name, j + |t|); y == [] || IsSpace(y[0])
  {
    var e := j + |t|;
    if e < |cls| && RemovalAt(cls, name, e).Some? {
      ReplaceAllAtMatch(cls, name, e, RemovalAt(cls, name, e).value);
    }
  }

  /** A class name between white space (or the ends) stands there as a whole class. */
  lemma TokenBetween(x: string, t: string, y: string)
    requires |x| == 0 || IsSpace(x[|x| - 1])
    requires |y| == 0 || IsSpace(y[0])
    ensures TokenAt(x + t + y, t, |x|)
  {
    var r := x + t + y;
    assert r[|x|..|x| + |t|] == t;
    if |x| > 0 { assert r[|x| - 1] == x[|x| - 1]; }
    if |y| > 0 { assert r[|x| + |t|] == y[0]; }
  }

  /** The replacement copies another whole class as it stands. */
  lemma ScanToken(cls: string, name: string, t: string, j: nat)
    requires IsToken(name) && IsToken(t) && t != name && TokenAt(cls, t, j)
    ensures ReplaceAll(cls, name, j) == t + ReplaceAll(cls, name, j + |t|)
  {
    ScanThrough(cls, name, t, j, 0);
    assert t[0..] == t;
  }

  /** `removeClass` keeps every other class of the element. */
  lemma RemovedClassKeepsOthers(cls: string, name: string, t: string)
    requires IsToken(name) && IsToken(t) && t != name && HasClass(cls, t)
    ensures HasClass(RemovedClass(cls, name), t)
  {
    if HasClass(cls, name) {
      var j :| 0 <= j <= |cls| && TokenAt(cls, t, j);
      var x := ScanReaches(cls, name, t, j, 0);
      ScanToken(cls, name, t, j);
      ScanAfter(cls, name, t, j);
      var y := ReplaceAll(cls, name, j + |t|);
      TokenBetween(x, t, y);
      assert ReplaceAll(cls, name, 0) == x + t + y;
    }
  }

  /** The repeated removal keeps every other class of the element. */
  lemma {:induction false} RemovedAllKeepsOthers(cls: string, name: string, t: string)
    requires IsToken(name) && IsToken(t) && t != name && HasClass(cls, t)
    ensures HasClass(RemovedAll(cls, name), t)
    decreases NonSpaces(cls)
  {
    if HasClass(cls, name) {
      RemovedClassShrinks(cls, name);
      RemovedClassKeepsOthers(cls, name, t);
      RemovedAllKeepsOthers(RemovedClass(cls, name), name, t);
    }
  }

  /** `addClass` keeps every other class of the element. */
  lemma AddedClassKeepsOthers(cls: string, name: string, t: string)
    requires HasClass(cls, t)
    ensures HasClass(AddedClass(cls, name), t)
  {
    AddedClassMeaning(cls, name);
    if !HasClass(cls, name) {
      AppendKeepsClass(cls, name, t);
    }
  }

  lemma AppendKeepsClass(cls: string, name: string, t: string)
    requires HasClass(cls, t)
    ensures HasClass(cls + " " + name, t)
  {
    var j :| 0 <= j <= |cls| && TokenAt(cls, t, j);
    TokenAppended(cls, " " + name, t, j);
    assert cls + " " + name == cls + (" " + name);
  }

  /** A whole class stays one when white space and more are appended. */
  lemma TokenAppended(cls: string, tail: string, t: string, j: nat)
    requires TokenAt(cls, t, j) && (|tail| == 0 || IsSpace(tail[0]))
    ensures TokenAt(cls + tail, t, j)
  {
    var r := cls + tail;
    assert r[j..j + |t|] == cls[j..j + |t|];
    if j > 0 { assert r[j - 1] == cls[j - 1]; }
    if j + |t| < |r| {
      assert r[j + |t|] == if j + |t| < |cls| then cls[j + |t|] else tail[0];
    }
  }

  // ---- toggleClass -------------------------------------------------------------

  /**
   * `toggleClass(element, name)` as written: for a non-empty name, append it
   * with no separator when it does not occur as a substring, or cut out its
   * first occurrence as a substring.
   */
  function Toggled(cls: string, name: string): string {
    if name == "" then cls
    else
      var k := IndexOfSub(cls, name);
      if k == -1 then cls + name else cls[..k] + cls[k + |name|..]
  }

  /** Toggling as written glues the name on: `"btn"` with `"active"` becomes `"btnactive"`, which does not have class `active`. */
  lemma ToggleClassGlues()
    ensures Toggled("btn", "active") == "btnactive" && !HasClass("btn", "active") && !HasClass("btnactive", "active")
  {
    HasClassSingle("btn", "active");
    HasClassSingle("btnactive", "active");
  }

  /** Toggling as written cuts into other classes: `"is-on"` with `"on"` becomes `"is-"`; neither has class `on`. */
  lemma ToggleClassCuts()
    ensures Toggled("is-on", "on") == "is-" && !HasClass("is-on", "on") && !HasClass("is-", "on")
  {
    HasClassSingle("is-on", "on");
    HasClassSingle("is-", "on");
    OnAtThree();
    var s := "is-on";
    assert s[..3] == "is-" && s[5..] == "";
  }

  lemma OnAtThree()
    ensures IndexOfSub("is-on", "on") == 3
  {
    var s := "is-on";
    assert s[3..5] == "on";
    forall j | 0 <= j < 3 ensures !OccursAt(s, "on", j) {
      assert s[j..j + 2][0] == s[j] != 'o';
    }
    IndexOfSubUnique(s, "on", 3);
  }

  /** `toggleClass` as evidently intended: remove the class when it is there, add it otherwise. */
  function ToggledClass(cls: string, name: string): string
    requires IsToken(name)
  {
    if HasClass(cls, name) then RemovedAll(cls, name) else AddedClass(cls, name)
  }

  /** The intended toggle flips whether the element has the class, and adds it as one more space-separated class. */
  lemma ToggledClassFlips(cls: string, name: string)
    requires IsToken(name)
    ensures HasClass(ToggledClass(cls, name), name) <==> !HasClass(cls, name)
    ensures !HasClass(cls, name) ==> ToggledClass(cls, name) == cls + " " + name
  {
    AddedClassMeaning(cls, name);
  }

  /** The intended toggle keeps every other class of the element. */
  lemma ToggledClassKeepsOthers(cls: string, name: string, t: string)
    requires IsToken(name) && IsToken(t) && t != name && HasClass(cls, t)
    ensures HasClass(ToggledClass(cls, name), t)
  {
    if HasClass(cls, name) {
      RemovedAllKeepsOthers(cls, name, t);
    } else {
      AddedClassKeepsOthers(cls, name, t);
    }
  }

  /**
   * Toggling twice from absent does not give back the string: the removal
   * leaves the white space before the class behind, so a single class `c`
   * becomes `c + " "`.
   */
  lemma ToggleTwiceLeavesSpace(cls: string, name: string)
    requires IsToken(cls) && IsToken(name) && cls != name
    ensures ToggledClass(cls, name) == cls + " " + name
    ensures ToggledClass(cls + " " + name, name) == cls + " "
  {
    HasClassSingle(cls, name);
    ToggledClassFlips(cls, name);
    AppendedToken(cls, name);
    RemoveAppended(cls, name);
    OnlyClassLeft(cls, name);
  }

  /** Removing a class appended to a single other class leaves that class and a space. */
  lemma RemoveAppended(cls: string, name: string)
    requires IsToken(cls) && IsToken(name) && cls != name
    ensures RemovedClass(cls + " " + name, name) == cls + " "
  {
    AppendedToken(cls, name);
    assert cls + " " + name == cls + (" " + name);
    CopiedSingle(cls, " " + name, name);
    RemovedAfterSingle(cls, name);
  }

  /** A single class at the start, followed by white space, is copied as it stands. */
  lemma CopiedSingle(cls: string, rest: string, name: string)
    requires IsToken(cls) && IsToken(name) && cls != name && |rest| > 0 && IsSpace(rest[0])
    ensures ReplaceAll(cls + rest, name, 0) == cls + ReplaceAll(cls + rest, name, |cls|)
  {
    assert cls[0..|cls|] == cls;
    TokenAppended(cls, rest, cls, 0);
    ScanToken(cls + rest, name, cls, 0);
  }

  lemma RemovedAfterSingle(cls: string, name: string)
    requires IsToken(name)
    ensures ReplaceAll(cls + " " + name, name, |cls|) == " "
  {
    var r := cls + " " + name;
    AppendedToken(cls, name);
    RemovalAtMeaning(r, name, |cls|);
    assert r[|cls|] == ' ';
    ReplaceAllAtMatch(r, name, |cls|, 1 + |name|);
    assert ReplaceAll(r, name, |r|) == "";
  }

  /** A single class followed by a space has no other class. */
  lemma OnlyClassLeft(cls: string, name: string)
    requires IsToken(cls) && IsToken(name) && cls != name
    ensures !HasClass(cls + " ", name)
  {
    var r := cls + " ";
    assert cls[0..|cls|] == cls;
    TokenAppended(cls, " ", cls, 0);
    forall j | 0 <= j <= |r| ensures !TokenAt(r, name, j) {
      TokenRuns(r, cls, 0, name, j);
    }
  }

  // ---- the element ---------------------------------------------------------------

  /** A DOM element, as far as these helpers see it. */
  class Element {
    var className: string

    constructor (className: string)
      ensures this.className == className
    {
      this.className := className;
    }

    /** `addClass(element, name)`. */
    method AddClass(name: string)
      modifies this
      ensures className == AddedClass(old(className), name)
    {
      if HasClass(className, name) {
        return;
      }
      var newClass := Split(className, ' ');
      newClass := newClass + [name];
      className := Join(newClass, " ");
    }

    /** `removeClass(element, name)`. */
    method RemoveClass(name: string)
      modifies this
      ensures className == RemovedClass(old(className), name)
    {
      if !HasClass(className, name) {
        return;
      }
      className := ReplaceAll(className, name, 0);
    }

    /** `toggleClass(element, name)` as written. */
    method ToggleClass(name: string)
      modifies this
      ensures className == Toggled(old(className), name)
    {
      if name == "" {
        return;
      }
      var classString := className;
      var nameIndex := IndexOfSub(classString, name);
      if nameIndex == -1 {
        classString := classString + name;
      } else {
        classString := classString[..nameIndex] + classString[nameIndex + |name|..];
      }
      className := classString;
    }
  }
}
