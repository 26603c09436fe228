/**
 * The array helpers of tools/tools.js: `cleanArray`, which keeps the truthy
 * items, and `unique`, which keeps the first item of each key.
 */
module Arrays {

  /** The JavaScript values an array can hold; objects and arrays only by identity. */
  datatype JsValue =
    | Undefined
    | Null
    | Bool(b: bool)
    | Number(n: real)
    | NaN
    | Str(s: string)
    | Object(id: nat)

  /** JavaScript truthiness: everything but `false`, `0`, `NaN`, `""`, `null` and `undefined`. */
  predicate Truthy(v: JsValue) {
    match v
    case Undefined | Null | NaN => false
    case Bool(b) => b
    case Number(n) => n != 0.0
    case Str(s) => s != ""
    case Object(_) => true
  }

  // ---- cleanArray --------------------------------------------------------------

  /** The truthy items of `s`, in order. */
  function Truthies(s: seq<JsValue>): seq<JsValue> {
    if s == [] then []
    else Truthies(s[..|s| - 1]) + (if Truthy(s[|s| - 1]) then [s[|s| - 1]] else [])
  }

  /** `cleanArray(actual)`: pushes each truthy item onto a new array. */
  method CleanArray(actual: seq<JsValue>) returns (newArray: seq<JsValue>)
    ensures newArray == Truthies(actual)
  {
    newArray := [];
    for i := 0 to |actual|
      invariant newArray == Truthies(actual[..i])
    {
      assert actual[..i + 1][..i] == actual[..i];
      if Truthy(actual[i]) {
        newArray := newArray + [actual[i]];
      }
    }
    assert actual[..|actual|] == actual;
  }

  /** Filtering distributes over concatenation. */
  lemma {:induction false} TruthiesConcat(a: seq<JsValue>, b: seq<JsValue>)
    ensures Truthies(a + b) == Truthies(a) + Truthies(b)
    decreases |b|
  {
    if b == [] {
      assert a + b == a;
    } else {
      var b' := b[..|b| - 1];
      assert (a + b)[..|a + b| - 1] == a + b';
      assert (a + b)[|a + b| - 1] == b[|b| - 1];
      TruthiesConcat(a, b');
    }
  }

  /**
   * Exactly the truthy items are kept, in their order: every kept item is
   * truthy and the number of kept copies of each value is its number of
   * truthy occurrences.
   */
  lemma {:induction false} TruthiesKeepsTruthy(s: seq<JsValue>)
    ensures forall i :: 0 <= i < |Truthies(s)| ==> Truthy(Truthies(s)[i])
    ensures forall v :: multiset(Truthies(s))[v] == if Truthy(v) then multiset(s)[v] else 0
  {
    if s != [] {
      var p := s[..|s| - 1];
      TruthiesKeepsTruthy(p);
      assert s == p + [s[|s| - 1]];
    }
  }

  /** An array of truthy items is unchanged, so cleaning twice is cleaning once. */
  lemma {:induction false} TruthiesIdempotent(s: seq<JsValue>)
    ensures Truthies(Truthies(s)) == Truthies(s)
  {
    TruthiesKeepsTruthy(s);
    TruthiesOfTruthy(Truthies(s));
  }

  lemma {:induction false} TruthiesOfTruthy(s: seq<JsValue>)
    requires forall i :: 0 <= i < |s| ==> Truthy(s[i])
    ensures Truthies(s) == s
  {
    if s != [] {
      var p := s[..|s| - 1];
      assert forall i :: 0 <= i < |p| ==> p[i] == s[i];
      TruthiesOfTruthy(p);
    }
  }

  /** The documented example: `["1", "", "2", undefined, "e"]` becomes `["1", "2", "e"]`. */
  lemma CleanArrayExample()
    ensures Truthies([Str("1"), Str(""), Str("2"), Undefined, Str("e")]) == [Str("1"), Str("2"), Str("e")]
  {
    var s := [Str("1"), Str(""), Str("2"), Undefined, Str("e")];
    assert s == [Str("1"), Str("")] + [Str("2"), Undefined] + [Str("e")];
    TruthiesConcat([Str("1"), Str("")] + [Str("2"), Undefined], [Str("e")]);
    TruthiesConcat([Str("1"), Str("")], [Str("2"), Undefined]);
    assert [Str("1"), Str("")][..1] == [Str("1")] && [Str("1")][..0] == [];
    assert [Str("2"), Undefined][..1] == [Str("2")] && [Str("2")][..0] == [];
    assert [Str("e")][..0] == [];
  }

  // ---- unique ------------------------------------------------------------------

  /** The keys of the items of `s`. */
  function Keys<T, K(==)>(s: seq<T>, key: T -> K): set<K> {
    set i | 0 <= i < |s| :: key(s[i])
  }

  /** The items of `s` whose key no earlier item has, in order. */
  function FirstOfEachKey<T, K(==)>(s: seq<T>, key: T -> K): seq<T> {
    if s == [] then []
    else
      var p := s[..|s| - 1];
      FirstOfEachKey(p, key) + (if key(s[|s| - 1]) in Keys(p, key) then [] else [s[|s| - 1]])
  }

  lemma KeysAppend<T, K>(s: seq<T>, x: T, key: T -> K)
    ensures Keys(s + [x], key) == Keys(s, key) + {key(x)}
  {
    var s' := s + [x];
    assert forall i :: 0 <= i < |s| ==> s'[i] == s[i];
    assert s'[|s|] == x;
  }

  /**
   * `unique(array)` on the items of `array`: `filter` with a dictionary `obj` of the keys seen so
   * far (the key of an item is `typeof item + JSON.stringify(item)`, here the
   * parameter `key`).
   */
  method Unique<T, K(==)>(items: seq<T>, key: T -> K) returns (r: seq<T>)
    ensures r == FirstOfEachKey(items, key)
  {
    var obj: set<K> := {};
    r := [];
    for i := 0 to |items|
      invariant r == FirstOfEachKey(items[..i], key)
      invariant obj == Keys(items[..i], key)
    {
      var p := items[..i + 1];
      assert p[..i] == items[..i] && p[i] == items[i];
      KeysAppend(items[..i], items[i], key);
      assert p == items[..i] + [items[i]];
      if key(items[i]) !in obj {
        obj := obj + {key(items[i])};
        r := r + [items[i]];
      }
    }
    assert items[..|items|] == items;
  }

  /** No two items have the same key. */
  predicate DistinctKeys<T, K(==)>(s: seq<T>, key: T -> K) {
    forall i, j :: 0 <= i < j < |s| ==> key(s[i]) != key(s[j])
  }

  /**
   * The result keeps one item for every key of the input, no two with the
   * same key, and each of them is the first input item with that key.
   */
  lemma {:induction false} FirstOfEachKeySound<T, K>(s: seq<T>, key: T -> K)
    ensures var r := FirstOfEachKey(s, key);
      DistinctKeys(r, key) && Keys(r, key) == Keys(s, key)
      && forall i :: 0 <= i < |r| ==> exists j :: 0 <= j < |s| && s[j] == r[i] && key(r[i]) !in Keys(s[..j], key)
  {
    if s != [] {
      var p, x := s[..|s| - 1], s[|s| - 1];
      FirstOfEachKeySound(p, key);
      var rp := FirstOfEachKey(p, key);
      var r := FirstOfEachKey(s, key);
      assert s == p + [x];
      KeysAppend(p, x, key);
      if key(x) !in Keys(p, key) {
        KeysAppend(rp, x, key);
        assert r == rp + [x];
        forall i, j | 0 <= i < j < |r| ensures key(r[i]) != key(r[j]) {
          if j == |rp| {
            assert key(r[i]) in Keys(rp, key) by { assert r[i] == rp[i]; }
          } else {
            assert r[i] == rp[i] && r[j] == rp[j];
          }
        }
        forall i | 0 <= i < |r| ensures exists j :: 0 <= j < |s| && s[j] == r[i] && key(r[i]) !in Keys(s[..j], key) {
          if i == |rp| {
            assert s[|p|] == r[i] && s[..|p|] == p;
          } else {
            var j :| 0 <= j < |p| && p[j] == rp[i] && key(rp[i]) !in Keys(p[..j], key);
            assert s[j] == p[j] && s[..j] == p[..j] && r[i] == rp[i];
          }
        }
      } else {
        assert r == rp;
        forall i | 0 <= i < |r| ensures exists j :: 0 <= j < |s| && s[j] == r[i] && key(r[i]) !in Keys(s[..j], key) {
          var j :| 0 <= j < |p| && p[j] == rp[i] && key(rp[i]) !in Keys(p[..j], key);
          assert s[j] == p[j] && s[..j] == p[..j];
        }
      }
    }
  }

  /**
   * The result keeps the input order: its items stand in the input at
   * increasing positions `idx`, each the first position of its key.
   */
  lemma {:induction false} FirstOfEachKeyInOrder<T, K>(s: seq<T>, key: T -> K) returns (idx: seq<nat>)
    ensures var r := FirstOfEachKey(s, key);
      |idx| == |r|
      && (forall i :: 0 <= i < |r| ==> idx[i] < |s| && s[idx[i]] == r[i] && key(r[i]) !in Keys(s[..idx[i]], key))
      && (forall i, j :: 0 <= i < j < |r| ==> idx[i] < idx[j])
  {
    if s == [] {
      idx := [];
    } else {
      var p, x := s[..|s| - 1], s[|s| - 1];
      var ip := FirstOfEachKeyInOrder(p, key);
      assert s == p + [x];
      if key(x) !in Keys(p, key) {
        idx := ip + [|p|];
        InOrderAppend(s, key, ip);
      } else {
        idx := ip;
        InOrderKeep(s, key, ip);
      }
    }
  }

  lemma InOrderAppend<T, K>(s: seq<T>, key: T -> K, ip: seq<nat>)
    requires s != [] && key(s[|s| - 1]) !in Keys(s[..|s| - 1], key)
    requires var p, rp := s[..|s| - 1], FirstOfEachKey(s[..|s| - 1], key);
      |ip| == |rp|
      && (forall i :: 0 <= i < |rp| ==> ip[i] < |p| && p[ip[i]] == rp[i] && key(rp[i]) !in Keys(p[..ip[i]], key))
      && (forall i, j :: 0 <= i < j < |rp| ==> ip[i] < ip[j])
    ensures var r, idx := FirstOfEachKey(s, key), ip + [|s| - 1];
      |idx| == |r|
      && (forall i :: 0 <= i < |r| ==> idx[i] < |s| && s[idx[i]] == r[i] && key(r[i]) !in Keys(s[..idx[i]], key))
      && (forall i, j :: 0 <= i < j < |r| ==> idx[i] < idx[j])
  {
    var p, rp, r, idx := s[..|s| - 1], FirstOfEachKey(s[..|s| - 1], key), FirstOfEachKey(s, key), ip + [|s| - 1];
    assert r == rp + [s[|s| - 1]];
    forall i | 0 <= i < |r| ensures idx[i] < |s| && s[idx[i]] == r[i] && key(r[i]) !in Keys(s[..idx[i]], key) {
      if i < |rp| {
        assert idx[i] == ip[i] && s[..ip[i]] == p[..ip[i]] && s[ip[i]] == p[ip[i]] && r[i] == rp[i];
      } else {
        assert s[..|s| - 1] == p;
      }
    }
  }

  lemma InOrderKeep<T, K>(s: seq<T>, key: T -> K, ip: seq<nat>)
    requires s != [] && key(s[|s| - 1]) in Keys(s[..|s| - 1], key)
    requires var p, rp := s[..|s| - 1], FirstOfEachKey(s[..|s| - 1], key);
      |ip| == |rp|
      && (forall i :: 0 <= i < |rp| ==> ip[i] < |p| && p[ip[i]] == rp[i] && key(rp[i]) !in Keys(p[..ip[i]], key))
      && (forall i, j :: 0 <= i < j < |rp| ==> ip[i] < ip[j])
    ensures var r := FirstOfEachKey(s, key);
      |ip| == |r|
      && (forall i :: 0 <= i < |r| ==> ip[i] < |s| && s[ip[i]] == r[i] && key(r[i]) !in Keys(s[..ip[i]], key))
      && (forall i, j :: 0 <= i < j < |r| ==> ip[i] < ip[j])
  {
    var p := s[..|s| - 1];
    forall i | 0 <= i < |ip| ensures s[..ip[i]] == p[..ip[i]] && s[ip[i]] == p[ip[i]] {
    }
  }

  /** An array whose keys are already distinct is unchanged, so `unique` twice is `unique` once. */
  lemma {:induction false} FirstOfEachKeyOfDistinct<T, K>(s: seq<T>, key: T -> K)
    requires DistinctKeys(s, key)
    ensures FirstOfEachKey(s, key) == s
  {
    if s != [] {
      var p, x := s[..|s| - 1], s[|s| - 1];
      assert DistinctKeys(p, key) by {
        assert forall i :: 0 <= i < |p| ==> p[i] == s[i];
      }
      FirstOfEachKeyOfDistinct(p, key);
      assert key(x) !in Keys(p, key) by {
        forall i | 0 <= i < |p| ensures key(p[i]) != key(x) {
          assert p[i] == s[i];
        }
      }
    }
  }

  lemma UniqueIdempotent<T, K>(s: seq<T>, key: T -> K)
    ensures FirstOfEachKey(FirstOfEachKey(s, key), key) == FirstOfEachKey(s, key)
  {
    FirstOfEachKeySound(s, key);
    FirstOfEachKeyOfDistinct(FirstOfEachKey(s, key), key);
  }
}
