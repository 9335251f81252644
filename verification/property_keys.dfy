/**
 * The own string keys of an ordinary JavaScript object, and the order in which
 * `Object.keys`/`Object.values` list them (ECMAScript, section 10.1.11.1
 * "OrdinaryOwnPropertyKeys"): array indices first, in ascending numeric order,
 * then every other string key in the order it was created.
 */
module PropertyKeys {
  import opened InsertionOrder

  /** The largest array index, 2^32 - 2 (ECMAScript, section 6.1.7 "The Object Type"). */
  const MaxArrayIndex: nat := 4294967294

  /**
   * The names a plain object `{}` inherits from `Object.prototype` (ECMAScript,
   * section 20.1.3 "Properties of the Object Prototype Object", and Annex B.2.2).
   * Reading any of them on `{}` yields a function or, for `__proto__`, the
   * prototype object itself: a truthy value that is not an own property.
   */
  const InheritedNames: set<string> := {
    "constructor", "hasOwnProperty", "isPrototypeOf", "propertyIsEnumerable",
    "toLocaleString", "toString", "valueOf", "__proto__",
    "__defineGetter__", "__defineSetter__", "__lookupGetter__", "__lookupSetter__"
  }

  predicate IsDigit(c: char) {
    '0' <= c <= '9'
  }

  predicate AllDigits(s: string) {
    s == [] || (AllDigits(s[..|s| - 1]) && IsDigit(s[|s| - 1]))
  }

  /** The number a string of decimal digits denotes. */
  function DecimalValue(s: string): (n: nat)
    requires AllDigits(s)
  {
    if s == [] then 0
    else 10 * DecimalValue(s[..|s| - 1]) + (s[|s| - 1] as int - '0' as int)
  }

  /** `s` is an array index: the canonical decimal form (no leading zero) of an integer in [0, 2^32 - 2]. */
  predicate IsArrayIndex(s: string) {
    && 0 < |s|
    && AllDigits(s)
    && (s[0] == '0' ==> |s| == 1)
    && DecimalValue(s) <= MaxArrayIndex
  }

  /** The keys of `ks`, in their order there, that are (`index`) or are not (`!index`) array indices. */
  function KeysWhere(ks: seq<string>, index: bool): (r: seq<string>)
    ensures forall i :: 0 <= i < |r| ==> IsArrayIndex(r[i]) == index
  {
    if ks == [] then []
    else
      var k := ks[|ks| - 1];
      KeysWhere(ks[..|ks| - 1], index) + (if IsArrayIndex(k) == index then [k] else [])
  }

  /** The number a key denotes when it is a string of decimal digits, else 0. */
  function NumericValue(s: string): (n: nat) {
    if AllDigits(s) then DecimalValue(s) else 0
  }

  /** The keys' numeric values never decrease along `s`. */
  predicate Ascending(s: seq<string>) {
    forall i, j :: 0 <= i < j < |s| ==> NumericValue(s[i]) <= NumericValue(s[j])
  }

  /** Every element of `s` is at least as large, numerically, as `lo`. */
  lemma AtLeastAfterInsert(lo: nat, x: string, s: seq<string>, r: seq<string>)
    requires lo <= NumericValue(x)
    requires forall i :: 0 <= i < |s| ==> lo <= NumericValue(s[i])
    requires multiset(r) == multiset(s) + multiset{x}
    ensures forall i :: 0 <= i < |r| ==> lo <= NumericValue(r[i])
  {
    forall i | 0 <= i < |r| ensures lo <= NumericValue(r[i]) {
      assert r[i] in multiset(r);
      if r[i] != x {
        assert r[i] in multiset(s);
      }
    }
  }

  /** The tail of an ascending list is ascending, and no key in it is below the head. */
  lemma AscendingTail(s: seq<string>)
    requires s != [] && Ascending(s)
    ensures Ascending(s[1..])
    ensures forall i :: 0 <= i < |s[1..]| ==> NumericValue(s[0]) <= NumericValue(s[1..][i])
  {
  }

  /** A key no larger than the head of an ascending list may go in front of it. */
  lemma AscendingCons(h: string, r: seq<string>)
    requires Ascending(r)
    requires r != [] ==> NumericValue(h) <= NumericValue(r[0])
    ensures Ascending([h] + r)
  {
    var hr := [h] + r;
    forall i, j | 0 <= i < j < |hr| ensures NumericValue(hr[i]) <= NumericValue(hr[j]) {
      if i == 0 {
        assert hr[1] == r[0] && hr[j] == r[j - 1];
      } else {
        assert hr[i] == r[i - 1] && hr[j] == r[j - 1];
      }
    }
  }

  /** Inserts a key into a numerically ascending list of keys. */
  function InsertByValue(x: string, s: seq<string>): (r: seq<string>)
    requires Ascending(s)
    ensures multiset(r) == multiset(s) + multiset{x}
    ensures Ascending(r)
  {
    if s == [] || NumericValue(x) <= NumericValue(s[0]) then
      AscendingCons(x, s);
      [x] + s
    else
      AscendingTail(s);
      var rest := InsertByValue(x, s[1..]);
      assert s == [s[0]] + s[1..];
      AtLeastAfterInsert(NumericValue(s[0]), x, s[1..], rest);
      AscendingCons(s[0], rest);
      [s[0]] + rest
  }

  /** The keys `ks`, in ascending numeric order. */
  function SortByValue(ks: seq<string>): (r: seq<string>)
    ensures multiset(r) == multiset(ks) && Ascending(r)
  {
    if ks == [] then []
    else
      assert ks == [ks[0]] + ks[1..];
      InsertByValue(ks[0], SortByValue(ks[1..]))
  }

  /**
   * The order in which an ordinary object whose own string keys were created in
   * the order `created` lists them.
   */
  function KeyOrder(created: seq<string>): (r: seq<string>)
    ensures multiset(r) == multiset(created)
    ensures |r| == |created|
  {
    KeysWhereSplit(created);
    var r := SortByValue(KeysWhere(created, true)) + KeysWhere(created, false);
    assert |r| == |multiset(r)| == |multiset(created)| == |created|;
    r
  }

  /** `Object.values(acc)` for an object whose own keys were created in the order `created`. */
  function ObjectValues<V>(acc: map<string, V>, created: seq<string>): (vs: seq<V>)
    requires forall k | k in created :: k in acc
    ensures |vs| == |created|
    ensures forall j :: 0 <= j < |vs| ==> KeyOrder(created)[j] in created && vs[j] == acc[KeyOrder(created)[j]]
  {
    var order := KeyOrder(created);
    assert forall j :: 0 <= j < |order| ==> order[j] in multiset(order);
    seq(|order|, j requires 0 <= j < |order| => acc[order[j]])
  }

  /** The two filters together hold every key exactly as often as `ks` does. */
  lemma {:induction false} KeysWhereSplit(ks: seq<string>)
    ensures multiset(KeysWhere(ks, true)) + multiset(KeysWhere(ks, false)) == multiset(ks)
  {
    if ks != [] {
      KeysWhereSplit(ks[..|ks| - 1]);
      assert ks == ks[..|ks| - 1] + [ks[|ks| - 1]];
    }
  }

  /** A filter of a distinct key list keeps the keys in their order there. */
  lemma {:induction false} KeysWhereFirstSeen(ks: seq<string>, index: bool)
    requires Distinct(ks)
    ensures InFirstSeenOrder(KeysWhere(ks, index), ks)
  {
    if ks != [] {
      var p, k := ks[..|ks| - 1], ks[|ks| - 1];
      assert ks == p + [k];
      KeysWhereFirstSeen(p, index);
      assert k !in p;
      InFirstSeenOrderExtend(KeysWhere(p, index), p, k);
    }
  }

  /** Filtering distributes over concatenation. */
  lemma {:induction false} KeysWhereAppend(a: seq<string>, b: seq<string>, index: bool)
    ensures KeysWhere(a + b, index) == KeysWhere(a, index) + KeysWhere(b, index)
    decreases |b|
  {
    if b == [] {
      assert a + b == a;
    } else {
      var b' := b[..|b| - 1];
      assert (a + b)[..|a + b| - 1] == a + b';
      KeysWhereAppend(a, b', index);
    }
  }

  /** A list whose keys all are (or all are not) array indices passes that filter whole. */
  lemma {:induction false} KeysWhereAllPass(ks: seq<string>, index: bool)
    requires forall i :: 0 <= i < |ks| ==> IsArrayIndex(ks[i]) == index
    ensures KeysWhere(ks, index) == ks
  {
    if ks != [] {
      var n := |ks| - 1;
      var init := ks[..n];
      assert forall i :: 0 <= i < |init| ==> init[i] == ks[i];
      KeysWhereAllPass(init, index);
      assert ks == init + [ks[n]];
    }
  }

  /** A list whose keys all are (or all are not) array indices passes the opposite filter not at all. */
  lemma {:induction false} KeysWhereNonePass(ks: seq<string>, index: bool)
    requires forall i :: 0 <= i < |ks| ==> IsArrayIndex(ks[i]) == index
    ensures KeysWhere(ks, !index) == []
  {
    if ks != [] {
      var n := |ks| - 1;
      var init := ks[..n];
      assert forall i :: 0 <= i < |init| ==> init[i] == ks[i];
      KeysWhereNonePass(init, index);
    }
  }

  /** The sorted part of the key order holds array indices only. */
  lemma SortedIndices(created: seq<string>)
    ensures forall i :: 0 <= i < |SortByValue(KeysWhere(created, true))| ==> IsArrayIndex(SortByValue(KeysWhere(created, true))[i])
  {
    var sorted := SortByValue(KeysWhere(created, true));
    forall i | 0 <= i < |sorted| ensures IsArrayIndex(sorted[i]) {
      assert sorted[i] in multiset(KeysWhere(created, true));
    }
  }

  /** Array-index keys come before all others, in ascending numeric order. */
  predicate IndicesFirst(r: seq<string>) {
    forall i, j :: 0 <= i < j < |r| && IsArrayIndex(r[j]) ==> IsArrayIndex(r[i]) && NumericValue(r[i]) <= NumericValue(r[j])
  }

  /** The key order of distinct keys lists each of them once. */
  lemma KeyOrderDistinct(created: seq<string>)
    requires Distinct(created)
    ensures Distinct(KeyOrder(created))
    ensures forall i :: 0 <= i < |KeyOrder(created)| ==> KeyOrder(created)[i] in created
  {
    var r := KeyOrder(created);
    DistinctPermutation(created, r);
    forall i | 0 <= i < |r| ensures r[i] in created {
      assert r[i] in multiset(r);
    }
  }

  /** The array indices come before every other key, in ascending numeric order. */
  lemma KeyOrderIndicesFirst(created: seq<string>)
    ensures IndicesFirst(KeyOrder(created))
  {
    var r := KeyOrder(created);
    var sorted := SortByValue(KeysWhere(created, true));
    assert r == sorted + KeysWhere(created, false);
    SortedIndices(created);
    forall i, j | 0 <= i < j < |r| && IsArrayIndex(r[j])
      ensures IsArrayIndex(r[i]) && NumericValue(r[i]) <= NumericValue(r[j])
    {
      assert j < |sorted|;
      assert r[i] == sorted[i] && r[j] == sorted[j];
    }
  }

  /** The keys that are not array indices keep their creation order. */
  lemma KeyOrderKeepsNames(created: seq<string>)
    ensures KeysWhere(KeyOrder(created), false) == KeysWhere(created, false)
  {
    var sorted := SortByValue(KeysWhere(created, true));
    var rest := KeysWhere(created, false);
    SortedIndices(created);
    KeysWhereAppend(sorted, rest, false);
    KeysWhereNonePass(sorted, true);
    KeysWhereAllPass(rest, false);
  }

  /** Keys that are not array indices are listed in creation order. */
  lemma KeyOrderOfNames(created: seq<string>)
    requires forall i :: 0 <= i < |created| ==> !IsArrayIndex(created[i])
    ensures KeyOrder(created) == created
  {
    KeysWhereAllPass(created, false);
    KeysWhereNonePass(created, false);
  }

  /** A single key is listed alone. */
  lemma KeyOrderSingle(k: string)
    ensures KeyOrder([k]) == [k]
  {
    var r := KeyOrder([k]);
    assert |multiset(r)| == 1;
    assert r[0] in multiset(r);
  }

  /** What kind of key "10", "2" and "users" are. */
  lemma SampleKeys()
    ensures IsArrayIndex("10") && IsArrayIndex("2") && !IsArrayIndex("users")
    ensures NumericValue("10") == 10 && NumericValue("2") == 2
  {
    assert "10"[..1] == "1" && "1"[..0] == [] && "2"[..0] == [];
    assert "users"[0] == 'u';
  }

  /** Splitting "users", "10", "2" into array indices and other keys. */
  lemma SampleSplit()
    ensures KeysWhere(["users", "10", "2"], true) == ["10", "2"]
    ensures KeysWhere(["users", "10", "2"], false) == ["users"]
  {
    var ms := ["users", "10", "2"];
    SampleKeys();
    assert ms[..2] == ["users", "10"] && ms[..2][..1] == ["users"] && ms[..2][..1][..0] == [];
    assert KeysWhere(["users"], true) == [] && KeysWhere(["users"], false) == ["users"];
    assert KeysWhere(["users", "10"], true) == ["10"] && KeysWhere(["users", "10"], false) == ["users"];
  }

  /** Sorting "10", "2" by value. */
  lemma SampleSort()
    ensures SortByValue(["10", "2"]) == ["2", "10"]
  {
    SampleKeys();
    assert ["10", "2"][1..] == ["2"] && ["2"][1..] == [];
  }

  /** Keys "users", "10" and "2", created in that order, are listed as "2", "10", "users". */
  lemma IntegerLikeKeyOrder()
    ensures KeyOrder(["users", "10", "2"]) == ["2", "10", "users"]
  {
    SampleSplit();
    SampleSort();
  }
}
