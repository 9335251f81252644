/**
 * Sequences read as insertion-ordered collections: what iterating a JavaScript
 * `Set`, or listing the string keys an object acquired, yields.
 */
module InsertionOrder {

  /** No element occurs twice in `s`. */
  predicate Distinct<T(==)>(s: seq<T>) {
    forall i, j :: 0 <= i < j < |s| ==> s[i] != s[j]
  }

  /** The position of the first occurrence of `x` in `s`. */
  function IndexOf<T(==)>(s: seq<T>, x: T): (k: nat)
    requires x in s
    ensures k < |s| && s[k] == x && x !in s[..k]
  {
    if s[0] == x then 0
    else
      var k := 1 + IndexOf(s[1..], x);
      assert s[..k] == [s[0]] + s[1..][..k - 1];
      k
  }

  /** Every element of `t` occurs in `s`, and `t` lists them in the order of their first occurrence in `s`. */
  predicate InFirstSeenOrder<T(==)>(t: seq<T>, s: seq<T>) {
    && (forall i :: 0 <= i < |t| ==> t[i] in s)
    && (forall i, j :: 0 <= i < j < |t| ==> t[i] in s && t[j] in s && IndexOf(s, t[i]) < IndexOf(s, t[j]))
  }

  /**
   * The distinct elements of `s`, each once, in order of first occurrence:
   * `[...new Set(s)]`. A `Set` adds the elements of `s` one by one and
   * ignores an element it already holds.
   */
  function Dedupe<T(==)>(s: seq<T>): (d: seq<T>)
    ensures forall i :: 0 <= i < |d| ==> d[i] in s
    ensures forall i :: 0 <= i < |s| ==> s[i] in d
    ensures Distinct(d)
  {
    if s == [] then []
    else
      var d := Dedupe(s[..|s| - 1]);
      var x := s[|s| - 1];
      assert s == s[..|s| - 1] + [x];
      if x in d then d else d + [x]
  }

  /** A list without repeats passes through a `Set` unchanged. */
  lemma {:induction false} DedupeDistinct<T>(s: seq<T>)
    requires Distinct(s)
    ensures Dedupe(s) == s
  {
    if s != [] {
      var n := |s| - 1;
      DedupeDistinct(s[..n]);
      assert s[n] !in s[..n];
      assert s == s[..n] + [s[n]];
    }
  }

  /** Adding `x` to a `Set` that already holds the elements of `s`. */
  lemma DedupeSnoc<T>(s: seq<T>, x: T)
    ensures Dedupe(s + [x]) == if x in Dedupe(s) then Dedupe(s) else Dedupe(s) + [x]
  {
    assert (s + [x])[..|s|] == s;
  }

  /** The first occurrence of `x` is the one position holding `x` with no `x` before it. */
  lemma IndexOfUnique<T>(s: seq<T>, x: T, k: nat)
    requires k < |s| && s[k] == x && x !in s[..k]
    ensures IndexOf(s, x) == k
  {
  }

  /** Appending to `s` leaves the first occurrences of its elements where they were. */
  lemma IndexOfAppend<T>(s: seq<T>, y: T, x: T)
    requires x in s
    ensures IndexOf(s + [y], x) == IndexOf(s, x)
  {
    var k := IndexOf(s, x);
    assert (s + [y])[..k] == s[..k];
    IndexOfUnique(s + [y], x, k);
  }

  /** Appending an element new to `s` to both sides keeps first-seen order. */
  lemma InFirstSeenOrderExtend<T>(t: seq<T>, s: seq<T>, y: T)
    requires InFirstSeenOrder(t, s) && y !in s
    ensures InFirstSeenOrder(t, s + [y])
    ensures InFirstSeenOrder(t + [y], s + [y])
  {
    forall x | x in s
      ensures IndexOf(s + [y], x) == IndexOf(s, x) < |s|
    {
      IndexOfAppend(s, y, x);
    }
    assert (s + [y])[..|s|] == s;
    IndexOfUnique(s + [y], y, |s|);
    var t' := t + [y];
    forall i, j | 0 <= i < j < |t'|
      ensures t'[i] in s + [y] && t'[j] in s + [y] && IndexOf(s + [y], t'[i]) < IndexOf(s + [y], t'[j])
    {
      assert t'[i] == t[i] && t[i] in s;
      if j < |t| {
        assert t'[j] == t[j] && t[j] in s;
      }
    }
  }

  /** First-seen order is transitive: a list ordered by `u`, where `u` is ordered by `s`, is ordered by `s`. */
  lemma FirstSeenTransitive<T>(t: seq<T>, u: seq<T>, s: seq<T>)
    requires InFirstSeenOrder(t, u) && InFirstSeenOrder(u, s)
    ensures InFirstSeenOrder(t, s)
  {
    forall i | 0 <= i < |t| ensures t[i] in s {
      var a := IndexOf(u, t[i]);
      assert u[a] == t[i];
    }
    forall i, j | 0 <= i < j < |t|
      ensures t[i] in s && t[j] in s && IndexOf(s, t[i]) < IndexOf(s, t[j])
    {
      var a, b := IndexOf(u, t[i]), IndexOf(u, t[j]);
      assert a < b && u[a] == t[i] && u[b] == t[j];
    }
  }

  /** `Dedupe(s)` lists the elements of `s` in the order they first occur. */
  lemma {:induction false} DedupeFirstSeen<T>(s: seq<T>)
    ensures InFirstSeenOrder(Dedupe(s), s)
  {
    if s != [] {
      var p, x := s[..|s| - 1], s[|s| - 1];
      assert s == p + [x];
      DedupeFirstSeen(p);
      if x in Dedupe(p) {
        forall z | z in p ensures IndexOf(s, z) == IndexOf(p, z) { IndexOfAppend(p, x, z); }
      } else {
        InFirstSeenOrderExtend(Dedupe(p), p, x);
      }
    }
  }

  /** A non-empty list holds its head. */
  lemma HeadIsElement<T>(t: seq<T>)
    ensures t != [] ==> t[0] in t
  {
  }

  /** Past its head, a list in first-seen order is still in first-seen order and no longer holds its head. */
  lemma FirstSeenTail<T>(t: seq<T>, s: seq<T>)
    requires t != [] && InFirstSeenOrder(t, s)
    ensures InFirstSeenOrder(t[1..], s)
    ensures forall x :: x in t[1..] <==> x in t && x != t[0]
  {
    forall x | x in t[1..] ensures x != t[0] {
      var i :| 1 <= i < |t| && t[i] == x;
      assert IndexOf(s, t[0]) < IndexOf(s, t[i]);
    }
  }

  /** The head of a list in first-seen order is its element seen first. */
  lemma FirstSeenHead<T>(t: seq<T>, s: seq<T>, x: T)
    requires InFirstSeenOrder(t, s) && x in t && x != t[0]
    ensures IndexOf(s, t[0]) < IndexOf(s, x)
  {
    var i :| 0 <= i < |t| && t[i] == x;
  }

  /**
   * First-seen order pins a list down: two lists with the same elements, both in
   * the order of first occurrence in `s`, are equal. So `Dedupe(s)` is the only
   * list with the elements of `s` in that order.
   */
  lemma {:induction false} FirstSeenOrderUnique<T>(s: seq<T>, t: seq<T>, u: seq<T>)
    requires InFirstSeenOrder(t, s) && InFirstSeenOrder(u, s)
    requires forall x :: x in t <==> x in u
    ensures t == u
    decreases |t| + |u|
  {
    if t == [] || u == [] {
      HeadIsElement(t);
      HeadIsElement(u);
    } else {
      if t[0] != u[0] {
        FirstSeenHead(u, s, t[0]);
        FirstSeenHead(t, s, u[0]);
        assert false;
      }
      FirstSeenTail(t, s);
      FirstSeenTail(u, s);
      FirstSeenOrderUnique(s, t[1..], u[1..]);
      assert t == [t[0]] + t[1..] && u == [u[0]] + u[1..];
    }
  }

  /** Each element of a distinct sequence is counted once by its multiset. */
  lemma {:induction false} DistinctCountsOnce<T>(s: seq<T>, x: T)
    requires Distinct(s)
    ensures multiset(s)[x] <= 1
  {
    if s != [] {
      assert s == [s[0]] + s[1..];
      DistinctCountsOnce(s[1..], x);
      if s[0] == x {
        assert x !in s[1..];
      }
    }
  }

  /** A rearrangement of a distinct sequence is distinct. */
  lemma DistinctPermutation<T>(s: seq<T>, t: seq<T>)
    requires Distinct(s) && multiset(s) == multiset(t)
    ensures Distinct(t)
  {
    if !Distinct(t) {
      var i, j :| 0 <= i < j < |t| && t[i] == t[j];
      assert t == t[..j] + t[j..];
      assert t[i] in multiset(t[..j]) && t[j] in multiset(t[j..]);
      DistinctCountsOnce(s, t[i]);
    }
  }
}
