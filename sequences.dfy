/**
 * The JavaScript array operations the manager relies on, stated on
 * sequences: `findIndex` by reference, `splice(start, 1)` with its
 * treatment of a negative start, and the two halves of a sequence that a
 * `forEach` with an in-loop `splice` separates.
 */
module Sequences {

  ghost predicate NoDuplicates<T>(s: seq<T>) {
    forall i, j :: 0 <= i < j < |s| ==> s[i] != s[j]
  }

  /** `s.findIndex(x => x === e)`: the first position of `e`, or -1. */
  function IndexOf<T(==)>(s: seq<T>, e: T): (r: int)
    ensures -1 <= r < |s|
    ensures r >= 0 ==> s[r] == e && forall j :: 0 <= j < r ==> s[j] != e
    ensures r < 0 <==> e !in s
  {
    if |s| == 0 then -1
    else if s[0] == e then 0
    else
      var r := IndexOf(s[1..], e);
      if r < 0 then -1 else r + 1
  }

  /** `s.splice(k, 1)` for an index inside the sequence. */
  function RemoveAt<T>(s: seq<T>, k: nat): (r: seq<T>)
    requires k < |s|
    ensures |r| == |s| - 1
    ensures forall i :: 0 <= i < k ==> r[i] == s[i]
    ensures forall i :: k <= i < |r| ==> r[i] == s[i + 1]
  {
    s[..k] + s[k + 1..]
  }

  /**
   * The position `splice(start, 1)` removes from a sequence of length
   * `len`: a negative start counts back from the end and saturates at 0, a
   * start past the end saturates at `len`, which removes nothing.
   */
  function SpliceIndex(len: nat, start: int): (k: nat)
    ensures k <= len
    ensures 0 <= start < len ==> k == start
    ensures start == -1 && len > 0 ==> k == len - 1
  {
    if start >= 0 then (if start < len then start else len)
    else if len + start >= 0 then len + start
    else 0
  }

  /** `s.splice(start, 1)`. */
  function Splice<T>(s: seq<T>, start: int): (r: seq<T>)
    ensures 0 <= start < |s| ==> r == RemoveAt(s, start)
    ensures start == -1 && |s| > 0 ==> r == RemoveAt(s, |s| - 1)
    ensures start >= |s| ==> r == s
    ensures |s| == 0 ==> r == []
  {
    var k := SpliceIndex(|s|, start);
    if k < |s| then RemoveAt(s, k) else s
  }

  /** The elements at odd positions 1, 3, 5, ... */
  function OddIndexed<T>(s: seq<T>): (r: seq<T>)
    ensures |r| == |s| / 2
    ensures forall k :: 0 <= k < |r| ==> r[k] == s[2 * k + 1]
  {
    if |s| < 2 then [] else [s[1]] + OddIndexed(s[2..])
  }

  /** Every odd-indexed element is an element of the sequence. */
  lemma OddIndexedMembers<T>(s: seq<T>)
    ensures forall x :: x in OddIndexed(s) ==> x in s
  {
    forall x | x in OddIndexed(s) ensures x in s {
      var k :| 0 <= k < |OddIndexed(s)| && OddIndexed(s)[k] == x;
      assert s[2 * k + 1] == x;
    }
  }

  /** The elements at even positions 0, 2, 4, ... */
  function EvenIndexed<T>(s: seq<T>): (r: seq<T>)
    ensures |r| == (|s| + 1) / 2
    ensures forall k :: 0 <= k < |r| ==> r[k] == s[2 * k]
  {
    if |s| == 0 then [] else if |s| == 1 then [s[0]] else [s[0]] + EvenIndexed(s[2..])
  }

  /**
   * The state of a `forEach` over `s0` whose callback splices out the
   * element at the current index, before visiting index `i`: the first `i`
   * odd-indexed elements, then the untouched suffix from `2 * i`.
   */
  ghost predicate Alternating<T>(s0: seq<T>, cur: seq<T>, i: nat) {
    && 2 * i <= |s0| + 1 && |cur| + i == |s0|
    && (forall j :: 0 <= j < i && 2 * j + 1 < |s0| ==> cur[j] == s0[2 * j + 1])
    && (forall j :: i <= j < |cur| ==> cur[j] == s0[j + i])
  }

  /** The callback at index `i` removes `s0[2 * i]`, and the `forEach` moves on. */
  lemma AlternatingStep<T>(s0: seq<T>, cur: seq<T>, i: nat)
    requires Alternating(s0, cur, i) && i < |cur|
    ensures cur[i] == EvenIndexed(s0)[i]
    ensures Alternating(s0, Splice(cur, i), i + 1)
  {
    var r := RemoveAt(cur, i);
    forall j | 0 <= j < i + 1 && 2 * j + 1 < |s0| ensures r[j] == s0[2 * j + 1] {
      if j == i {
        assert r[j] == cur[j + 1];
      }
    }
    forall j | i + 1 <= j < |r| ensures r[j] == s0[j + i + 1] {
      assert r[j] == cur[j + 1];
    }
  }

  /** When the `forEach` stops, the odd-indexed elements are left, and it visited the even ones. */
  lemma AlternatingDone<T>(s0: seq<T>, cur: seq<T>, i: nat)
    requires Alternating(s0, cur, i) && i >= |cur|
    ensures cur == OddIndexed(s0) && i == |EvenIndexed(s0)|
  {
  }

  /** `n` copies of `x`. */
  function Repeat<T>(x: T, n: nat): (r: seq<T>)
    ensures |r| == n && forall i :: 0 <= i < n ==> r[i] == x
  {
    if n == 0 then [] else Repeat(x, n - 1) + [x]
  }

  /** The first occurrence of `e` taken out, or `s` itself when `e` is absent. */
  function RemoveFirst<T(==)>(s: seq<T>, e: T): (r: seq<T>)
    ensures e !in s ==> r == s
    ensures e in s ==> |r| == |s| - 1 && multiset(r) == multiset(s) - multiset{e}
  {
    var i := IndexOf(s, e);
    if i < 0 then s
    else
      assert s == s[..i] + [s[i]] + s[i + 1..];
      RemoveAt(s, i)
  }

  /** Removing past a leading element leaves that element in front. */
  lemma RemoveAtBehindHead<T>(h: T, s: seq<T>, i: nat)
    requires i < |s|
    ensures RemoveAt([h] + s, i + 1) == [h] + RemoveAt(s, i)
  {
    assert ([h] + s)[..i + 1] == [h] + s[..i];
    assert ([h] + s)[i + 2..] == s[i + 1..];
  }

  /**
   * A prefix one longer is the prefix followed by the next element.
   * A proof step, stated in the terms its callers use so the solver need
   * not rediscover it.
   */
  lemma PrefixStep<T>(s: seq<T>, j: nat)
    requires j < |s|
    ensures s[..j + 1] == s[..j] + [s[j]]
    ensures s[..j + 1][..j] == s[..j]
  {
  }

  /**
   * A non-empty sequence is its front followed by its last element.
   * A proof step, stated in the terms its callers use so the solver need
   * not rediscover it.
   */
  lemma FrontAndLast<T>(s: seq<T>)
    requires s != []
    ensures s[..|s| - 1] + [s[|s| - 1]] == s
  {
  }

  /** A proof step: concatenation regrouped, so callers need not prove the sequence equality in place. */
  lemma AppendAssociates<T>(a: seq<T>, b: seq<T>, c: seq<T>)
    ensures a + b + c == a + (b + c)
  {
  }

  /** Splicing never introduces an element. */
  lemma SpliceKeepsMembers<T>(s: seq<T>, start: int)
    ensures forall x :: x in Splice(s, start) ==> x in s
  {
    var r := Splice(s, start);
    var k := SpliceIndex(|s|, start);
    forall x | x in r ensures x in s {
      var i :| 0 <= i < |r| && r[i] == x;
      if k < |s| {
        if i < k { assert s[i] == x; } else { assert s[i + 1] == x; }
      }
    }
  }
}
