/**
 * The two query primitives the repositories rely on: `ORDER BY <key>` and
 * "the first element that matches" (SQL `.get`, `rows[0]`, `Array.prototype.find`).
 */
module Ordering {
  import opened Wrappers

  /** The keys never decrease along `s`. */
  predicate Ascending<T>(s: seq<T>, key: T -> int) {
    forall i, j | 0 <= i < j < |s| :: key(s[i]) <= key(s[j])
  }

  /** An element whose key is at most every key of an ascending sequence may lead it. */
  lemma AscendingCons<T>(h: T, t: seq<T>, key: T -> int)
    requires Ascending(t, key)
    requires forall y | y in t :: key(h) <= key(y)
    ensures Ascending([h] + t, key)
  {
    var s := [h] + t;
    forall i, j | 0 <= i < j < |s| ensures key(s[i]) <= key(s[j]) {
      assert s[j] == t[j - 1];
      if i > 0 {
        assert s[i] == t[i - 1];
      } else {
        assert t[j - 1] in t;
      }
    }
  }

  /** Puts `x` into the ascending `s`, in front of the first element whose key is not smaller. */
  function Insert<T(==)>(x: T, s: seq<T>, key: T -> int): (r: seq<T>)
    requires Ascending(s, key)
    ensures Ascending(r, key)
    ensures multiset(r) == multiset(s) + multiset{x}
  {
    if s == [] || key(x) <= key(s[0]) then
      AscendingCons(x, s, key);
      [x] + s
    else
      var tail := Insert(x, s[1..], key);
      InsertKeysBound(x, s, key, tail);
      AscendingCons(s[0], tail, key);
      assert s == [s[0]] + s[1..];
      [s[0]] + tail
  }

  /** Every element of `tail` is `x` or comes from `s[1..]`, so none has a key below `s[0]`'s. */
  lemma InsertKeysBound<T>(x: T, s: seq<T>, key: T -> int, tail: seq<T>)
    requires s != [] && Ascending(s, key) && key(s[0]) < key(x)
    requires multiset(tail) == multiset(s[1..]) + multiset{x}
    ensures forall y | y in tail :: key(s[0]) <= key(y)
  {
    forall y | y in tail ensures key(s[0]) <= key(y) {
      assert y in multiset(tail);
      if y != x {
        assert y in multiset(s[1..]);
        var i :| 0 <= i < |s[1..]| && s[1..][i] == y;
        assert s[i + 1] == y;
      }
    }
  }

  /**
   * `ORDER BY key ASC`: a permutation of `s` whose keys ascend. SQL leaves the
   * order of equal keys open; this insertion sort happens to keep it.
   */
  function OrderBy<T(==)>(s: seq<T>, key: T -> int): (r: seq<T>)
    ensures Ascending(r, key)
    ensures multiset(r) == multiset(s)
    ensures |r| == |s|
  {
    if s == [] then []
    else
      assert s == [s[0]] + s[1..];
      Insert(s[0], OrderBy(s[1..], key), key)
  }

  /** Position of the first element satisfying `p`, or `|s|` when there is none. */
  function IndexWhere<T>(s: seq<T>, p: T -> bool): (k: nat)
    ensures k <= |s|
    ensures k < |s| ==> p(s[k])
    ensures forall i | 0 <= i < k :: !p(s[i])
  {
    if s == [] || p(s[0]) then 0 else 1 + IndexWhere(s[1..], p)
  }

  /** The first element satisfying `p`, or nothing. */
  function Find<T>(s: seq<T>, p: T -> bool): (r: Option<T>)
    ensures r.None? <==> forall i | 0 <= i < |s| :: !p(s[i])
    ensures r.Some? ==> r.value in s && p(r.value)
  {
    var k := IndexWhere(s, p);
    if k < |s| then Some(s[k]) else None
  }

  /** Elements appended after a match never change what is found. */
  lemma FindIgnoresLaterElements<T>(s: seq<T>, t: seq<T>, p: T -> bool)
    requires Find(s, p).Some?
    ensures Find(s + t, p) == Find(s, p)
  {
    var k := IndexWhere(s, p);
    var k' := IndexWhere(s + t, p);
    assert (s + t)[k] == s[k];
  }

  /** Elements appended to a sequence without a match are the only place a match can come from. */
  lemma FindInAppended<T>(s: seq<T>, t: seq<T>, p: T -> bool)
    requires Find(s, p).None?
    ensures Find(s + t, p) == Find(t, p)
  {
    var k := IndexWhere(s + t, p);
    var j := IndexWhere(t, p);
    if j < |t| {
      assert (s + t)[|s| + j] == t[j];
      forall i | |s| <= i < |s| + j ensures !p((s + t)[i]) {
        assert (s + t)[i] == t[i - |s|];
      }
    }
    if k < |s| + |t| && k >= |s| {
      assert (s + t)[k] == t[k - |s|];
    }
  }
}
