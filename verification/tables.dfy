/** Counting over the fixed-size tables.

    The tracker repeatedly counts the slots of a table that satisfy some test
    (`get_num_blobs`, `get_num_updated_blobs`, `get_num_unassigned_blobs`).
    `CountIf` is that count, defined once; the lemmas say how it reacts to the
    table edits the tracker performs.
 */
module Tables {

  /** Number of elements of `s` satisfying `p`. */
  function CountIf<T>(s: seq<T>, p: T -> bool): (r: nat)
    ensures r <= |s|
  {
    if |s| == 0 then 0
    else CountIf(s[..|s| - 1], p) + (if p(s[|s| - 1]) then 1 else 0)
  }

  /** Counting distributes over concatenation. */
  lemma {:induction false} CountIfAppend<T>(a: seq<T>, b: seq<T>, p: T -> bool)
    ensures CountIf(a + b, p) == CountIf(a, p) + CountIf(b, p)
    decreases |b|
  {
    if |b| == 0 {
      assert a + b == a;
    } else {
      var b' := b[..|b| - 1];
      assert (a + b)[..|a + b| - 1] == a + b';
      CountIfAppend(a, b', p);
    }
  }

  /** Overwriting one slot changes the count by what leaves and what arrives. */
  lemma {:induction false} CountIfUpdate<T>(s: seq<T>, i: int, x: T, p: T -> bool)
    requires 0 <= i < |s|
    ensures CountIf(s[i := x], p)
            == CountIf(s, p) - (if p(s[i]) then 1 else 0) + (if p(x) then 1 else 0)
  {
    var t := s[i := x];
    assert s == s[..i] + [s[i]] + s[i + 1..];
    assert t == s[..i] + [x] + s[i + 1..];
    CountIfAppend(s[..i] + [s[i]], s[i + 1..], p);
    CountIfAppend(s[..i], [s[i]], p);
    CountIfAppend(s[..i] + [x], s[i + 1..], p);
    CountIfAppend(s[..i], [x], p);
    assert CountIf([s[i]], p) == (if p(s[i]) then 1 else 0) by {
      assert [s[i]][..0] == [];
    }
    assert CountIf([x], p) == (if p(x) then 1 else 0) by {
      assert [x][..0] == [];
    }
  }

  /** Two tables of equal size agree on their counts when the tests agree slot by slot. */
  lemma {:induction false} CountIfCongruent<T, U>(s: seq<T>, p: T -> bool, t: seq<U>, q: U -> bool)
    requires |s| == |t|
    requires forall i :: 0 <= i < |s| ==> p(s[i]) == q(t[i])
    ensures CountIf(s, p) == CountIf(t, q)
    decreases |s|
  {
    if |s| > 0 {
      CountIfCongruent(s[..|s| - 1], p, t[..|t| - 1], q);
    }
  }

  /** The counting loops of the tracker (`get_num_blobs`,
      `get_num_updated_blobs`, `get_num_unassigned_blobs`): one pass over the
      table, adding one for each slot that passes the test. */
  method Count<T>(s: seq<T>, p: T -> bool) returns (n: int)
    ensures n == CountIf(s, p)
  {
    n := 0;
    var i := 0;
    while i < |s|
      invariant 0 <= i <= |s|
      invariant n == CountIf(s[..i], p)
    {
      assert s[..i + 1][..i] == s[..i];
      if p(s[i]) {
        n := n + 1;
      }
      i := i + 1;
    }
    assert s[..i] == s;
  }

  /** The count is zero exactly when no element satisfies the test, and the
      full length exactly when every element does. */
  lemma {:induction false} CountIfExtremes<T>(s: seq<T>, p: T -> bool)
    ensures CountIf(s, p) == 0 <==> forall i :: 0 <= i < |s| ==> !p(s[i])
    ensures CountIf(s, p) == |s| <==> forall i :: 0 <= i < |s| ==> p(s[i])
  {
    if |s| > 0 {
      var init := s[..|s| - 1];
      CountIfExtremes(init, p);
      assert forall i :: 0 <= i < |init| ==> init[i] == s[i];
    }
  }

  /** One unfolding of `CountIf`, for callers whose context makes it costly. */
  lemma {:induction false} CountIfLast<T>(s: seq<T>, p: T -> bool)
    requires |s| > 0
    ensures CountIf(s, p) == CountIf(s[..|s| - 1], p) + (if p(s[|s| - 1]) then 1 else 0)
  {
  }

  /** Appending one element adds one exactly when it satisfies the test. */
  lemma {:induction false} CountIfSnoc<T>(s: seq<T>, x: T, p: T -> bool)
    ensures CountIf(s + [x], p) == CountIf(s, p) + (if p(x) then 1 else 0)
  {
    assert (s + [x])[..|s|] == s;
  }

  /** Counting from the front: the first element, then the rest. */
  lemma {:induction false} CountIfHead<T>(s: seq<T>, p: T -> bool)
    requires |s| > 0
    ensures CountIf(s, p) == (if p(s[0]) then 1 else 0) + CountIf(s[1..], p)
  {
    assert s == [s[0]] + s[1..];
    CountIfAppend([s[0]], s[1..], p);
    assert [s[0]][..0] == [];
  }

  /** A suffix with no match stays matchless when the last element is dropped,
      and the last element is no match. */
  lemma {:induction false} NoneInInit<T>(s: seq<T>, i: int, p: T -> bool)
    requires 0 <= i < |s| && CountIf(s[i..], p) == 0
    ensures !p(s[|s| - 1])
    ensures CountIf(s[..|s| - 1][i..], p) == 0 && s[..|s| - 1][..i] == s[..i]
  {
    assert s[i..][|s| - 1 - i] == s[|s| - 1];
    assert s[..|s| - 1][i..] == s[i..][..|s| - 1 - i];
    CountIfAppend(s[..|s| - 1][i..], [s[|s| - 1]], p);
    assert s[..|s| - 1][i..] + [s[|s| - 1]] == s[i..];
  }

  /** Two tests no element passes both of count at most the whole table. */
  lemma {:induction false} CountIfDisjoint<T>(s: seq<T>, p: T -> bool, q: T -> bool)
    requires forall i :: 0 <= i < |s| ==> !(p(s[i]) && q(s[i]))
    ensures CountIf(s, p) + CountIf(s, q) <= |s|
  {
    if |s| > 0 {
      CountIfDisjoint(s[..|s| - 1], p, q);
    }
  }

  /** No value occurs twice in `s`. */
  predicate AllDifferent(s: seq<int>) {
    forall a, b :: 0 <= a < b < |s| ==> s[a] != s[b]
  }

  /** The slot indexes below `n`. */
  function Below(n: nat): (r: set<int>)
    ensures |r| == n
    ensures forall k :: k in r <==> 0 <= k < n
  {
    if n == 0 then {} else Below(n - 1) + {n - 1}
  }

  lemma {:induction false} ElementsCount(s: seq<int>)
    requires AllDifferent(s)
    ensures |set x | x in s| == |s|
  {
    if |s| > 0 {
      var init := s[..|s| - 1];
      ElementsCount(init);
      assert (set x | x in s) == (set x | x in init) + {s[|s| - 1]};
    }
  }

  /** Different slot indexes below `n` are at most `n` in number: each track
      and each blob can be matched at most once. */
  lemma {:induction false} FewDifferentBelow(s: seq<int>, n: nat)
    requires AllDifferent(s)
    requires forall k :: 0 <= k < |s| ==> 0 <= s[k] < n
    ensures |s| <= n
  {
    var e := set x | x in s;
    ElementsCount(s);
    var b := Below(n);
    assert e <= b;
    assert b == e + (b - e);
    assert e * (b - e) == {};
  }
}
