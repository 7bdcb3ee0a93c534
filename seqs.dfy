/**
 * Sequence facts shared by the pipeline: order-preserving subsequences, and the
 * stable sort Python's `sorted(...)` and `list.sort(...)` perform.
 */
module Seqs {

  // ---------------------------------------------------------------------------
  // Subsequences

  /** a is what remains of b after deleting some of its elements (order kept). */
  predicate IsSubsequence<T(==)>(a: seq<T>, b: seq<T>)
    decreases |b|
  {
    if b == [] then a == []
    else
      (a != [] && a[|a| - 1] == b[|b| - 1] && IsSubsequence(a[..|a| - 1], b[..|b| - 1]))
      || IsSubsequence(a, b[..|b| - 1])
  }

  lemma {:induction false} SubsequenceRefl<T>(a: seq<T>)
    ensures IsSubsequence(a, a)
  {
    if a != [] {
      SubsequenceRefl(a[..|a| - 1]);
    }
  }

  lemma {:induction false} EmptySubsequence<T>(b: seq<T>)
    ensures IsSubsequence([], b)
  {
    if b != [] {
      EmptySubsequence(b[..|b| - 1]);
    }
  }

  lemma {:induction false} SubsequenceLength<T>(a: seq<T>, b: seq<T>)
    requires IsSubsequence(a, b)
    ensures |a| <= |b|
    decreases |b|
  {
    if b != [] {
      if a != [] && a[|a| - 1] == b[|b| - 1] && IsSubsequence(a[..|a| - 1], b[..|b| - 1]) {
        SubsequenceLength(a[..|a| - 1], b[..|b| - 1]);
      } else {
        SubsequenceLength(a, b[..|b| - 1]);
      }
    }
  }

  /** Deleting twice is deleting once. */
  lemma {:induction false} SubsequenceTrans<T>(a: seq<T>, b: seq<T>, c: seq<T>)
    requires IsSubsequence(a, b) && IsSubsequence(b, c)
    ensures IsSubsequence(a, c)
    decreases |c|
  {
    if c == [] {
    } else if IsSubsequence(b, c[..|c| - 1]) {
      SubsequenceTrans(a, b, c[..|c| - 1]);
    } else if a != [] && a[|a| - 1] == b[|b| - 1] && IsSubsequence(a[..|a| - 1], b[..|b| - 1]) {
      SubsequenceTrans(a[..|a| - 1], b[..|b| - 1], c[..|c| - 1]);
    } else {
      SubsequenceTrans(a, b[..|b| - 1], c[..|c| - 1]);
    }
  }

  /** Deletions in two halves combine into deletions in the whole. */
  lemma {:induction false} SubsequenceConcat<T>(a1: seq<T>, b1: seq<T>, a2: seq<T>, b2: seq<T>)
    requires IsSubsequence(a1, b1) && IsSubsequence(a2, b2)
    ensures IsSubsequence(a1 + a2, b1 + b2)
    decreases |b2|
  {
    if b2 == [] {
      assert a1 + a2 == a1 && b1 + b2 == b1;
    } else {
      var c := b1 + b2;
      assert c[..|c| - 1] == b1 + b2[..|b2| - 1];
      if a2 != [] && a2[|a2| - 1] == b2[|b2| - 1] && IsSubsequence(a2[..|a2| - 1], b2[..|b2| - 1]) {
        SubsequenceConcat(a1, b1, a2[..|a2| - 1], b2[..|b2| - 1]);
        assert (a1 + a2)[..|a1 + a2| - 1] == a1 + a2[..|a2| - 1];
      } else {
        SubsequenceConcat(a1, b1, a2, b2[..|b2| - 1]);
      }
    }
  }

  // ---------------------------------------------------------------------------
  // Python's s[:n]

  /** Python's `s[:n]`: the first n elements, or all but the last -n when n is negative. */
  function PyTake<T>(s: seq<T>, n: int): (r: seq<T>)
    ensures |r| == if n >= 0 then (if n <= |s| then n else |s|) else (if |s| + n >= 0 then |s| + n else 0)
    ensures r == s[..|r|]
  {
    var m := if n >= 0 then n else |s| + n;
    if m <= 0 then [] else if m <= |s| then s[..m] else s
  }

  // ---------------------------------------------------------------------------
  // Stable sort

  /** The groups of gs one after the other, in order. */
  function Concat<T>(gs: seq<seq<T>>): seq<T> {
    if gs == [] then [] else Concat(gs[..|gs| - 1]) + gs[|gs| - 1]
  }

  /** s is in non-decreasing order of key. */
  predicate SortedBy<T>(s: seq<T>, key: T -> real) {
    forall i, j :: 0 <= i < j < |s| ==> key(s[i]) <= key(s[j])
  }

  /** The elements of s whose key is v, in their order in s. */
  function WithKey<T>(s: seq<T>, key: T -> real, v: real): (r: seq<T>)
    ensures s != [] && key(s[0]) == v ==> r != [] && r[0] == s[0]
  {
    if s == [] then [] else (if key(s[0]) == v then [s[0]] else []) + WithKey(s[1..], key, v)
  }

  /** A non-empty key class has a member in s. */
  lemma {:induction false} WithKeyMember<T>(s: seq<T>, key: T -> real, v: real)
    requires WithKey(s, key, v) != []
    ensures exists i :: 0 <= i < |s| && key(s[i]) == v
  {
    if key(s[0]) != v {
      WithKeyMember(s[1..], key, v);
      var i :| 0 <= i < |s[1..]| && key(s[1..][i]) == v;
      assert s[i + 1] == s[1..][i];
    }
  }

  /**
   * x put into t in front of the first element whose key is not below x's:
   * after all elements with a smaller key, before those with an equal or larger one.
   */
  function InsertBy<T(==)>(x: T, t: seq<T>, key: T -> real): (r: seq<T>)
    ensures |r| == |t| + 1
    ensures multiset(r) == multiset(t) + multiset{x}
  {
    if t == [] || key(x) <= key(t[0]) then [x] + t
    else
      assert t == [t[0]] + t[1..];
      [t[0]] + InsertBy(x, t[1..], key)
  }

  /** A lower bound on the keys of t and of x bounds the keys after insertion. */
  lemma {:induction false} InsertByBound<T>(x: T, t: seq<T>, key: T -> real, lo: real)
    requires lo <= key(x)
    requires forall i :: 0 <= i < |t| ==> lo <= key(t[i])
    ensures forall j :: 0 <= j < |InsertBy(x, t, key)| ==> lo <= key(InsertBy(x, t, key)[j])
  {
    if t != [] && key(x) > key(t[0]) {
      InsertByBound(x, t[1..], key, lo);
      var rest := InsertBy(x, t[1..], key);
      forall j | 0 <= j < |[t[0]] + rest|
        ensures lo <= key(([t[0]] + rest)[j])
      {
        if j > 0 {
          assert ([t[0]] + rest)[j] == rest[j - 1];
        }
      }
    } else {
      forall j | 0 <= j < |[x] + t|
        ensures lo <= key(([x] + t)[j])
      {
        if j > 0 {
          assert ([x] + t)[j] == t[j - 1];
        }
      }
    }
  }

  /** Inserting into a sorted sequence keeps it sorted. */
  lemma {:induction false} InsertBySorted<T>(x: T, t: seq<T>, key: T -> real)
    requires SortedBy(t, key)
    ensures SortedBy(InsertBy(x, t, key), key)
  {
    if t != [] && key(x) > key(t[0]) {
      var rest := InsertBy(x, t[1..], key);
      assert SortedBy(rest, key) by {
        InsertBySorted(x, t[1..], key);
      }
      assert forall j :: 0 <= j < |rest| ==> key(t[0]) <= key(rest[j]) by {
        InsertByBound(x, t[1..], key, key(t[0]));
      }
      var r := [t[0]] + rest;
      forall i, j | 0 <= i < j < |r|
        ensures key(r[i]) <= key(r[j])
      {
        assert r[j] == rest[j - 1];
        if i > 0 {
          assert r[i] == rest[i - 1];
        }
      }
    }
  }

  /**
   * A stable sort by ascending key (insertion sort): the output is a
   * permutation of s in non-decreasing key order.
   */
  function SortBy<T(==)>(s: seq<T>, key: T -> real): (r: seq<T>)
    ensures |r| == |s|
    ensures multiset(r) == multiset(s)
    ensures SortedBy(r, key)
  {
    if s == [] then []
    else
      var rest := SortBy(s[1..], key);
      InsertBySorted(s[0], rest, key);
      MultisetHead(s);
      InsertBy(s[0], rest, key)
  }

  /** The elements of a non-empty s are its first and those of the rest. */
  lemma MultisetHead<T>(s: seq<T>)
    requires s != []
    ensures multiset(s) == multiset(s[1..]) + multiset{s[0]}
  {
    assert s == [s[0]] + s[1..];
  }

  /** Inserting x adds x to its own key class, at the front, and changes no other class. */
  lemma {:induction false} InsertByWithKey<T>(x: T, t: seq<T>, key: T -> real, v: real)
    ensures WithKey(InsertBy(x, t, key), key, v) == (if key(x) == v then [x] else []) + WithKey(t, key, v)
  {
    var hx := if key(x) == v then [x] else [];
    if t == [] || key(x) <= key(t[0]) {
      assert ([x] + t)[1..] == t;
      assert WithKey([x] + t, key, v) == hx + WithKey(t, key, v);
    } else {
      var rest := InsertBy(x, t[1..], key);
      var h0 := if key(t[0]) == v then [t[0]] else [];
      assert WithKey(rest, key, v) == hx + WithKey(t[1..], key, v) by {
        InsertByWithKey(x, t[1..], key, v);
      }
      assert WithKey([t[0]] + rest, key, v) == h0 + WithKey(rest, key, v) by {
        assert ([t[0]] + rest)[1..] == rest;
      }
      assert WithKey(t, key, v) == h0 + WithKey(t[1..], key, v);
      if key(t[0]) == v {
        assert hx == [];
      } else {
        assert h0 == [];
      }
    }
  }

  /** Stability: among elements with the same key, the sorted order is the original order. */
  lemma {:induction false} SortByStable<T>(s: seq<T>, key: T -> real, v: real)
    ensures WithKey(SortBy(s, key), key, v) == WithKey(s, key, v)
  {
    if s != [] {
      SortByStable(s[1..], key, v);
      InsertByWithKey(s[0], SortBy(s[1..], key), key, v);
    }
  }

  /** If every key class of b is a key class of a, a's smallest key is at most b's. */
  lemma MinKeyBound<T>(a: seq<T>, b: seq<T>, key: T -> real)
    requires SortedBy(a, key) && b != []
    requires forall v :: WithKey(a, key, v) == WithKey(b, key, v)
    ensures a != [] && key(a[0]) <= key(b[0])
  {
    var kb := key(b[0]);
    assert WithKey(b, key, kb) != [];
    assert WithKey(a, key, kb) != [];
    WithKeyMember(a, key, kb);
    var i :| 0 <= i < |a| && key(a[i]) == kb;
    assert key(a[0]) <= key(a[i]);
  }

  /**
   * Sortedness and stability pin the order down: two sequences that are both
   * sorted by key and agree on every key class are equal.
   */
  lemma {:induction false} SortedStableUnique<T>(a: seq<T>, b: seq<T>, key: T -> real)
    requires SortedBy(a, key) && SortedBy(b, key)
    requires forall v :: WithKey(a, key, v) == WithKey(b, key, v)
    ensures a == b
    decreases |a|
  {
    if a != [] || b != [] {
      HeadsEqual(a, b, key);
      forall v
        ensures WithKey(a[1..], key, v) == WithKey(b[1..], key, v)
      {
        WithKeyTails(a, b, key, v);
      }
      SortedStableUnique(a[1..], b[1..], key);
      assert a == [a[0]] + a[1..] && b == [b[0]] + b[1..];
    }
  }

  /** Two sorted sequences with the same key classes, not both empty, start with the same element. */
  lemma HeadsEqual<T>(a: seq<T>, b: seq<T>, key: T -> real)
    requires SortedBy(a, key) && SortedBy(b, key)
    requires forall v :: WithKey(a, key, v) == WithKey(b, key, v)
    requires a != [] || b != []
    ensures a != [] && b != [] && a[0] == b[0]
  {
    if a != [] {
      MinKeyBound(b, a, key);
    }
    if b != [] {
      MinKeyBound(a, b, key);
    }
    var k := key(a[0]);
    assert WithKey(a, key, k)[0] == a[0] && WithKey(b, key, k)[0] == b[0];
  }

  /** Removing the same first element from two sequences keeps their key classes equal. */
  lemma {:induction false} WithKeyTails<T>(a: seq<T>, b: seq<T>, key: T -> real, v: real)
    requires a != [] && b != [] && a[0] == b[0]
    requires WithKey(a, key, v) == WithKey(b, key, v)
    ensures WithKey(a[1..], key, v) == WithKey(b[1..], key, v)
  {
    var head := if key(a[0]) == v then [a[0]] else [];
    var wa, wb := WithKey(a[1..], key, v), WithKey(b[1..], key, v);
    assert WithKey(a, key, v) == head + wa;
    assert WithKey(b, key, v) == head + wb;
    assert (head + wa)[|head|..] == wa && (head + wb)[|head|..] == wb;
  }

  /** SortBy is the one sorted arrangement of s that keeps equal keys in their original order. */
  lemma SortByCharacterized<T>(s: seq<T>, r: seq<T>, key: T -> real)
    requires SortedBy(r, key)
    requires forall v :: WithKey(r, key, v) == WithKey(s, key, v)
    ensures r == SortBy(s, key)
  {
    forall v ensures WithKey(r, key, v) == WithKey(SortBy(s, key), key, v) {
      SortByStable(s, key, v);
    }
    SortedStableUnique(r, SortBy(s, key), key);
  }

  // ---------------------------------------------------------------------------
  // Prefixes

  /** The prefix one longer is the prefix followed by the next element. */
  lemma TakeSnoc<T>(s: seq<T>, i: nat)
    requires i < |s|
    ensures s[..i + 1] == s[..i] + [s[i]]
  {
  }

  /** The prefix one longer, cut back, is the prefix; its last element is s[i]. */
  lemma TakeTake<T>(s: seq<T>, i: nat)
    requires i < |s|
    ensures s[..i + 1][..i] == s[..i] && s[..i + 1][i] == s[i]
  {
  }

  /** Appending one element after a concatenation appends it to the second part. */
  lemma AppendSnoc<T>(a: seq<T>, b: seq<T>, x: T)
    ensures (a + b) + [x] == a + (b + [x])
  {
  }

  /** Cutting a + b inside a cuts a. */
  lemma CutConcat<T>(a: seq<T>, b: seq<T>, n: nat)
    requires n <= |a|
    ensures (a + b)[..n] == a[..n] && (a + b)[n..] == a[n..] + b
  {
  }

  /** The suffix from k is the slice up to e followed by the suffix from e. */
  lemma DropSplit<T>(s: seq<T>, k: nat, e: nat)
    requires k <= e <= |s|
    ensures s[k..] == s[k..e] + s[e..]
  {
  }

  /** Concatenation is associative. */
  lemma AppendAssoc<T>(a: seq<T>, b: seq<T>, c: seq<T>)
    ensures a + (b + c) == (a + b) + c
  {
  }

  /** s is its three pieces cut at p and q. */
  lemma CutThree<T>(s: seq<T>, p: nat, q: nat)
    requires p <= q <= |s|
    ensures s == s[..p] + (s[p..q] + s[q..])
  {
  }

  /** A non-empty sequence is its front followed by its last element. */
  lemma SnocLast<T>(s: seq<T>)
    requires s != []
    ensures s[..|s| - 1] + [s[|s| - 1]] == s
  {
  }

  /** The prefix as long as s is s. */
  lemma TakeAll<T>(s: seq<T>)
    ensures s[..|s|] == s
  {
  }

  // ---------------------------------------------------------------------------
  // Distinct elements

  /** No element of s occurs twice. */
  predicate Distinct<T(==)>(s: seq<T>) {
    forall i, j :: 0 <= i < j < |s| ==> s[i] != s[j]
  }

  lemma {:induction false} DistinctCount<T>(s: seq<T>, x: T)
    requires Distinct(s)
    ensures multiset(s)[x] <= 1
  {
    if s != [] {
      assert s == [s[0]] + s[1..];
      assert Distinct(s[1..]) by {
        forall i, j | 0 <= i < j < |s[1..]| ensures s[1..][i] != s[1..][j] {
          assert s[1..][i] == s[i + 1] && s[1..][j] == s[j + 1];
        }
      }
      DistinctCount(s[1..], x);
      if s[0] == x {
        assert x !in s[1..] by {
          forall k | 0 <= k < |s[1..]| ensures s[1..][k] != x {
            assert s[1..][k] == s[k + 1];
          }
        }
      }
    }
  }

  lemma CountTwo<T>(s: seq<T>, i: nat, j: nat)
    requires i < j < |s| && s[i] == s[j]
    ensures multiset(s)[s[i]] >= 2
  {
    assert s == s[..i] + [s[i]] + s[i + 1..j] + [s[j]] + s[j + 1..];
  }

  /** A permutation of a sequence without repeats has no repeats. */
  lemma DistinctPermutation<T>(a: seq<T>, b: seq<T>)
    requires multiset(a) == multiset(b) && Distinct(a)
    ensures Distinct(b)
  {
    forall i, j | 0 <= i < j < |b|
      ensures b[i] != b[j]
    {
      if b[i] == b[j] {
        CountTwo(b, i, j);
        DistinctCount(a, b[i]);
        assert false;
      }
    }
  }
}
