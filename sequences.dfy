/** Order-preserving selection from sequences, the shape shared by every
    row and column filter of the cleaning stages. */
module Sequences {

  /** `a` is `b` with some elements left out, the rest in their order. */
  predicate IsSubsequence<T(==)>(a: seq<T>, b: seq<T>)
    decreases |b|
  {
    a == [] ||
    (b != [] &&
      ((a[|a| - 1] == b[|b| - 1] && IsSubsequence(a[..|a| - 1], b[..|b| - 1])) ||
       IsSubsequence(a, b[..|b| - 1])))
  }

  lemma {:induction false} SubsequenceMembers<T>(a: seq<T>, b: seq<T>)
    requires IsSubsequence(a, b)
    ensures |a| <= |b|
    ensures forall x :: x in a ==> x in b
    decreases |b|
  {
    if a != [] {
      var b' := b[..|b| - 1];
      assert b == b' + [b[|b| - 1]];
      if a[|a| - 1] == b[|b| - 1] && IsSubsequence(a[..|a| - 1], b') {
        SubsequenceMembers(a[..|a| - 1], b');
        assert a == a[..|a| - 1] + [a[|a| - 1]];
      } else {
        SubsequenceMembers(a, b');
      }
    }
  }

  lemma NoMembersEmpty<T>(s: seq<T>)
    requires forall x :: x !in s
    ensures s == []
  {
    forall x ensures multiset(s)[x] == 0 {
      assert x !in s;
    }
    assert multiset(s) == multiset{};
  }

  lemma {:induction false} SubsequenceReflexive<T>(a: seq<T>)
    ensures IsSubsequence(a, a)
  {
    if a != [] {
      SubsequenceReflexive(a[..|a| - 1]);
    }
  }

  lemma {:induction false} SubsequenceTransitive<T>(a: seq<T>, b: seq<T>, c: seq<T>)
    requires IsSubsequence(a, b) && IsSubsequence(b, c)
    ensures IsSubsequence(a, c)
    decreases |c|
  {
    if a == [] {
    } else if b == [] {
    } else {
      var c' := c[..|c| - 1];
      if IsSubsequence(b, c') {
        SubsequenceTransitive(a, b, c');
      } else {
        var b' := b[..|b| - 1];
        assert b[|b| - 1] == c[|c| - 1] && IsSubsequence(b', c');
        if IsSubsequence(a, b') {
          SubsequenceTransitive(a, b', c');
        } else {
          SubsequenceTransitive(a[..|a| - 1], b', c');
        }
      }
    }
  }

  /** The elements of `s` that satisfy `p`, in their order. */
  function Keep<T(==,!new)>(s: seq<T>, p: T -> bool): (r: seq<T>)
    ensures IsSubsequence(r, s)
    ensures forall x :: x in r <==> x in s && p(x)
  {
    if s == [] then []
    else
      var init, last := s[..|s| - 1], s[|s| - 1];
      assert s == init + [last];
      var kept := Keep(init, p);
      if p(last) then
        assert (kept + [last])[..|kept|] == kept;
        kept + [last]
      else
        kept
  }

  /** Each passing element is kept as often as it occurs; the others never. */
  lemma {:induction false} KeepCounts<T(!new)>(s: seq<T>, p: T -> bool)
    ensures forall x :: multiset(Keep(s, p))[x] == if p(x) then multiset(s)[x] else 0
  {
    if s != [] {
      var init, last := s[..|s| - 1], s[|s| - 1];
      KeepCounts(init, p);
      assert s == init + [last];
    }
  }

  /** Keeping elements that all pass keeps the whole sequence. */
  lemma {:induction false} KeepAll<T(!new)>(s: seq<T>, p: T -> bool)
    requires forall i :: 0 <= i < |s| ==> p(s[i])
    ensures Keep(s, p) == s
  {
    if s != [] {
      var init, last := s[..|s| - 1], s[|s| - 1];
      assert forall i :: 0 <= i < |init| ==> init[i] == s[i];
      KeepAll(init, p);
      assert s == init + [last];
      KeepPassing(init, last, p);
    }
  }

  /** Keeping all but a failing last element drops exactly that element. */
  lemma KeepDropsLast<T(!new)>(s: seq<T>, p: T -> bool)
    requires |s| > 0 && !p(s[|s| - 1])
    requires forall i :: 0 <= i < |s| - 1 ==> p(s[i])
    ensures Keep(s, p) == s[..|s| - 1]
  {
    KeepAll(s[..|s| - 1], p);
  }

  lemma KeepPassing<T(!new)>(s: seq<T>, x: T, p: T -> bool)
    requires p(x)
    ensures Keep(s + [x], p) == Keep(s, p) + [x]
  {
    assert (s + [x])[..|s|] == s;
  }

  /** The indices below `n` that satisfy `p`, in increasing order. */
  function IndicesWhere(n: nat, p: nat -> bool): (r: seq<nat>)
    ensures |r| <= n
    ensures forall k :: 0 <= k < |r| ==> r[k] < n
    ensures forall k, l :: 0 <= k < l < |r| ==> r[k] < r[l]
    ensures forall j: nat :: j in r <==> j < n && p(j)
  {
    if n == 0 then []
    else IndicesWhere(n - 1, p) + (if p(n - 1) then [n - 1] else [])
  }

  /** `s` after the steps for `keys[0]`, ..., `keys[k-1]`, each step
      applied to the result of the one before it. */
  function Cumulative<T, K>(step: (seq<T>, K) -> seq<T>, s: seq<T>, keys: seq<K>, k: nat): seq<T>
    requires k <= |keys|
  {
    if k == 0 then s else step(Cumulative(step, s, keys, k - 1), keys[k - 1])
  }

  /** Steps that only drop elements compose into one that only drops elements. */
  lemma {:induction false} CumulativeSubsequence<T, K>(step: (seq<T>, K) -> seq<T>, s: seq<T>, keys: seq<K>, k: nat)
    requires k <= |keys|
    requires forall r, key :: IsSubsequence(step(r, key), r)
    ensures IsSubsequence(Cumulative(step, s, keys, k), s)
  {
    if k == 0 {
      SubsequenceReflexive(s);
    } else {
      var before := Cumulative(step, s, keys, k - 1);
      CumulativeSubsequence(step, s, keys, k - 1);
      SubsequenceTransitive(step(before, keys[k - 1]), before, s);
    }
  }

  /** When a step keeps only elements that pass a test on the step's own
      input, an element left at the end passed the test of every step,
      each made on the elements left by the steps before it. */
  lemma {:induction false} CumulativeSurvivors<T(!new), K>(
    step: (seq<T>, K) -> seq<T>, pass: (seq<T>, K, T) -> bool, s: seq<T>, keys: seq<K>, k: nat)
    requires k <= |keys|
    requires forall r, key, x :: x in step(r, key) ==> x in r && pass(r, key, x)
    ensures forall x, m :: x in Cumulative(step, s, keys, k) && 0 <= m < k ==>
              pass(Cumulative(step, s, keys, m), keys[m], x)
  {
    if k > 0 {
      CumulativeSurvivors(step, pass, s, keys, k - 1);
    }
  }

  /** Conversely, when a step keeps every element that passes its test, an
      element of `s` that passes the test of every step is left at the end. */
  lemma {:induction false} CumulativeKeepsPassing<T(!new), K>(
    step: (seq<T>, K) -> seq<T>, pass: (seq<T>, K, T) -> bool, s: seq<T>, keys: seq<K>, k: nat)
    requires k <= |keys|
    requires forall r, key, x :: x in r && pass(r, key, x) ==> x in step(r, key)
    ensures forall x :: x in s && (forall m :: 0 <= m < k ==> pass(Cumulative(step, s, keys, m), keys[m], x)) ==>
              x in Cumulative(step, s, keys, k)
  {
    if k > 0 {
      CumulativeKeepsPassing(step, pass, s, keys, k - 1);
    }
  }

  /** `x` passed the test of each of the first `k` steps of the fold. */
  predicate PassesEvery<T, K>(
    step: (seq<T>, K) -> seq<T>, pass: (seq<T>, K, T) -> bool, s: seq<T>, keys: seq<K>, k: nat, x: T)
    requires k <= |keys|
  {
    forall m :: 0 <= m < k ==> pass(Cumulative(step, s, keys, m), keys[m], x)
  }

  lemma PassesEveryStep<T, K>(
    step: (seq<T>, K) -> seq<T>, pass: (seq<T>, K, T) -> bool, s: seq<T>, keys: seq<K>, k: nat, x: T)
    requires 0 < k <= |keys|
    ensures PassesEvery(step, pass, s, keys, k, x) <==>
              PassesEvery(step, pass, s, keys, k - 1, x) &&
              pass(Cumulative(step, s, keys, k - 1), keys[k - 1], x)
  {
  }

  /** When a step keeps every copy of an element that passes its test and
      none of the others, the fold keeps every copy of an element that
      passes the test of every step and none of the others. */
  lemma {:induction false} CumulativeCounts<T(!new), K>(
    step: (seq<T>, K) -> seq<T>, pass: (seq<T>, K, T) -> bool, s: seq<T>, keys: seq<K>, k: nat, x: T)
    requires k <= |keys|
    requires forall r, key :: multiset(step(r, key))[x] == if pass(r, key, x) then multiset(r)[x] else 0
    ensures multiset(Cumulative(step, s, keys, k))[x] ==
              if PassesEvery(step, pass, s, keys, k, x) then multiset(s)[x] else 0
  {
    if k > 0 {
      CumulativeCounts(step, pass, s, keys, k - 1, x);
      var prev := Cumulative(step, s, keys, k - 1);
      assert multiset(step(prev, keys[k - 1]))[x] ==
               if pass(prev, keys[k - 1], x) then multiset(prev)[x] else 0;
      PassesEveryStep(step, pass, s, keys, k, x);
    }
  }
}
