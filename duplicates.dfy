/** Duplicate removal: drop every row equal to an earlier row, keeping the
    first occurrence (pandas' drop_duplicates with keep='first'; two
    missing cells compare equal there, as `Missing == Missing` does here). */
module Duplicates {
  import opened DataFrame
  import opened Sequences

  predicate Distinct<T(==)>(s: seq<T>) {
    forall i, j :: 0 <= i < j < |s| ==> s[i] != s[j]
  }

  /** Position `i` repeats an element seen before it. */
  predicate Duplicated<T(==)>(s: seq<T>, i: nat)
    requires i < |s|
  {
    s[i] in s[..i]
  }

  /** The elements of `s` at the positions that are not duplicated. */
  function DropDuplicates<T(==,!new)>(s: seq<T>): (r: seq<T>)
    ensures IsSubsequence(r, s)
    ensures forall x :: x in r <==> x in s
    ensures Distinct(r)
  {
    if s == [] then []
    else
      var init, last := s[..|s| - 1], s[|s| - 1];
      assert s == init + [last];
      var kept := DropDuplicates(init);
      if Duplicated(s, |s| - 1) then kept
      else
        assert (kept + [last])[..|kept|] == kept;
        kept + [last]
  }

  /** Leaving elements out of a sequence without repeats creates none. */
  lemma {:induction false} SubsequenceOfDistinct<T>(a: seq<T>, b: seq<T>)
    requires IsSubsequence(a, b) && Distinct(b)
    ensures Distinct(a)
    decreases |b|
  {
    if a != [] {
      var a', b' := a[..|a| - 1], b[..|b| - 1];
      if a[|a| - 1] == b[|b| - 1] && IsSubsequence(a', b') {
        SubsequenceOfDistinct(a', b');
        SubsequenceMembers(a', b');
        assert b[|b| - 1] !in b' by {
          forall k | 0 <= k < |b'| ensures b'[k] != b[|b| - 1] {
            assert b'[k] == b[k];
          }
        }
        assert a == a' + [a[|a| - 1]];
      } else {
        SubsequenceOfDistinct(a, b');
      }
    }
  }

  /** The position of the first occurrence of `x` in `s`. */
  function FirstIndex<T(==)>(s: seq<T>, x: T): (i: nat)
    requires x in s
    ensures i < |s| && s[i] == x && x !in s[..i]
  {
    if s[0] == x then 0
    else
      assert s == [s[0]] + s[1..];
      var i := FirstIndex(s[1..], x);
      assert s[..i + 1] == [s[0]] + s[1..][..i];
      i + 1
  }

  lemma {:induction false} FirstIndexInPrefix<T>(s: seq<T>, n: nat, x: T)
    requires n <= |s| && x in s[..n]
    ensures FirstIndex(s, x) == FirstIndex(s[..n], x)
  {
    if s[0] != x {
      assert s[1..][..n - 1] == s[..n][1..];
      FirstIndexInPrefix(s[1..], n - 1, x);
    }
  }

  /** The kept rows appear in the order of their first occurrences. */
  lemma {:induction false} KeepsFirstOccurrences<T(!new)>(s: seq<T>)
    ensures forall i, j :: 0 <= i < j < |DropDuplicates(s)| ==>
              FirstIndex(s, DropDuplicates(s)[i]) < FirstIndex(s, DropDuplicates(s)[j])
  {
    if s != [] {
      var init, last := s[..|s| - 1], s[|s| - 1];
      assert s == init + [last];
      var kept := DropDuplicates(init);
      KeepsFirstOccurrences(init);
      forall y | y in kept
        ensures FirstIndex(s, y) == FirstIndex(init, y) < |init|
      {
        assert init == s[..|s| - 1];
        FirstIndexInPrefix(s, |s| - 1, y);
      }
      if !Duplicated(s, |s| - 1) {
        assert FirstIndex(s, last) == |s| - 1;
      }
    }
  }

  /** A sequence without repeats is left as it is. */
  lemma {:induction false} DistinctUnchanged<T(!new)>(s: seq<T>)
    requires Distinct(s)
    ensures DropDuplicates(s) == s
  {
    if s != [] {
      var init := s[..|s| - 1];
      assert s == init + [s[|s| - 1]];
      DistinctUnchanged(init);
    }
  }

  /** Removing duplicates twice is removing them once. */
  lemma DropDuplicatesIdempotent<T(!new)>(s: seq<T>)
    ensures DropDuplicates(DropDuplicates(s)) == DropDuplicates(s)
  {
    DistinctUnchanged(DropDuplicates(s));
  }

  /** remove_duplicate: with the flag off the table is returned as it is;
      otherwise the duplicate rows are dropped and their number reported. */
  function RemoveDuplicate(t: Table, applyRemoval: bool): (r: Cleaned)
    requires WellFormed(t)
    ensures r.table.columns == t.columns
    ensures !applyRemoval ==> r.table == t && r.removed == 0
    ensures applyRemoval ==>
              Distinct(r.table.rows) && IsSubsequence(r.table.rows, t.rows) &&
              (forall row :: row in r.table.rows <==> row in t.rows)
    ensures r.removed == |t.rows| - |r.table.rows|
    ensures WellFormed(r.table)
  {
    if !applyRemoval then Cleaned(t, 0)
    else
      var rows := DropDuplicates(t.rows);
      SubsequenceMembers(rows, t.rows);
      RowsOfWellFormed(t, rows);
      Cleaned(Table(t.columns, rows), |t.rows| - |rows|)
  }

  /** A second pass finds nothing more to remove. */
  lemma RemoveDuplicateIdempotent(t: Table)
    requires WellFormed(t)
    ensures RemoveDuplicate(RemoveDuplicate(t, true).table, true) ==
            Cleaned(RemoveDuplicate(t, true).table, 0)
  {
    DropDuplicatesIdempotent(t.rows);
  }

  /** Two identical rows leave exactly one, and one removal is reported. */
  lemma TwoEqualRowsLeaveOne(t: Table)
    requires WellFormed(t) && |t.rows| == 2 && t.rows[0] == t.rows[1]
    ensures RemoveDuplicate(t, true) == Cleaned(Table(t.columns, [t.rows[0]]), 1)
  {
    var s := t.rows;
    assert s[..1][..0] == [];
    assert DropDuplicates(s[..1]) == [s[0]];
    assert Duplicated(s, 1);
    assert DropDuplicates(s) == [s[0]];
  }
}
