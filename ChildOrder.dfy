/** The order in which a node's reports are shown (src/App.js, the sort at
    render time): exact matches first, each group in its original order, as
    a stable sort under the comparator `b.isExactMatch - a.isExactMatch` gives. */
module ChildOrder {
  import opened OrgChart

  /** The entries of `s` whose exact-match flag is `exact`, in order. */
  function Keep(s: seq<Filtered>, exact: bool): (r: seq<Filtered>)
    ensures |r| <= |s|
  {
    if s == [] then []
    else Keep(s[..|s| - 1], exact) + (if s[|s| - 1].isExactMatch == exact then [s[|s| - 1]] else [])
  }

  /** Every kept entry carries the flag asked for. */
  lemma {:induction false} KeepFlags(s: seq<Filtered>, exact: bool)
    ensures forall i :: 0 <= i < |Keep(s, exact)| ==> Keep(s, exact)[i].isExactMatch == exact
  {
    if s != [] {
      KeepFlags(s[..|s| - 1], exact);
    }
  }

  /** The shown order: the exact matches, then the others. */
  function ExactFirst(s: seq<Filtered>): (r: seq<Filtered>)
    ensures |r| == |s|
  {
    KeepLengths(s);
    Keep(s, true) + Keep(s, false)
  }

  /** No entry that is not an exact match comes before one that is. */
  ghost predicate Partitioned(s: seq<Filtered>)
  {
    forall i, j :: 0 <= i < j < |s| ==> s[i].isExactMatch || !s[j].isExactMatch
  }

  lemma {:induction false} KeepAppend(s: seq<Filtered>, t: seq<Filtered>, exact: bool)
    ensures Keep(s + t, exact) == Keep(s, exact) + Keep(t, exact)
    decreases |t|
  {
    if t == [] {
      assert s + t == s;
    } else {
      assert (s + t)[..|s + t| - 1] == s + t[..|t| - 1];
      KeepAppend(s, t[..|t| - 1], exact);
    }
  }

  /** A sequence whose entries all carry the flag `exact` is kept whole by
      that flag and emptied by the other. */
  lemma {:induction false} KeepUniform(s: seq<Filtered>, exact: bool)
    requires forall i :: 0 <= i < |s| ==> s[i].isExactMatch == exact
    ensures Keep(s, exact) == s && Keep(s, !exact) == []
  {
    if s != [] {
      KeepUniform(s[..|s| - 1], exact);
      assert s[..|s| - 1] + [s[|s| - 1]] == s;
    }
  }

  /** The shown order is a permutation of the reports. */
  lemma {:induction false} ExactFirstPermutation(s: seq<Filtered>)
    ensures multiset(ExactFirst(s)) == multiset(s)
  {
    if s != [] {
      var init, last := s[..|s| - 1], s[|s| - 1];
      ExactFirstPermutation(init);
      assert init + [last] == s;
    }
  }

  /** The two groups together are as long as the reports. */
  lemma {:induction false} KeepLengths(s: seq<Filtered>)
    ensures |Keep(s, true)| + |Keep(s, false)| == |s|
  {
    if s != [] {
      KeepLengths(s[..|s| - 1]);
    }
  }

  /** In the shown order every exact match precedes every other report. */
  lemma ExactFirstPartitioned(s: seq<Filtered>)
    ensures Partitioned(ExactFirst(s))
  {
    KeepFlags(s, true);
    KeepFlags(s, false);
  }

  /** The sort is stable: each group keeps the order it had. */
  lemma ExactFirstStable(s: seq<Filtered>)
    ensures Keep(ExactFirst(s), true) == Keep(s, true)
    ensures Keep(ExactFirst(s), false) == Keep(s, false)
  {
    KeepAppend(Keep(s, true), Keep(s, false), true);
    KeepAppend(Keep(s, true), Keep(s, false), false);
    KeepFlags(s, true);
    KeepFlags(s, false);
    KeepUniform(Keep(s, true), true);
    KeepUniform(Keep(s, false), false);
  }

  /** A partitioned sequence is its exact matches followed by the rest. */
  lemma {:induction false} PartitionedSplits(t: seq<Filtered>)
    requires Partitioned(t)
    ensures t == Keep(t, true) + Keep(t, false)
  {
    if t != [] {
      var init, last := t[..|t| - 1], t[|t| - 1];
      assert Partitioned(init);
      PartitionedSplits(init);
      if last.isExactMatch {
        assert forall i :: 0 <= i < |init| ==> init[i].isExactMatch;
        KeepUniform(init, true);
      }
      assert init + [last] == t;
    }
  }

  /** `ExactFirst` is the only arrangement that is partitioned and keeps the
      order within each group: it is what any stable sort by this key yields. */
  lemma ExactFirstUnique(s: seq<Filtered>, t: seq<Filtered>)
    requires Partitioned(t)
    requires Keep(t, true) == Keep(s, true) && Keep(t, false) == Keep(s, false)
    ensures t == ExactFirst(s)
  {
    PartitionedSplits(t);
  }

  /** Keeping the entries of a prefix one longer adds at most its last entry. */
  lemma KeepStep(s: seq<Filtered>, j: nat, exact: bool)
    requires j < |s|
    ensures Keep(s[..j + 1], exact) == Keep(s[..j], exact) + (if s[j].isExactMatch == exact then [s[j]] else [])
    ensures |Keep(s[..j + 1], exact)| <= |Keep(s, exact)|
  {
    assert s[..j + 1][..j] == s[..j];
    KeepAppend(s[..j + 1], s[j + 1..], exact);
    assert s[..j + 1] + s[j + 1..] == s;
  }

  /** Writes the entries of `s` flagged `exact`, in order, into `a` from
      index `start` on, leaving the entries before `start` alone. */
  method PlaceGroup(a: array<Filtered>, s: seq<Filtered>, start: nat, exact: bool) returns (end: nat)
    requires start + |Keep(s, exact)| <= a.Length
    modifies a
    ensures end == start + |Keep(s, exact)|
    ensures a[..start] == old(a[..start])
    ensures a[start..end] == Keep(s, exact)
  {
    end := start;
    var j := 0;
    while j < |s|
      invariant 0 <= j <= |s|
      invariant end == start + |Keep(s[..j], exact)| <= start + |Keep(s, exact)|
      invariant a[..start] == old(a[..start])
      invariant a[start..end] == Keep(s[..j], exact)
    {
      KeepStep(s, j, exact);
      if s[j].isExactMatch == exact {
        ghost var placed := a[start..end];
        a[end] := s[j];
        assert a[start..end + 1] == placed + [s[j]];
        end := end + 1;
      }
      j := j + 1;
    }
    assert s[..|s|] == s;
  }

  /** Sorts the reports array in place into the shown order. */
  method SortExactFirst(a: array<Filtered>)
    modifies a
    ensures a[..] == ExactFirst(old(a[..]))
  {
    var s := a[..];
    KeepLengths(s);
    var front := PlaceGroup(a, s, 0, true);
    ghost var placed := a[..front];
    assert placed == Keep(s, true);
    var end := PlaceGroup(a, s, front, false);
    assert end == a.Length;
    assert a[..front] == placed;
    assert a[front..] == Keep(s, false);
    assert a[..] == a[..front] + a[front..];
  }
}
