/**
 * Sequence specifications for the converter's managed file list: what
 * "append the files not yet present" and "remove the selected rows" mean,
 * independently of the loops that do it.
 */
module FileLists {

  /** A file-system path as the file dialog returns it. */
  type Path = string

  predicate NoDuplicates(s: seq<Path>)
  {
    forall i, j :: 0 <= i < j < |s| ==> s[i] != s[j]
  }

  /** Index of the first occurrence of `x` in `s`. */
  function FirstIndex(s: seq<Path>, x: Path): (r: nat)
    requires x in s
    ensures r < |s| && s[r] == x && x !in s[..r]
  {
    if s[0] == x then 0 else 1 + FirstIndex(s[1..], x)
  }

  /**
   * `s` with every element that already occurred earlier dropped: each
   * value is kept at its first occurrence.
   */
  function Dedup(s: seq<Path>): (r: seq<Path>)
    ensures forall x :: x in r <==> x in s
    ensures NoDuplicates(r)
    decreases |s|
  {
    if s == [] then []
    else if s[|s| - 1] in s[..|s| - 1] then Dedup(s[..|s| - 1])
    else Dedup(s[..|s| - 1]) + [s[|s| - 1]]
  }

  /** A list without duplicates is left as it is. */
  lemma {:induction false} DedupOfDistinct(s: seq<Path>)
    requires NoDuplicates(s)
    ensures Dedup(s) == s
    decreases |s|
  {
    if s != [] {
      var init := s[..|s| - 1];
      assert NoDuplicates(init);
      DedupOfDistinct(init);
      assert s == init + [s[|s| - 1]];
    }
  }

  /** Appending to a list without duplicates keeps it as a prefix. */
  lemma {:induction false} DedupKeepsDistinctPrefix(f: seq<Path>, p: seq<Path>)
    requires NoDuplicates(f)
    ensures |Dedup(f + p)| >= |f| && Dedup(f + p)[..|f|] == f
    decreases |p|
  {
    if p == [] {
      assert f + p == f;
      DedupOfDistinct(f);
    } else {
      var q := p[..|p| - 1];
      assert (f + p)[..|f + p| - 1] == f + q;
      DedupKeepsDistinctPrefix(f, q);
    }
  }

  lemma {:induction false} FirstIndexOfExtension(s: seq<Path>, y: Path, x: Path)
    requires x in s
    ensures FirstIndex(s + [y], x) == FirstIndex(s, x)
  {
    var k := FirstIndex(s, x);
    var k' := FirstIndex(s + [y], x);
    assert (s + [y])[k] == x;
  }

  /**
   * The kept elements appear in the order of their first occurrences in
   * the input.
   */
  lemma {:induction false} DedupFollowsFirstOccurrences(s: seq<Path>, i: int, j: int)
    requires 0 <= i < j < |Dedup(s)|
    ensures FirstIndex(s, Dedup(s)[i]) < FirstIndex(s, Dedup(s)[j])
    decreases |s|
  {
    var init := s[..|s| - 1];
    var last := s[|s| - 1];
    assert s == init + [last];
    var d := Dedup(init);
    if last in init {
      DedupFollowsFirstOccurrences(init, i, j);
      FirstIndexOfExtension(init, last, d[i]);
      FirstIndexOfExtension(init, last, d[j]);
    } else if j < |d| {
      DedupFollowsFirstOccurrences(init, i, j);
      FirstIndexOfExtension(init, last, d[i]);
      FirstIndexOfExtension(init, last, d[j]);
    } else {
      assert Dedup(s)[j] == last;
      FirstIndexOfExtension(init, last, d[i]);
      assert FirstIndex(s, last) == |init|;
    }
  }

  /** `s` without the entries at the positions listed in `idx`. */
  function Drop(s: seq<Path>, idx: seq<nat>): (r: seq<Path>)
    ensures |r| <= |s|
    ensures forall x :: x in r ==> x in s
    decreases |s|
  {
    if s == [] then []
    else Drop(s[..|s| - 1], idx) + (if |s| - 1 in idx then [] else [s[|s| - 1]])
  }

  /** Dropping positions of a list without duplicates leaves none. */
  lemma {:induction false} DropKeepsDistinct(s: seq<Path>, idx: seq<nat>)
    requires NoDuplicates(s)
    ensures NoDuplicates(Drop(s, idx))
    decreases |s|
  {
    if s != [] {
      var init, last := s[..|s| - 1], s[|s| - 1];
      assert NoDuplicates(init);
      DropKeepsDistinct(init, idx);
      var d := Drop(init, idx);
      assert last !in init;
      assert last !in d;
      assert Drop(s, idx) == d || Drop(s, idx) == d + [last];
    }
  }

  /**
   * In a list without duplicates, an entry survives `Drop` exactly when its
   * position is not listed.
   */
  lemma {:induction false} DropRemovesExactlyListed(s: seq<Path>, idx: seq<nat>, n: nat)
    requires NoDuplicates(s) && n < |s|
    ensures s[n] in Drop(s, idx) <==> n !in idx
    decreases |s|
  {
    var init := s[..|s| - 1];
    assert NoDuplicates(init);
    if n < |init| {
      DropRemovesExactlyListed(init, idx, n);
      assert s[n] == init[n];
    } else {
      assert s[n] !in init;
    }
  }

  lemma {:induction false} DropNone(s: seq<Path>, idx: seq<nat>)
    requires forall n :: n in idx ==> n >= |s|
    ensures Drop(s, idx) == s
    decreases |s|
  {
    if s != [] {
      DropNone(s[..|s| - 1], idx);
    }
  }

  /**
   * Deleting position `i` from the list that already lacks every position
   * above `i` leaves the list lacking `i` too: positions below `i` have not
   * moved, which is why deleting in descending order keeps every index valid.
   */
  lemma {:induction false} DropLowerPosition(s: seq<Path>, i: nat, rest: seq<nat>)
    requires i < |s|
    requires forall n :: n in rest ==> n > i
    ensures |Drop(s, rest)| > i && Drop(s, rest)[i] == s[i]
    ensures Drop(s, [i] + rest) == Drop(s, rest)[..i] + Drop(s, rest)[i + 1..]
    decreases |s|
  {
    var init := s[..|s| - 1];
    if |s| - 1 == i {
      DropNone(init, rest);
      DropNone(init, [i] + rest);
    } else {
      DropLowerPosition(init, i, rest);
    }
  }

  /** `s` without every element that occurs in `xs`. */
  function RemoveValues(s: seq<Path>, xs: seq<Path>): (r: seq<Path>)
    ensures forall x :: x in r <==> x in s && x !in xs
  {
    if s == [] then []
    else (if s[0] in xs then [] else [s[0]]) + RemoveValues(s[1..], xs)
  }

  lemma {:induction false} RemoveNoValues(s: seq<Path>)
    ensures RemoveValues(s, []) == s
  {
    if s != [] {
      RemoveNoValues(s[1..]);
    }
  }

  /**
   * Python's `list.remove` on a present `x`: drop its first occurrence.
   * Callers test membership first; on an absent `x` the list is returned
   * unchanged (where Python would raise).
   */
  function RemoveFirst(s: seq<Path>, x: Path): (r: seq<Path>)
    ensures x !in s ==> r == s
    ensures x in s ==> r == s[..FirstIndex(s, x)] + s[FirstIndex(s, x) + 1..]
  {
    if s == [] then []
    else if s[0] == x then s[1..]
    else
      var rest := RemoveFirst(s[1..], x);
      if x in s then
        FirstIndexPastHead(s, x);
        CutBehindHead(s, FirstIndex(s[1..], x));
        [s[0]] + rest
      else
        [s[0]] + rest
  }

  lemma FirstIndexPastHead(s: seq<Path>, x: Path)
    requires x in s && s[0] != x
    ensures x in s[1..] && FirstIndex(s, x) == FirstIndex(s[1..], x) + 1
  {
  }

  lemma CutBehindHead(s: seq<Path>, g: nat)
    requires g + 1 < |s|
    ensures [s[0]] + (s[1..][..g] + s[1..][g + 1..]) == s[..g + 1] + s[g + 2..]
  {
  }

  lemma {:induction false} RemoveValuesIgnoresAbsent(s: seq<Path>, xs: seq<Path>, x: Path)
    requires x !in s
    ensures RemoveValues(s, xs + [x]) == RemoveValues(s, xs)
  {
    if s != [] {
      RemoveValuesIgnoresAbsent(s[1..], xs, x);
    }
  }

  /**
   * On a list without duplicates, removing the first occurrence of one more
   * value is the same as removing all occurrences of it.
   */
  lemma {:induction false} RemoveFirstExtendsRemoveValues(s: seq<Path>, xs: seq<Path>, x: Path)
    requires NoDuplicates(s)
    ensures RemoveFirst(RemoveValues(s, xs), x) == RemoveValues(s, xs + [x])
  {
    if s != [] {
      var a, t := s[0], s[1..];
      assert NoDuplicates(t);
      var rest := RemoveValues(t, xs);
      if a in xs {
        assert RemoveValues(s, xs) == rest;
        assert RemoveValues(s, xs + [x]) == RemoveValues(t, xs + [x]);
        RemoveFirstExtendsRemoveValues(t, xs, x);
      } else if a == x {
        assert RemoveValues(s, xs) == [a] + rest;
        assert x !in t;
        assert RemoveValues(s, xs + [x]) == RemoveValues(t, xs + [x]);
        RemoveValuesIgnoresAbsent(t, xs, x);
      } else {
        assert RemoveValues(s, xs) == [a] + rest;
        assert RemoveValues(s, xs + [x]) == [a] + RemoveValues(t, xs + [x]);
        assert RemoveFirst([a] + rest, x) == [a] + RemoveFirst(rest, x) by {
          assert ([a] + rest)[1..] == rest;
        }
        RemoveFirstExtendsRemoveValues(t, xs, x);
      }
    }
  }

  lemma {:induction false} RemoveValuesOfExtension(s: seq<Path>, a: Path, xs: seq<Path>)
    ensures RemoveValues(s + [a], xs) == RemoveValues(s, xs) + (if a in xs then [] else [a])
  {
    if s == [] {
      assert [a][1..] == [];
    } else {
      assert (s + [a])[1..] == s[1..] + [a];
      RemoveValuesOfExtension(s[1..], a, xs);
    }
  }

  /**
   * Removing by position and removing by value agree whenever a position is
   * listed exactly when the value at that position is listed.
   */
  lemma {:induction false} DropAgreesWithRemoveValues(s: seq<Path>, idx: seq<nat>, xs: seq<Path>)
    requires forall n :: 0 <= n < |s| ==> (n in idx <==> s[n] in xs)
    ensures Drop(s, idx) == RemoveValues(s, xs)
    decreases |s|
  {
    if s != [] {
      var init := s[..|s| - 1];
      assert s == init + [s[|s| - 1]];
      DropAgreesWithRemoveValues(init, idx, xs);
      RemoveValuesOfExtension(init, s[|s| - 1], xs);
    }
  }

  /** Positions in strictly ascending order, each a valid position of `s`. */
  predicate AscendingPositions(idx: seq<nat>, len: nat)
  {
    && (forall k :: 0 <= k < |idx| ==> idx[k] < len)
    && (forall k, l :: 0 <= k < l < |idx| ==> idx[k] < idx[l])
  }

  /**
   * One step of deleting the selected rows from the bottom up: once the
   * rows listed after position `j` are gone, row `idx[j]` is still in
   * place, and deleting it leaves the list without the rows from `j` on.
   */
  lemma DropDescendingStep(s: seq<Path>, idx: seq<nat>, j: nat)
    requires AscendingPositions(idx, |s|) && j < |idx|
    ensures var d := Drop(s, idx[j + 1..]);
            && idx[j] < |d|
            && Drop(s, idx[j..]) == d[..idx[j]] + d[idx[j] + 1..]
  {
    var rest := idx[j + 1..];
    assert forall n :: n in rest ==> n > idx[j];
    assert idx[j..] == [idx[j]] + rest;
    DropLowerPosition(s, idx[j], rest);
  }

  /**
   * Removing the values found at the selected positions of a list without
   * duplicates removes exactly the selected positions, and leaves a list
   * without duplicates.
   */
  lemma SelectedValuesAreSelectedPositions(s: seq<Path>, idx: seq<nat>, xs: seq<Path>)
    requires NoDuplicates(s) && AscendingPositions(idx, |s|)
    requires |xs| == |idx| && forall k :: 0 <= k < |idx| ==> xs[k] == s[idx[k]]
    ensures RemoveValues(s, xs) == Drop(s, idx)
    ensures NoDuplicates(Drop(s, idx))
  {
    forall n | 0 <= n < |s|
      ensures n in idx <==> s[n] in xs
    {
      if s[n] in xs {
        var k :| 0 <= k < |xs| && xs[k] == s[n];
        assert s[idx[k]] == s[n];
      }
      if n in idx {
        var k :| 0 <= k < |idx| && idx[k] == n;
        assert xs[k] == s[n];
      }
    }
    DropAgreesWithRemoveValues(s, idx, xs);
    DropKeepsDistinct(s, idx);
  }

  /** Dropping one position cuts that entry out. */
  lemma DropOne(s: seq<Path>, n: nat)
    requires n < |s|
    ensures Drop(s, [n]) == s[..n] + s[n + 1..]
  {
    DropNone(s, []);
    DropLowerPosition(s, n, []);
    assert [n] + [] == [n];
  }

  lemma {:induction false} RunIsConstant(s: seq<Path>, f: nat, n: nat, k: nat)
    requires f <= k <= n < |s|
    requires forall j :: f <= j < n ==> s[j] == s[j + 1]
    ensures s[k] == s[n]
    decreases n - k
  {
    if k < n {
      RunIsConstant(s, f, n, k + 1);
    }
  }

  /**
   * Removing the path on row `n` by value (`list.remove`) and deleting row
   * `n` give the same list exactly when every row from the path's first
   * occurrence down to row `n` holds that path. In particular they agree
   * when the path is not listed above row `n`, and differ as soon as some
   * other path sits between an earlier copy and row `n`.
   */
  lemma RemoveByValueMatchesRowIff(s: seq<Path>, n: nat)
    requires n < |s|
    ensures RemoveFirst(s, s[n]) == Drop(s, [n]) <==>
              forall k :: FirstIndex(s, s[n]) <= k <= n ==> s[k] == s[n]
  {
    var f := FirstIndex(s, s[n]);
    assert f <= n;
    DropOne(s, n);
    if forall k :: f <= k <= n ==> s[k] == s[n] {
      ConstantRunCutsAgree(s, f, n);
    }
    if s[..f] + s[f + 1..] == s[..n] + s[n + 1..] {
      AgreeingCutsHaveConstantRun(s, f, n);
    }
  }

  lemma ConstantRunCutsAgree(s: seq<Path>, f: nat, n: nat)
    requires f <= n < |s|
    requires forall k :: f <= k <= n ==> s[k] == s[n]
    ensures s[..f] + s[f + 1..] == s[..n] + s[n + 1..]
  {
    var a, b := s[..f] + s[f + 1..], s[..n] + s[n + 1..];
    forall i | 0 <= i < |a| ensures a[i] == b[i] {
      if f <= i < n {
        assert a[i] == s[i + 1] && b[i] == s[i];
      }
    }
  }

  lemma AgreeingCutsHaveConstantRun(s: seq<Path>, f: nat, n: nat)
    requires f <= n < |s|
    requires s[..f] + s[f + 1..] == s[..n] + s[n + 1..]
    ensures forall k :: f <= k <= n ==> s[k] == s[n]
  {
    var a, b := s[..f] + s[f + 1..], s[..n] + s[n + 1..];
    forall j | f <= j < n ensures s[j] == s[j + 1] {
      assert a[j] == s[j + 1] && b[j] == s[j];
    }
    forall k | f <= k <= n ensures s[k] == s[n] {
      RunIsConstant(s, f, n, k);
    }
  }

  /**
   * A concrete case of the mismatch: with one path on rows 0 and 2 and row
   * 2 selected, `list.remove` drops row 0 while the list box drops row 2.
   */
  lemma DuplicatesBreakLockstep()
    ensures var s := ["a.png", "b.png", "a.png"];
            && RemoveFirst(s, s[2]) == ["b.png", "a.png"]
            && Drop(s, [2]) == ["a.png", "b.png"]
            && RemoveFirst(s, s[2]) != Drop(s, [2])
  {
    var s := ["a.png", "b.png", "a.png"];
    assert s[..2] == ["a.png", "b.png"];
    assert s[..2][..1] == ["a.png"];
    assert s[..2][..1][..0] == [];
  }
}
