/**
 * Ordering of directory listings: names compare character by character,
 * which for names held as code points agrees with Go's byte order on their
 * UTF-8 encoding, and a listing is sorted by an insertion sort before its
 * children are visited.
 */
module Listing {
  import opened FileTree

  /** Lexicographic order on names: `a` is a prefix of `b` or is smaller at the first difference. */
  predicate NameLe(a: string, b: string)
  {
    a == [] || (b != [] && (a[0] < b[0] || (a[0] == b[0] && NameLe(a[1..], b[1..]))))
  }

  lemma {:induction false} NameLeTotal(a: string, b: string)
    ensures NameLe(a, b) || NameLe(b, a)
    decreases |a|
  {
    if a != [] && b != [] && a[0] == b[0] {
      NameLeTotal(a[1..], b[1..]);
    }
  }

  lemma {:induction false} NameLeReflexive(a: string)
    ensures NameLe(a, a)
    decreases |a|
  {
    if a != [] {
      NameLeReflexive(a[1..]);
    }
  }

  lemma {:induction false} NameLeTransitive(a: string, b: string, c: string)
    requires NameLe(a, b) && NameLe(b, c)
    ensures NameLe(a, c)
    decreases |a|
  {
    if a != [] && a[0] == b[0] && b[0] == c[0] {
      NameLeTransitive(a[1..], b[1..], c[1..]);
    }
  }

  lemma {:induction false} NameLeAntisymmetric(a: string, b: string)
    requires NameLe(a, b) && NameLe(b, a)
    ensures a == b
    decreases |a|
  {
    if a != [] {
      NameLeAntisymmetric(a[1..], b[1..]);
      assert a == [a[0]] + a[1..] && b == [b[0]] + b[1..];
    }
  }

  ghost predicate SortedByName(entries: seq<DirEntry>)
  {
    forall i, j :: 0 <= i < j < |entries| ==> NameLe(entries[i].name, entries[j].name)
  }

  /** Inserts `e` into a sorted listing, before the first entry whose name is not smaller. */
  function InsertByName(e: DirEntry, sorted: seq<DirEntry>): (r: seq<DirEntry>)
    requires SortedByName(sorted)
    ensures multiset(r) == multiset(sorted) + multiset{e}
    ensures SortedByName(r)
    decreases |sorted|
  {
    if sorted == [] then [e]
    else if NameLe(e.name, sorted[0].name) then
      InsertedFirstIsSorted(e, sorted);
      [e] + sorted
    else
      var tail := InsertByName(e, sorted[1..]);
      NameLeTotal(e.name, sorted[0].name);
      InsertedLaterIsSorted(e, sorted, tail);
      assert sorted == [sorted[0]] + sorted[1..];
      [sorted[0]] + tail
  }

  lemma InsertedFirstIsSorted(e: DirEntry, sorted: seq<DirEntry>)
    requires SortedByName(sorted) && sorted != [] && NameLe(e.name, sorted[0].name)
    ensures SortedByName([e] + sorted)
  {
    var r := [e] + sorted;
    forall i, j | 0 <= i < j < |r| ensures NameLe(r[i].name, r[j].name) {
      if i == 0 && j > 1 {
        NameLeTransitive(e.name, sorted[0].name, sorted[j - 1].name);
      }
    }
  }

  lemma InsertedLaterIsSorted(e: DirEntry, sorted: seq<DirEntry>, tail: seq<DirEntry>)
    requires SortedByName(sorted) && sorted != [] && NameLe(sorted[0].name, e.name)
    requires SortedByName(tail) && multiset(tail) == multiset(sorted[1..]) + multiset{e}
    ensures SortedByName([sorted[0]] + tail)
  {
    var r := [sorted[0]] + tail;
    forall i, j | 0 <= i < j < |r| ensures NameLe(r[i].name, r[j].name) {
      if i == 0 {
        var x := tail[j - 1];
        assert x in multiset(tail);
        if x != e {
          assert x in multiset(sorted[1..]);
          var k :| 0 <= k < |sorted[1..]| && sorted[1..][k] == x;
          assert sorted[k + 1] == x;
        }
      }
    }
  }

  /** The listing in ascending name order: a permutation of it that is sorted. */
  function SortByName(entries: seq<DirEntry>): (sorted: seq<DirEntry>)
    ensures multiset(sorted) == multiset(entries)
    ensures SortedByName(sorted)
  {
    if entries == [] then []
    else
      assert entries == [entries[0]] + entries[1..];
      InsertByName(entries[0], SortByName(entries[1..]))
  }

  /** Sorting keeps exactly the entries of the listing. */
  lemma SortKeepsEntries(entries: seq<DirEntry>)
    ensures forall e :: e in SortByName(entries) <==> e in entries
  {
    var sorted := SortByName(entries);
    forall e ensures e in sorted <==> e in entries {
      assert e in sorted <==> e in multiset(sorted);
      assert e in entries <==> e in multiset(entries);
    }
  }

  lemma CountAtLeastTwo(s: seq<DirEntry>, i: nat, j: nat)
    requires i < j < |s| && s[i] == s[j]
    ensures multiset(s)[s[i]] >= 2
  {
    assert s == s[..j] + s[j..];
    assert s[i] == s[..j][i];
    assert s[j] == s[j..][0];
  }

  lemma {:induction false} UniqueNamesCountOnce(s: seq<DirEntry>, x: DirEntry)
    requires UniqueNames(s)
    ensures multiset(s)[x] <= 1
    decreases |s|
  {
    if s != [] {
      assert s == [s[0]] + s[1..];
      assert UniqueNames(s[1..]) by {
        forall i, j | 0 <= i < j < |s[1..]| ensures s[1..][i].name != s[1..][j].name {
          assert s[1..][i] == s[i + 1] && s[1..][j] == s[j + 1];
        }
      }
      UniqueNamesCountOnce(s[1..], x);
      if s[0] == x {
        assert x !in s[1..] by {
          forall k | 0 <= k < |s[1..]| ensures s[1..][k] != x {
            assert s[1..][k] == s[k + 1];
          }
        }
      }
    }
  }

  /** Distinct names stay distinct when a listing is reordered. */
  lemma UniqueNamesPermutation(a: seq<DirEntry>, b: seq<DirEntry>)
    requires multiset(a) == multiset(b) && UniqueNames(a)
    ensures UniqueNames(b)
  {
    forall i, j | 0 <= i < j < |b| ensures b[i].name != b[j].name {
      if b[i] == b[j] {
        CountAtLeastTwo(b, i, j);
        UniqueNamesCountOnce(a, b[i]);
      } else {
        assert b[i] in multiset(a) && b[j] in multiset(a);
        var p :| 0 <= p < |a| && a[p] == b[i];
        var q :| 0 <= q < |a| && a[q] == b[j];
        assert p != q;
        assert a[p].name != a[q].name;
      }
    }
  }

  lemma SortedTail(x: seq<DirEntry>)
    requires x != [] && SortedByName(x)
    ensures SortedByName(x[1..])
  {
    forall i, i' | 0 <= i < i' < |x[1..]| ensures NameLe(x[1..][i].name, x[1..][i'].name) {
      assert x[1..][i] == x[i + 1] && x[1..][i'] == x[i' + 1];
    }
  }

  lemma UniqueTail(x: seq<DirEntry>)
    requires x != [] && UniqueNames(x)
    ensures UniqueNames(x[1..])
  {
    forall i, i' | 0 <= i < i' < |x[1..]| ensures x[1..][i].name != x[1..][i'].name {
      assert x[1..][i] == x[i + 1] && x[1..][i'] == x[i' + 1];
    }
  }

  /** Both sorted listings start with the entry of least name. */
  lemma SortedHeadsAgree(x: seq<DirEntry>, y: seq<DirEntry>)
    requires x != [] && multiset(x) == multiset(y) && UniqueNames(x)
    requires SortedByName(x) && SortedByName(y)
    ensures y != [] && x[0] == y[0]
  {
    assert x[0] in multiset(y) && y[0] in multiset(x);
    var j :| 0 <= j < |y| && y[j] == x[0];
    var k :| 0 <= k < |x| && x[k] == y[0];
    NameLeReflexive(x[0].name);
    assert NameLe(x[0].name, y[0].name) by {
      if k != 0 {
        assert NameLe(x[0].name, x[k].name);
      }
    }
    assert NameLe(y[0].name, x[0].name) by {
      if j != 0 {
        assert NameLe(y[0].name, y[j].name);
      }
    }
    NameLeAntisymmetric(x[0].name, y[0].name);
    assert k == 0;
  }

  /** Two name-sorted listings with the same entries and distinct names are the same listing. */
  lemma {:induction false} SortedListingsAgree(x: seq<DirEntry>, y: seq<DirEntry>)
    requires multiset(x) == multiset(y) && UniqueNames(x)
    requires SortedByName(x) && SortedByName(y)
    ensures x == y
    decreases |x|
  {
    if x == [] {
      assert |y| == |multiset(y)| == 0;
    } else {
      SortedHeadsAgree(x, y);
      assert x == [x[0]] + x[1..] && y == [y[0]] + y[1..];
      assert multiset(x[1..]) == multiset(x) - multiset{x[0]};
      assert multiset(y[1..]) == multiset(y) - multiset{y[0]};
      SortedTail(x);
      SortedTail(y);
      UniqueTail(x);
      SortedListingsAgree(x[1..], y[1..]);
    }
  }

  /**
   * With distinct names (as in any real directory), siblings come out in
   * strictly ascending name order, and the order the directory was listed in
   * makes no difference.
   */
  lemma SiblingsAscendWhateverTheListingOrder(a: seq<DirEntry>, b: seq<DirEntry>)
    requires multiset(a) == multiset(b) && UniqueNames(a)
    ensures SortByName(a) == SortByName(b)
    ensures forall i, j :: 0 <= i < j < |SortByName(a)| ==>
      NameLe(SortByName(a)[i].name, SortByName(a)[j].name) && SortByName(a)[i].name != SortByName(a)[j].name
  {
    UniqueNamesPermutation(a, SortByName(a));
    SortedListingsAgree(SortByName(a), SortByName(b));
  }

  /** Names that strictly ascend from each entry to the next. */
  predicate StepsAscend(s: seq<DirEntry>)
  {
    forall i :: 0 <= i < |s| - 1 ==> NameLe(s[i].name, s[i + 1].name) && s[i].name != s[i + 1].name
  }

  lemma {:induction false} StepsAscendChain(s: seq<DirEntry>, i: nat, j: nat)
    requires StepsAscend(s) && i < j < |s|
    ensures NameLe(s[i].name, s[j].name) && s[i].name != s[j].name
    decreases j - i
  {
    if i + 1 < j {
      StepsAscendChain(s, i + 1, j);
      var a, b, c := s[i].name, s[i + 1].name, s[j].name;
      NameLeTransitive(a, b, c);
      if a == c {
        NameLeAntisymmetric(a, b);
      }
    }
  }

  /** A listing whose names already ascend step by step is left as it is by the sort. */
  lemma SortingAnAscendingListingKeepsIt(s: seq<DirEntry>)
    requires StepsAscend(s)
    ensures SortByName(s) == s
  {
    forall i, j | 0 <= i < j < |s| ensures NameLe(s[i].name, s[j].name) && s[i].name != s[j].name {
      StepsAscendChain(s, i, j);
    }
    SortedListingsAgree(s, SortByName(s));
  }
}
