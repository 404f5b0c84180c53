/**
 * The order in which the walker visits the entries of one directory.
 * `Vec<PathBuf>::sort` compares paths component by component; the entries
 * of one directory share their parent, so they compare by their last
 * component, character by character (code-point order, which is the byte
 * order of their UTF-8 encoding).
 */
module SiblingOrder {
  import opened Paths

  /** Strict lexicographic order on names; a proper prefix comes first. */
  predicate Before(a: Name, b: Name) {
    if a == [] then b != []
    else b != [] && (a[0] < b[0] || (a[0] == b[0] && Before(a[1..], b[1..])))
  }

  /** `a` and `b` agree before position `k`, and there `a` has the smaller character. */
  predicate SmallerAt(a: Name, b: Name, k: nat) {
    k < |a| && k < |b| && a[..k] == b[..k] && a[k] < b[k]
  }

  /**
   * `Before` is the order `Ord for str` gives: `a` is a proper prefix of `b`,
   * or at the first position where they differ `a` has the smaller character.
   */
  lemma {:induction false} BeforeIsFirstDifference(a: Name, b: Name)
    ensures Before(a, b) <==> (|a| < |b| && a == b[..|a|]) || exists k: nat :: SmallerAt(a, b, k)
    decreases |a|
  {
    if a != [] && b != [] {
      var a', b' := a[1..], b[1..];
      BeforeIsFirstDifference(a', b');
      if a[0] == b[0] {
        assert a == [a[0]] + a' && b == [b[0]] + b';
        if |a| < |b| {
          assert b[..|a|] == [b[0]] + b'[..|a'|];
        }
        if k: nat :| SmallerAt(a', b', k) {
          assert a[..k + 1] == [a[0]] + a'[..k] && b[..k + 1] == [b[0]] + b'[..k];
          assert SmallerAt(a, b, k + 1);
        }
        if k: nat :| SmallerAt(a, b, k) {
          assert k > 0;
          assert a'[..k - 1] == a[1..k] && b'[..k - 1] == b[1..k];
          assert a[..k][1..] == a[1..k] && b[..k][1..] == b[1..k];
          assert SmallerAt(a', b', k - 1);
        }
      } else {
        if a[0] < b[0] {
          assert SmallerAt(a, b, 0);
        }
        if k: nat :| SmallerAt(a, b, k) {
          if k > 0 {
            assert a[..k][0] == b[..k][0];
          }
        }
      }
    } else if a != [] {
      assert forall k: nat :: !SmallerAt(a, b, k);
    }
  }

  lemma {:induction false} BeforeIrreflexive(a: Name)
    ensures !Before(a, a)
  {
    if a != [] {
      BeforeIrreflexive(a[1..]);
    }
  }

  lemma {:induction false} BeforeTransitive(a: Name, b: Name, c: Name)
    requires Before(a, b) && Before(b, c)
    ensures Before(a, c)
  {
    if a != [] && a[0] == b[0] && b[0] == c[0] {
      BeforeTransitive(a[1..], b[1..], c[1..]);
    }
  }

  /** Any two distinct names are ordered one way or the other. */
  lemma {:induction false} BeforeTotal(a: Name, b: Name)
    ensures a == b || Before(a, b) || Before(b, a)
  {
    if a != [] && b != [] && a[0] == b[0] {
      BeforeTotal(a[1..], b[1..]);
      if a[1..] == b[1..] {
        assert a == [a[0]] + a[1..] && b == [b[0]] + b[1..];
      }
    }
  }

  lemma {:induction false} BeforeAsymmetric(a: Name, b: Name)
    requires Before(a, b)
    ensures !Before(b, a)
  {
    if Before(b, a) {
      BeforeTransitive(a, b, a);
      BeforeIrreflexive(a);
    }
  }

  /** Non-decreasing: no later name comes before an earlier one. */
  predicate Sorted(s: seq<Name>) {
    forall i, j :: 0 <= i < j < |s| ==> !Before(s[j], s[i])
  }

  /** Strictly increasing. */
  predicate StrictlySorted(s: seq<Name>) {
    forall i, j :: 0 <= i < j < |s| ==> Before(s[i], s[j])
  }

  /** Every element occurs once. */
  predicate NoDuplicates(s: seq<Name>) {
    forall x :: x in s ==> multiset(s)[x] == 1
  }

  function Insert(x: Name, s: seq<Name>): (r: seq<Name>)
    requires Sorted(s)
    ensures Sorted(r)
    ensures multiset(r) == multiset(s) + multiset{x}
  {
    if s == [] then [x]
    else if Before(s[0], x) then
      var tail := Insert(x, s[1..]);
      assert s == [s[0]] + s[1..];
      forall j | 0 <= j < |tail| ensures !Before(tail[j], s[0]) {
        assert tail[j] in multiset(tail);
        if tail[j] == x {
          BeforeAsymmetric(s[0], x);
        } else {
          assert tail[j] in multiset(s[1..]);
          var k :| 0 <= k < |s[1..]| && s[1..][k] == tail[j];
          assert s[k + 1] == tail[j];
        }
      }
      [s[0]] + tail
    else
      forall j | 0 <= j < |s| ensures !Before(s[j], x) {
        BeforeTotal(x, s[0]);
        if Before(s[j], x) {
          if x == s[0] {
            if j == 0 { BeforeIrreflexive(x); }
          } else {
            BeforeTransitive(s[j], x, s[0]);
            if j == 0 { BeforeIrreflexive(x); }
          }
        }
      }
      [x] + s
  }

  /** Insertion sort: the sorted permutation of `s`. */
  function Sort(s: seq<Name>): (r: seq<Name>)
    ensures Sorted(r)
    ensures multiset(r) == multiset(s)
  {
    if s == [] then []
    else
      assert s == [s[0]] + s[1..];
      Insert(s[0], Sort(s[1..]))
  }

  lemma DistinctAt(s: seq<Name>, i: nat, j: nat)
    requires NoDuplicates(s) && i < j < |s|
    ensures s[i] != s[j]
  {
    var x := s[j];
    assert s == s[..j] + s[j..];
    assert multiset(s)[x] == multiset(s[..j])[x] + multiset(s[j..])[x];
    assert s[j..][0] == x;
    assert x in multiset(s[j..]);
    assert x !in multiset(s[..j]);
    assert s[..j][i] == s[i];
  }

  /** A duplicate-free sorted sequence is strictly increasing. */
  lemma SortedDistinctIsStrict(s: seq<Name>)
    requires Sorted(s) && NoDuplicates(s)
    ensures StrictlySorted(s)
  {
    forall i, j | 0 <= i < j < |s| ensures Before(s[i], s[j]) {
      DistinctAt(s, i, j);
      BeforeTotal(s[i], s[j]);
    }
  }

  /** Sorting keeps a sequence duplicate-free. */
  lemma SortKeepsNoDuplicates(s: seq<Name>)
    requires NoDuplicates(s)
    ensures NoDuplicates(Sort(s))
  {
    forall x | x in Sort(s) ensures multiset(Sort(s))[x] == 1 {
      assert x in multiset(Sort(s));
    }
  }

  /** Two sorted arrangements of the same names are the same sequence. */
  lemma {:induction false} SortedUnique(a: seq<Name>, b: seq<Name>)
    requires Sorted(a) && Sorted(b) && multiset(a) == multiset(b)
    ensures a == b
    decreases |a|
  {
    assert |a| == |multiset(a)| == |multiset(b)| == |b|;
    if a != [] {
      SortedHeadsEqual(a, b);
      MultisetTail(a);
      MultisetTail(b);
      SortedUnique(a[1..], b[1..]);
      assert a == [a[0]] + a[1..] && b == [b[0]] + b[1..];
    }
  }

  lemma SortedHeadsEqual(a: seq<Name>, b: seq<Name>)
    requires Sorted(a) && Sorted(b) && multiset(a) == multiset(b) && |a| > 0 && |b| > 0
    ensures a[0] == b[0]
  {
    assert a[0] in multiset(b) && b[0] in multiset(a);
    var i :| 0 <= i < |a| && a[i] == b[0];
    var j :| 0 <= j < |b| && b[j] == a[0];
    BeforeIrreflexive(a[0]);
    BeforeIrreflexive(b[0]);
    assert !Before(b[0], a[0]) by {
      if i > 0 {
        assert !Before(a[i], a[0]);
      }
    }
    assert !Before(a[0], b[0]) by {
      if j > 0 {
        assert !Before(b[j], b[0]);
      }
    }
    BeforeTotal(a[0], b[0]);
  }

  lemma MultisetTail(a: seq<Name>)
    requires |a| > 0
    ensures multiset(a[1..]) == multiset(a) - multiset{a[0]}
  {
    assert a == [a[0]] + a[1..];
  }

  /** Every name of a strictly sorted sequence comes after the names before it. */
  lemma StrictlySortedAfter(s: seq<Name>, i: nat, x: Name)
    requires StrictlySorted(s) && i < |s| && x in s[i + 1..]
    ensures Before(s[i], x)
  {
    var k :| 0 <= k < |s[i + 1..]| && s[i + 1..][k] == x;
    assert s[i + 1 + k] == x;
  }
}
