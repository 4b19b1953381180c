/** Sequence vocabulary shared by the queries: `Array.prototype.filter`, order-preserving
    subsequences, duplicate-freedom, and de-duplication that keeps first occurrences (what
    `Array.from(new Set(xs))` yields). */
module Seqs {

  /** a can be obtained from b by deleting elements, keeping the order of the rest. */
  predicate IsSubseq<T(==)>(a: seq<T>, b: seq<T>)
    decreases |b|
  {
    a == [] || (b != [] && ((a[0] == b[0] && IsSubseq(a[1..], b[1..])) || IsSubseq(a, b[1..])))
  }

  predicate NoDup<T(==)>(s: seq<T>) {
    forall i, j :: 0 <= i < j < |s| ==> s[i] != s[j]
  }

  /** `s.filter(f)`. */
  function Filter<T(!new)>(s: seq<T>, f: T -> bool): (r: seq<T>)
    ensures |r| <= |s|
    ensures forall x :: x in r <==> x in s && f(x)
    ensures IsSubseq(r, s)
  {
    if s == [] then []
    else if f(s[0]) then [s[0]] + Filter(s[1..], f)
    else Filter(s[1..], f)
  }

  /** Filtering keeps every passing element with its multiplicity and drops the rest. */
  lemma {:induction false} FilterMultiset<T(!new)>(s: seq<T>, f: T -> bool)
    ensures forall x :: multiset(Filter(s, f))[x] == if f(x) then multiset(s)[x] else 0
  {
    if s != [] {
      FilterMultiset(s[1..], f);
      assert s == [s[0]] + s[1..];
    }
  }

  /** Filtering keeps a sequence whose every element passes. */
  lemma {:induction false} FilterAllPass<T(!new)>(s: seq<T>, f: T -> bool)
    requires forall i :: 0 <= i < |s| ==> f(s[i])
    ensures Filter(s, f) == s
  {
    if s != [] {
      FilterAllPass(s[1..], f);
      assert s == [s[0]] + s[1..];
    }
  }

  /** Filtering an extended sequence extends the filtered one. */
  lemma {:induction false} FilterAppend<T(!new)>(s: seq<T>, x: T, f: T -> bool)
    ensures Filter(s + [x], f) == Filter(s, f) + (if f(x) then [x] else [])
  {
    if s != [] {
      assert (s + [x])[1..] == s[1..] + [x];
      FilterAppend(s[1..], x, f);
    }
  }

  lemma {:induction false} SubseqReflexive<T>(s: seq<T>)
    ensures IsSubseq(s, s)
  {
    if s != [] {
      SubseqReflexive(s[1..]);
    }
  }

  /** Every element of a subsequence is an element of the sequence, and it is no longer. */
  lemma {:induction false} SubseqElements<T>(a: seq<T>, b: seq<T>)
    requires IsSubseq(a, b)
    ensures |a| <= |b|
    ensures forall x :: x in a ==> x in b
  {
    if a != [] {
      if a[0] == b[0] && IsSubseq(a[1..], b[1..]) {
        SubseqElements(a[1..], b[1..]);
        assert forall x :: x in a ==> x == a[0] || x in a[1..];
      } else {
        SubseqElements(a, b[1..]);
      }
    }
  }

  /** A subsequence of a duplicate-free sequence is duplicate-free. */
  lemma {:induction false} SubseqNoDup<T>(a: seq<T>, b: seq<T>)
    requires IsSubseq(a, b) && NoDup(b)
    ensures NoDup(a)
  {
    if a != [] {
      assert NoDup(b[1..]);
      if a[0] == b[0] && IsSubseq(a[1..], b[1..]) {
        SubseqNoDup(a[1..], b[1..]);
        SubseqElements(a[1..], b[1..]);
        forall j | 0 < j < |a| ensures a[0] != a[j] {
          assert a[j] == a[1..][j - 1];
          assert a[j] in b[1..];
        }
      } else {
        SubseqNoDup(a, b[1..]);
      }
    }
  }

  /** Every prefix of a subsequence is a subsequence. */
  lemma {:induction false} SubseqPrefix<T>(a: seq<T>, b: seq<T>, k: nat)
    requires IsSubseq(a, b) && k <= |a|
    ensures IsSubseq(a[..k], b)
  {
    if k > 0 {
      if a[0] == b[0] && IsSubseq(a[1..], b[1..]) {
        SubseqPrefix(a[1..], b[1..], k - 1);
        assert a[..k][1..] == a[1..][..k - 1];
      } else {
        SubseqPrefix(a, b[1..], k);
      }
    }
  }

  /** How a subsequence of a duplicate-free sequence starts: with the head when it holds
      the head, and inside the tail otherwise. */
  lemma SubseqHead<T>(a: seq<T>, s: seq<T>)
    requires IsSubseq(a, s) && NoDup(s) && s != []
    ensures s[0] in a ==> a[0] == s[0] && IsSubseq(a[1..], s[1..])
    ensures s[0] !in a ==> IsSubseq(a, s[1..])
  {
    assert s[0] !in s[1..];
    if a != [] && !(a[0] == s[0] && IsSubseq(a[1..], s[1..])) {
      SubseqElements(a, s[1..]);
    }
  }

  /** Within a duplicate-free sequence a subsequence is determined by its elements. */
  lemma {:induction false} SubseqUnique<T>(a: seq<T>, b: seq<T>, s: seq<T>)
    requires IsSubseq(a, s) && IsSubseq(b, s) && NoDup(s)
    requires forall x :: x in a <==> x in b
    ensures a == b
  {
    if s != [] {
      var t := s[1..];
      assert NoDup(t);
      SubseqHead(a, s);
      SubseqHead(b, s);
      if s[0] in a {
        SubseqNoDup(a, s);
        SubseqNoDup(b, s);
        forall x ensures x in a[1..] <==> x in b[1..] {
          assert x in a[1..] <==> x in a && x != s[0] by {
            assert a == [a[0]] + a[1..];
          }
          assert x in b[1..] <==> x in b && x != s[0] by {
            assert b == [b[0]] + b[1..];
          }
        }
        SubseqUnique(a[1..], b[1..], t);
        assert a == [a[0]] + a[1..];
        assert b == [b[0]] + b[1..];
      } else {
        SubseqUnique(a, b, t);
      }
    }
  }

  /** Position of the first occurrence of x in s. */
  function IndexOf<T(==)>(s: seq<T>, x: T): (r: nat)
    requires x in s
    ensures r < |s| && s[r] == x && x !in s[..r]
  {
    if s[0] == x then 0
    else
      assert x in s[1..];
      var k := IndexOf(s[1..], x);
      assert s[..k + 1] == [s[0]] + s[1..][..k];
      k + 1
  }

  lemma IndexOfAppend<T>(s: seq<T>, z: T, x: T)
    requires x in s
    ensures IndexOf(s + [z], x) == IndexOf(s, x)
  {
    var j := IndexOf(s, x);
    assert (s + [z])[..j] == s[..j];
    IndexOfUnique(s + [z], x, j);
  }

  /** The first occurrence is the one position holding x with no x before it. */
  lemma IndexOfUnique<T>(s: seq<T>, x: T, k: nat)
    requires k < |s| && s[k] == x && x !in s[..k]
    ensures IndexOf(s, x) == k
  {
  }

  /** x and y both occur in s, and x first occurs before y does. */
  ghost predicate FirstBefore<T>(s: seq<T>, x: T, y: T) {
    x in s && y in s && IndexOf(s, x) < IndexOf(s, y)
  }

  /** r lists elements of s in the order of their first occurrence in s. */
  ghost predicate InFirstOccurrenceOrder<T>(r: seq<T>, s: seq<T>) {
    forall i, j :: 0 <= i < j < |r| ==> FirstBefore(s, r[i], r[j])
  }

  /** The distinct elements of s, each at its first occurrence. */
  function Dedup<T(==)>(s: seq<T>): seq<T>
  {
    if s == [] then []
    else
      var d := Dedup(s[..|s| - 1]);
      if s[|s| - 1] in d then d else d + [s[|s| - 1]]
  }

  /** Every element of Dedup(s) is an element of s. */
  lemma {:induction false} DedupMember<T>(s: seq<T>, x: T)
    requires x in Dedup(s)
    ensures x in s
  {
    var p := s[..|s| - 1];
    assert s == p + [s[|s| - 1]];
    if x in Dedup(p) {
      DedupMember(p, x);
    }
  }

  /** Dedup keeps exactly the elements of s, once each, in first-occurrence order. */
  lemma {:induction false} DedupProperties<T>(s: seq<T>)
    ensures forall x :: x in Dedup(s) <==> x in s
    ensures NoDup(Dedup(s))
    ensures InFirstOccurrenceOrder(Dedup(s), s)
  {
    if s != [] {
      var p, z := s[..|s| - 1], s[|s| - 1];
      assert s == p + [z];
      DedupProperties(p);
      var d := Dedup(p);
      forall x | x in p ensures IndexOf(s, x) == IndexOf(p, x) {
        IndexOfAppend(p, z, x);
      }
      if z !in d {
        assert z !in p;
        assert IndexOf(s, z) == |p| by {
          assert s[|p|] == z;
          assert z !in s[..|p|];
        }
        var r := d + [z];
        forall i, j | 0 <= i < j < |r| ensures FirstBefore(s, r[i], r[j]) {
          if j == |r| - 1 {
            var e := d[i];
            assert r[i] == e && e in d;
            DedupMember(p, e);
            IndexOfAppend(p, z, e);
            assert IndexOf(p, e) < |p|;
          } else {
            assert r[i] == d[i] && r[j] == d[j];
          }
        }
      }
    }
  }

  /** Keeping only elements that pass f does not reorder their first occurrences. */
  lemma {:induction false} FilterIndexOrder<T(!new)>(s: seq<T>, f: T -> bool, x: T, y: T)
    requires x in s && y in s && f(x) && f(y)
    requires IndexOf(Filter(s, f), x) < IndexOf(Filter(s, f), y)
    ensures IndexOf(s, x) < IndexOf(s, y)
  {
    var fs := Filter(s, f);
    if s[0] != x && s[0] != y {
      var ft := Filter(s[1..], f);
      assert fs == (if f(s[0]) then [s[0]] else []) + ft;
      if f(s[0]) {
        assert fs[0] == s[0] && fs[1..] == ft;
        assert IndexOf(fs, x) == IndexOf(ft, x) + 1;
        assert IndexOf(fs, y) == IndexOf(ft, y) + 1;
      }
      FilterIndexOrder(s[1..], f, x, y);
    }
  }

  /** First-occurrence order with respect to a filtered sequence carries over to the whole. */
  lemma FilterFirstOccurrenceOrder<T(!new)>(r: seq<T>, s: seq<T>, f: T -> bool)
    requires InFirstOccurrenceOrder(r, Filter(s, f))
    ensures InFirstOccurrenceOrder(r, s)
  {
    forall i, j | 0 <= i < j < |r| ensures FirstBefore(s, r[i], r[j]) {
      assert FirstBefore(Filter(s, f), r[i], r[j]);
      FilterIndexOrder(s, f, r[i], r[j]);
    }
  }

  /** An element occurs at most once in a duplicate-free sequence. */
  lemma {:induction false} NoDupCount<T>(s: seq<T>, x: T)
    requires NoDup(s)
    ensures multiset(s)[x] <= 1
  {
    if s != [] {
      assert s == [s[0]] + s[1..];
      assert NoDup(s[1..]);
      NoDupCount(s[1..], x);
      if s[0] == x {
        assert x !in s[1..];
      }
    }
  }

  /** A permutation of a duplicate-free sequence is duplicate-free. */
  lemma PermutationNoDup<T>(a: seq<T>, b: seq<T>)
    requires multiset(a) == multiset(b) && NoDup(a)
    ensures NoDup(b)
  {
    forall i, j | 0 <= i < j < |b| ensures b[i] != b[j] {
      NoDupCount(a, b[i]);
      assert b == b[..j] + b[j..];
      assert b[i] in b[..j] && b[j] in b[j..];
      assert multiset(b)[b[j]] == multiset(b[..j])[b[j]] + multiset(b[j..])[b[j]];
    }
  }

  /* ---------- sorting by a strict order ---------- */

  /** before is a strict total order: irreflexive, total on distinct values, transitive. */
  ghost predicate StrictOrder<T(!new)>(before: (T, T) -> bool) {
    (forall a :: !before(a, a))
    && (forall a, b :: a != b ==> before(a, b) || before(b, a))
    && (forall a, b, c :: before(a, b) && before(b, c) ==> before(a, c))
  }

  /** Every element comes strictly before every later one. */
  predicate SortedWith<T>(s: seq<T>, before: (T, T) -> bool) {
    forall i, j :: 0 <= i < j < |s| ==> before(s[i], s[j])
  }

  /** Places x in front of the first element it comes before. */
  function InsertWith<T>(x: T, s: seq<T>, before: (T, T) -> bool): (r: seq<T>)
    ensures |r| == |s| + 1
  {
    if s == [] || before(x, s[0]) then [x] + s else [s[0]] + InsertWith(x, s[1..], before)
  }

  /** `Array.prototype.sort` with the comparator of before; its properties are SortWithCorrect. */
  function SortWith<T>(s: seq<T>, before: (T, T) -> bool): (r: seq<T>)
    ensures |r| == |s|
  {
    if s == [] then [] else InsertWith(s[0], SortWith(s[1..], before), before)
  }

  lemma {:induction false} InsertWithMultiset<T>(x: T, s: seq<T>, before: (T, T) -> bool)
    ensures multiset(InsertWith(x, s, before)) == multiset(s) + multiset{x}
  {
    if !(s == [] || before(x, s[0])) {
      InsertWithMultiset(x, s[1..], before);
      assert s == [s[0]] + s[1..];
    }
  }

  lemma {:induction false} InsertWithSorted<T(!new)>(x: T, s: seq<T>, before: (T, T) -> bool)
    requires StrictOrder(before) && SortedWith(s, before) && x !in s
    ensures SortedWith(InsertWith(x, s, before), before)
  {
    if !(s == [] || before(x, s[0])) {
      var t := InsertWith(x, s[1..], before);
      assert SortedWith(s[1..], before);
      InsertWithSorted(x, s[1..], before);
      InsertWithMultiset(x, s[1..], before);
      assert x != s[0];
      forall j | 0 <= j < |t| ensures before(s[0], t[j]) {
        assert multiset(t)[t[j]] > 0;
        assert t[j] == x || t[j] in s[1..];
      }
    }
  }

  /** Sorting a duplicate-free sequence by a strict order rearranges it into strictly
      ascending order of before. */
  lemma {:induction false} SortWithCorrect<T(!new)>(s: seq<T>, before: (T, T) -> bool)
    requires StrictOrder(before) && NoDup(s)
    ensures multiset(SortWith(s, before)) == multiset(s)
    ensures SortedWith(SortWith(s, before), before)
  {
    if s != [] {
      var t := SortWith(s[1..], before);
      assert NoDup(s[1..]);
      SortWithCorrect(s[1..], before);
      InsertWithMultiset(s[0], t, before);
      assert s == [s[0]] + s[1..];
      assert s[0] !in s[1..];
      assert s[0] !in t by {
        assert s[0] in t <==> s[0] in multiset(t);
      }
      InsertWithSorted(s[0], t, before);
    }
  }
}
