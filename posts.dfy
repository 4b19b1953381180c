/** The post record and the date order every view sorts by.

    A post's `date` is an ISO `YYYY-MM-DD` string in the source, turned into a timestamp by
    `new Date(...)` before comparing; here it is the already-parsed calendar triple, and
    comparing timestamps of valid dates is comparing the triples lexicographically. */
module Posts {
  import opened Wrappers
  import opened Seqs

  datatype Date = Date(year: nat, month: nat, day: nat)

  /** The fields the query layer reads; `likes` is optional, as `post.likes` may be absent. */
  datatype Post = Post(
    id: int,
    title: string,
    summary: string,
    date: Date,
    tags: seq<string>,
    likes: Option<int>)

  /** a is a strictly earlier day than b. */
  predicate Earlier(a: Date, b: Date) {
    a.year < b.year
    || (a.year == b.year && (a.month < b.month || (a.month == b.month && a.day < b.day)))
  }

  /** The two list orders: by date descending (`newest`) or ascending (`oldest`). */
  datatype Order = Newest | Oldest {
    function Flip(): (r: Order)
      ensures r != this
    {
      if this == Newest then Oldest else Newest
    }
  }

  /** A post dated a may be listed before one dated b: the comparator does not put it after. */
  predicate Precedes(a: Date, b: Date, o: Order) {
    match o
    case Newest => !Earlier(a, b)
    case Oldest => !Earlier(b, a)
  }

  ghost predicate SortedBy(s: seq<Post>, o: Order) {
    forall i, j :: 0 <= i < j < |s| ==> Precedes(s[i].date, s[j].date, o)
  }

  /** The posts of s dated d, in their order in s. */
  function OnDate(s: seq<Post>, d: Date): seq<Post> {
    Filter(s, (p: Post) => p.date == d)
  }

  lemma OnDateCons(x: Post, s: seq<Post>, d: Date)
    ensures OnDate([x] + s, d) == if x.date == d then [x] + OnDate(s, d) else OnDate(s, d)
  {
    assert ([x] + s)[0] == x && ([x] + s)[1..] == s;
  }

  /** Places x before the first element it may precede, that is, after every element the
      comparator puts strictly before it: equal dates keep x first. */
  function Insert(x: Post, s: seq<Post>, o: Order): (r: seq<Post>)
    ensures |r| == |s| + 1
  {
    if s == [] || Precedes(x.date, s[0].date, o) then [x] + s
    else [s[0]] + Insert(x, s[1..], o)
  }

  lemma {:induction false} InsertMultiset(x: Post, s: seq<Post>, o: Order)
    ensures multiset(Insert(x, s, o)) == multiset(s) + multiset{x}
  {
    if !(s == [] || Precedes(x.date, s[0].date, o)) {
      InsertMultiset(x, s[1..], o);
      assert s == [s[0]] + s[1..];
    }
  }

  lemma {:induction false} InsertSorted(x: Post, s: seq<Post>, o: Order)
    requires SortedBy(s, o)
    ensures SortedBy(Insert(x, s, o), o)
  {
    if !(s == [] || Precedes(x.date, s[0].date, o)) {
      var t := Insert(x, s[1..], o);
      InsertSorted(x, s[1..], o);
      InsertMultiset(x, s[1..], o);
      forall j | 0 <= j < |t| ensures Precedes(s[0].date, t[j].date, o) {
        assert multiset(t)[t[j]] > 0;
        assert t[j] == x || t[j] in s[1..];
      }
    }
  }

  lemma {:induction false} InsertOnDate(x: Post, s: seq<Post>, o: Order, d: Date)
    ensures OnDate(Insert(x, s, o), d) == if x.date == d then [x] + OnDate(s, d) else OnDate(s, d)
  {
    if s == [] || Precedes(x.date, s[0].date, o) {
      OnDateCons(x, s, d);
    } else {
      var t := Insert(x, s[1..], o);
      InsertOnDate(x, s[1..], o, d);
      OnDateCons(s[0], t, d);
      OnDateCons(s[0], s[1..], d);
      assert s == [s[0]] + s[1..];
    }
  }

  /** `Array.prototype.sort` with the date comparator of order o (a stable sort); its
      properties are SortByDateCorrect. */
  function SortByDate(s: seq<Post>, o: Order): (r: seq<Post>)
    ensures |r| == |s|
  {
    if s == [] then [] else Insert(s[0], SortByDate(s[1..], o), o)
  }

  lemma {:induction false} SortByDateOnDate(s: seq<Post>, o: Order, d: Date)
    ensures OnDate(SortByDate(s, o), d) == OnDate(s, d)
  {
    if s != [] {
      SortByDateOnDate(s[1..], o, d);
      InsertOnDate(s[0], SortByDate(s[1..], o), o, d);
      OnDateCons(s[0], s[1..], d);
      assert s == [s[0]] + s[1..];
    }
  }

  /** The sorted list is a permutation of the input, ordered by o, and posts sharing a date
      keep their input order (stability). */
  lemma {:induction false} SortByDateCorrect(s: seq<Post>, o: Order)
    ensures multiset(SortByDate(s, o)) == multiset(s)
    ensures SortedBy(SortByDate(s, o), o)
    ensures forall d :: OnDate(SortByDate(s, o), d) == OnDate(s, d)
  {
    if s != [] {
      var t := SortByDate(s[1..], o);
      SortByDateCorrect(s[1..], o);
      InsertMultiset(s[0], t, o);
      InsertSorted(s[0], t, o);
      assert s == [s[0]] + s[1..];
    }
    forall d ensures OnDate(SortByDate(s, o), d) == OnDate(s, d) {
      SortByDateOnDate(s, o, d);
    }
  }

  /** A sorted list's head may precede each of its elements. */
  lemma SortedHead(s: seq<Post>, o: Order, x: Post)
    requires SortedBy(s, o) && x in s
    ensures Precedes(s[0].date, x.date, o)
  {
    var i :| 0 <= i < |s| && s[i] == x;
  }

  /** Being sorted by date and keeping the order of each date's posts determines the list:
      any two such arrangements of the same posts are equal. So SortByDate is the one stable
      sort. */
  lemma {:induction false} StableSortUnique(a: seq<Post>, b: seq<Post>, o: Order)
    requires SortedBy(a, o) && SortedBy(b, o)
    requires forall d :: OnDate(a, d) == OnDate(b, d)
    ensures a == b
  {
    if a != [] {
      assert a == [a[0]] + a[1..];
      OnDateCons(a[0], a[1..], a[0].date);
      assert a[0] in OnDate(b, a[0].date);
    }
    if b != [] {
      assert b == [b[0]] + b[1..];
      OnDateCons(b[0], b[1..], b[0].date);
      assert b[0] in OnDate(a, b[0].date);
    }
    if a != [] && b != [] {
      var da, db := a[0].date, b[0].date;
      SortedHead(b, o, a[0]);
      SortedHead(a, o, b[0]);
      assert da == db;
      assert a[0] == b[0];
      forall d ensures OnDate(a[1..], d) == OnDate(b[1..], d) {
        OnDateCons(a[0], a[1..], d);
        OnDateCons(b[0], b[1..], d);
      }
      StableSortUnique(a[1..], b[1..], o);
    }
  }

  /** Sorting a list already in order o returns it unchanged. */
  lemma SortSortedIsIdentity(s: seq<Post>, o: Order)
    requires SortedBy(s, o)
    ensures SortByDate(s, o) == s
  {
    SortByDateCorrect(s, o);
    StableSortUnique(SortByDate(s, o), s, o);
  }

  /** Re-sorting forgets the previous order: ties keep their order through both stable
      sorts, so sorting a sorted list by o2 is sorting the original by o2. */
  lemma ResortForgets(s: seq<Post>, o1: Order, o2: Order)
    ensures SortByDate(SortByDate(s, o1), o2) == SortByDate(s, o2)
  {
    SortByDateCorrect(s, o1);
    SortByDateCorrect(SortByDate(s, o1), o2);
    SortByDateCorrect(s, o2);
    StableSortUnique(SortByDate(SortByDate(s, o1), o2), SortByDate(s, o2), o2);
  }

  /** Deleting posts from a sorted list leaves it sorted. */
  lemma {:induction false} SubseqSorted(a: seq<Post>, b: seq<Post>, o: Order)
    requires IsSubseq(a, b) && SortedBy(b, o)
    ensures SortedBy(a, o)
  {
    if a != [] {
      assert SortedBy(b[1..], o);
      if a[0] == b[0] && IsSubseq(a[1..], b[1..]) {
        SubseqSorted(a[1..], b[1..], o);
        SubseqElements(a[1..], b[1..]);
        forall j | 0 < j < |a| ensures Precedes(a[0].date, a[j].date, o) {
          assert a[j] == a[1..][j - 1];
          assert a[j] in b[1..];
        }
      } else {
        SubseqSorted(a, b[1..], o);
      }
    }
  }
}
