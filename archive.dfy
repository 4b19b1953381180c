/** The archive page: the list of years, the year filter, and the grouping of posts into
    `YYYY-MM` month buckets listed newest month first. */
module Archive {
  import opened Text
  import opened Seqs
  import opened Posts

  /* ---------- years ---------- */

  /** The year of each post, in list order (`posts.map(post => ...getFullYear())`). */
  function YearList(posts: seq<Post>): (r: seq<int>)
    ensures |r| == |posts| && forall i :: 0 <= i < |posts| ==> r[i] == posts[i].date.year
  {
    seq(|posts|, i requires 0 <= i < |posts| => posts[i].date.year as int)
  }

  /** The comparator `(a, b) => b - a`: a larger year goes first. */
  predicate YearAfter(a: int, b: int) {
    a > b
  }

  /** `[...new Set(years)].sort((a, b) => b - a)`. */
  function Years(posts: seq<Post>): seq<int> {
    SortWith(Dedup(YearList(posts)), YearAfter)
  }

  /** The year list holds each year of a post exactly once, in strictly descending order. */
  lemma YearsCorrect(posts: seq<Post>)
    ensures forall y :: y in Years(posts) <==> exists i :: 0 <= i < |posts| && posts[i].date.year == y
    ensures NoDup(Years(posts))
    ensures forall i, j :: 0 <= i < j < |Years(posts)| ==> Years(posts)[i] > Years(posts)[j]
  {
    var ys := YearList(posts);
    var d := Dedup(ys);
    DedupProperties(ys);
    assert StrictOrder(YearAfter);
    SortWithCorrect(d, YearAfter);
    var r := Years(posts);
    forall y ensures y in r <==> exists i :: 0 <= i < |posts| && posts[i].date.year == y {
      calc {
        y in r;
        y in multiset(r);
        y in multiset(d);
        y in d;
        y in ys;
      }
      if y in ys {
        var i :| 0 <= i < |ys| && ys[i] == y;
        assert posts[i].date.year == y;
      }
      if exists i :: 0 <= i < |posts| && posts[i].date.year == y {
        var i :| 0 <= i < |posts| && posts[i].date.year == y;
        assert ys[i] == y;
      }
    }
    PermutationNoDup(d, r);
    forall i, j | 0 <= i < j < |r| ensures r[i] > r[j] {
      assert YearAfter(r[i], r[j]);
    }
  }

  /* ---------- the year filter ---------- */

  /** The selector's value: `'all'` or one of the listed years. */
  datatype YearSelection = AllYears | InYear(year: int)

  /** `filterPosts()`: every post for `'all'`, otherwise those of the chosen year, in order. */
  function FilterPosts(all: seq<Post>, selected: YearSelection): (r: seq<Post>)
    ensures selected == AllYears ==> r == all
    ensures IsSubseq(r, all)
    ensures selected.InYear? ==> forall p :: p in r <==> p in all && p.date.year == selected.year
  {
    match selected
    case AllYears =>
      SubseqReflexive(all);
      all
    case InYear(y) => Filter(all, (p: Post) => p.date.year == y)
  }

  /* ---------- month keys ---------- */

  /** `${year}-${String(month).padStart(2, '0')}`. */
  function MonthKey(d: Date): string {
    NatToString(d.year) + "-" + PadStart2(NatToString(d.month))
  }

  /** A month below 100 is written with exactly two digits. */
  lemma TwoDigitMonth(m: nat)
    requires m < 100
    ensures PadStart2(NatToString(m)) == [DigitChar(m / 10)] + [DigitChar(m % 10)]
  {
    if m >= 10 {
      assert NatToString(m / 10) == [DigitChar(m / 10)];
    }
  }

  lemma SingleCharOrder(c: char, d: char)
    ensures StrLess([c], [d]) <==> c < d
  {
    assert [c][1..] == [] && [d][1..] == [];
  }

  /** Numbers below 100 compare by their tens digit, then their units digit. */
  lemma DigitPairOrder(m: nat, n: nat)
    requires m < 100 && n < 100
    ensures m < n <==> m / 10 < n / 10 || (m / 10 == n / 10 && m % 10 < n % 10)
    ensures m == n <==> m / 10 == n / 10 && m % 10 == n % 10
  {
    assert m == 10 * (m / 10) + m % 10 && n == 10 * (n / 10) + n % 10;
  }

  /** Two-digit strings compare like the numbers they spell. */
  lemma DigitStringOrder(m: nat, n: nat)
    requires m < 100 && n < 100
    ensures StrLess([DigitChar(m / 10)] + [DigitChar(m % 10)], [DigitChar(n / 10)] + [DigitChar(n % 10)]) <==> m < n
    ensures [DigitChar(m / 10)] + [DigitChar(m % 10)] == [DigitChar(n / 10)] + [DigitChar(n % 10)] <==> m == n
  {
    DigitPairOrder(m, n);
    var hm, lm, hn, ln := DigitChar(m / 10), DigitChar(m % 10), DigitChar(n / 10), DigitChar(n % 10);
    StrLessConcat([hm], [lm], [hn], [ln]);
    SingleCharOrder(hm, hn);
    SingleCharOrder(lm, ln);
    assert [hm] + [lm] == [hm, lm] && [hn] + [ln] == [hn, ln];
  }

  /** Two-digit forms compare like the numbers. */
  lemma TwoDigitOrder(m: nat, n: nat)
    requires m < 100 && n < 100
    ensures StrLess(PadStart2(NatToString(m)), PadStart2(NatToString(n))) <==> m < n
    ensures PadStart2(NatToString(m)) == PadStart2(NatToString(n)) <==> m == n
  {
    TwoDigitMonth(m);
    TwoDigitMonth(n);
    DigitStringOrder(m, n);
  }

  /** Keys of the shape `year-month` with years of one length and months of one length
      compare by year first, then by month. */
  lemma KeyCompare(ya: string, ma: string, yb: string, mb: string)
    requires |ya| == |yb| && |ma| == |mb|
    ensures ya + "-" + ma == yb + "-" + mb <==> ya == yb && ma == mb
    ensures StrLess(ya + "-" + ma, yb + "-" + mb) <==> StrLess(ya, yb) || (ya == yb && StrLess(ma, mb))
  {
    assert ya + "-" + ma == ya + ("-" + ma);
    assert yb + "-" + mb == yb + ("-" + mb);
    StrLessConcat(ya, "-" + ma, yb, "-" + mb);
    StrLessConcat("-", ma, "-", mb);
    StrLessTotal("-", "-");
    if ya + "-" + ma == yb + "-" + mb {
      assert ya == (ya + "-" + ma)[..|ya|] && yb == (yb + "-" + mb)[..|yb|];
      assert ma == (ya + "-" + ma)[|ya| + 1..] && mb == (yb + "-" + mb)[|yb| + 1..];
    }
  }

  /** For four-digit years and months below 100, the key separates months and orders them
      chronologically: string order on keys is (year, month) order. */
  lemma MonthKeyOrder(a: Date, b: Date)
    requires 1000 <= a.year <= 9999 && 1000 <= b.year <= 9999
    requires a.month < 100 && b.month < 100
    ensures MonthKey(a) == MonthKey(b) <==> a.year == b.year && a.month == b.month
    ensures StrLess(MonthKey(a), MonthKey(b)) <==>
              a.year < b.year || (a.year == b.year && a.month < b.month)
  {
    var ya, yb := NatToString(a.year), NatToString(b.year);
    FourDigits(a.year);
    FourDigits(b.year);
    TwoDigitOrder(a.month, b.month);
    TwoDigitMonth(a.month);
    TwoDigitMonth(b.month);
    KeyCompare(ya, PadStart2(NatToString(a.month)), yb, PadStart2(NatToString(b.month)));
    NumericOrder(a.year, b.year);
    if ya == yb {
      NatToStringInjective(a.year, b.year);
    }
  }

  /* ---------- grouping ---------- */

  /** The bucket of a post: the month key of its date. The grouping below is stated for
      any key function and used with this one. */
  function PostMonth(p: Post): string {
    MonthKey(p.date)
  }

  /** The key of each post, in list order. */
  function KeyList(posts: seq<Post>, key: Post -> string): (r: seq<string>)
    ensures |r| == |posts| && forall i :: 0 <= i < |posts| ==> r[i] == key(posts[i])
  {
    seq(|posts|, i requires 0 <= i < |posts| => key(posts[i]))
  }

  /** The bucket keys in the order the buckets are created: each key at its first post. */
  function GroupKeys(posts: seq<Post>, key: Post -> string): seq<string> {
    Dedup(KeyList(posts, key))
  }

  /** The posts with key k, in the order they are pushed onto bucket k. */
  function InGroup(posts: seq<Post>, k: string, key: Post -> string): seq<Post> {
    if posts == [] then []
    else
      var last := posts[|posts| - 1];
      InGroup(posts[..|posts| - 1], k, key) + (if key(last) == k then [last] else [])
  }

  lemma InGroupAppend(posts: seq<Post>, x: Post, k: string, key: Post -> string)
    ensures InGroup(posts + [x], k, key) == InGroup(posts, k, key) + (if key(x) == k then [x] else [])
  {
    assert (posts + [x])[..|posts|] == posts;
  }

  lemma {:induction false} InGroupMembers(posts: seq<Post>, k: string, key: Post -> string)
    ensures forall p :: p in InGroup(posts, k, key) <==> p in posts && key(p) == k
    ensures InGroup(posts, k, key) == [] <==> forall p :: p in posts ==> key(p) != k
  {
    if posts != [] {
      var init := posts[..|posts| - 1];
      InGroupMembers(init, k, key);
      assert posts == init + [posts[|posts| - 1]];
    }
  }

  lemma GroupKeysMembers(posts: seq<Post>, key: Post -> string)
    ensures forall k :: k in GroupKeys(posts, key) <==> exists p :: p in posts && key(p) == k
    ensures NoDup(GroupKeys(posts, key))
  {
    var ks := KeyList(posts, key);
    DedupProperties(ks);
    forall k ensures k in ks <==> exists p :: p in posts && key(p) == k {
      if k in ks {
        var i :| 0 <= i < |ks| && ks[i] == k;
        assert posts[i] in posts;
      }
      if exists p :: p in posts && key(p) == k {
        var p :| p in posts && key(p) == k;
        var i :| 0 <= i < |posts| && posts[i] == p;
        assert ks[i] == k;
      }
    }
  }

  lemma GroupKeysAppend(posts: seq<Post>, x: Post, key: Post -> string)
    ensures GroupKeys(posts + [x], key) ==
              if key(x) in GroupKeys(posts, key) then GroupKeys(posts, key) else GroupKeys(posts, key) + [key(x)]
  {
    var ks := KeyList(posts + [x], key);
    assert ks[..|posts|] == KeyList(posts, key);
    assert ks[|ks| - 1] == key(x);
  }

  /** What one more post does to the keys and the buckets. */
  lemma GroupStep(posts: seq<Post>, x: Post, key: Post -> string)
    ensures GroupKeys(posts + [x], key) ==
              if key(x) in GroupKeys(posts, key) then GroupKeys(posts, key) else GroupKeys(posts, key) + [key(x)]
    ensures key(x) !in GroupKeys(posts, key) ==> InGroup(posts, key(x), key) == []
    ensures forall k :: InGroup(posts + [x], k, key) == InGroup(posts, k, key) + (if key(x) == k then [x] else [])
  {
    GroupKeysAppend(posts, x, key);
    GroupKeysMembers(posts, key);
    InGroupMembers(posts, key(x), key);
    forall k ensures InGroup(posts + [x], k, key) == InGroup(posts, k, key) + (if key(x) == k then [x] else []) {
      InGroupAppend(posts, x, k, key);
    }
  }

  /** One step of the `reduce`: with the keys and buckets of `posts`, opening the bucket of
      x's key when it is new and pushing x onto it gives the keys and buckets of posts + [x]. */
  lemma PushStep(posts: seq<Post>, x: Post, key: Post -> string, keys: seq<string>, buckets: map<string, seq<Post>>)
    requires keys == GroupKeys(posts, key)
    requires forall k :: k in buckets <==> k in keys
    requires forall k :: k in buckets ==> buckets[k] == InGroup(posts, k, key)
    ensures (if key(x) in buckets then keys else keys + [key(x)]) == GroupKeys(posts + [x], key)
    ensures forall k :: k in buckets[key(x) := (if key(x) in buckets then buckets[key(x)] else []) + [x]] <==>
              k in GroupKeys(posts + [x], key)
    ensures forall k :: k in buckets[key(x) := (if key(x) in buckets then buckets[key(x)] else []) + [x]] ==>
              buckets[key(x) := (if key(x) in buckets then buckets[key(x)] else []) + [x]][k] == InGroup(posts + [x], k, key)
  {
    GroupStep(posts, x, key);
    var k := key(x);
    var b := buckets[k := (if k in buckets then buckets[k] else []) + [x]];
    forall k2 | k2 in b ensures b[k2] == InGroup(posts + [x], k2, key) {
      if k2 != k {
        assert b[k2] == buckets[k2];
      }
    }
  }

  /** The `reduce` of groupPostsByDate: creates bucket k at the first post with key k and
      pushes every post onto the bucket of its key. The object's keys, in creation order, are
      returned beside it. */
  method PushByKey(posts: seq<Post>, key: Post -> string) returns (keys: seq<string>, buckets: map<string, seq<Post>>)
    ensures keys == GroupKeys(posts, key)
    ensures forall k :: k in buckets <==> k in keys
    ensures forall k :: k in buckets ==> buckets[k] == InGroup(posts, k, key)
  {
    keys := [];
    buckets := map[];
    var i := 0;
    while i < |posts|
      invariant 0 <= i <= |posts|
      invariant keys == GroupKeys(posts[..i], key)
      invariant forall k :: k in buckets <==> k in keys
      invariant forall k :: k in buckets ==> buckets[k] == InGroup(posts[..i], k, key)
    {
      var post := posts[i];
      var k := key(post);
      assert posts[..i + 1] == posts[..i] + [post];
      PushStep(posts[..i], post, key, keys, buckets);
      var bucket := if k in buckets then buckets[k] else [];
      if k !in buckets {
        keys := keys + [k];
      }
      buckets := buckets[k := bucket + [post]];
      i := i + 1;
    }
    assert posts[..|posts|] == posts;
  }

  /** The `forEach` of groupPostsByDate: sorts every bucket by date, newest first. */
  method SortBuckets(keys: seq<string>, buckets: map<string, seq<Post>>) returns (sorted: map<string, seq<Post>>)
    requires NoDup(keys) && forall k :: k in buckets <==> k in keys
    ensures forall k :: k in sorted <==> k in keys
    ensures forall k :: k in sorted ==> sorted[k] == SortByDate(buckets[k], Newest)
  {
    sorted := buckets;
    var j := 0;
    while j < |keys|
      invariant 0 <= j <= |keys|
      invariant forall k :: k in sorted <==> k in keys
      invariant forall n :: 0 <= n < j ==> sorted[keys[n]] == SortByDate(buckets[keys[n]], Newest)
      invariant forall n :: j <= n < |keys| ==> sorted[keys[n]] == buckets[keys[n]]
    {
      sorted := sorted[keys[j] := SortByDate(sorted[keys[j]], Newest)];
      j := j + 1;
    }
    forall k | k in sorted ensures sorted[k] == SortByDate(buckets[k], Newest) {
      var n :| 0 <= n < |keys| && keys[n] == k;
    }
  }

  /** `groupPostsByDate(posts)`: one bucket per month key, holding that month's posts
      newest first, with the keys in creation order. */
  method GroupPostsByDate(posts: seq<Post>) returns (keys: seq<string>, buckets: map<string, seq<Post>>)
    ensures keys == GroupKeys(posts, PostMonth)
    ensures forall k :: k in buckets <==> k in keys
    ensures forall k :: k in buckets ==> buckets[k] == SortByDate(InGroup(posts, k, PostMonth), Newest)
  {
    var pushed;
    keys, pushed := PushByKey(posts, PostMonth);
    GroupKeysMembers(posts, PostMonth);
    buckets := SortBuckets(keys, pushed);
  }

  /** Summed bucket sizes over a list of keys. */
  function BucketSizes(posts: seq<Post>, keys: seq<string>, key: Post -> string): nat {
    if keys == [] then 0
    else BucketSizes(posts, keys[..|keys| - 1], key) + |InGroup(posts, keys[|keys| - 1], key)|
  }

  lemma {:induction false} BucketSizesAppend(posts: seq<Post>, x: Post, keys: seq<string>, key: Post -> string)
    requires NoDup(keys)
    ensures BucketSizes(posts + [x], keys, key) ==
              BucketSizes(posts, keys, key) + (if key(x) in keys then 1 else 0)
  {
    if keys != [] {
      var init, k := keys[..|keys| - 1], keys[|keys| - 1];
      assert keys == init + [k];
      assert NoDup(init);
      BucketSizesAppend(posts, x, init, key);
      InGroupAppend(posts, x, k, key);
    }
  }

  /** Grouping is a partition: every post is in the bucket of its own key and in no other,
      and no bucket is empty. */
  lemma GroupingPartition(posts: seq<Post>, key: Post -> string)
    ensures forall p :: p in posts ==> key(p) in GroupKeys(posts, key) && p in InGroup(posts, key(p), key)
    ensures forall p, k :: p in posts && k != key(p) ==> p !in InGroup(posts, k, key)
    ensures forall k :: k in GroupKeys(posts, key) ==> InGroup(posts, k, key) != []
  {
    GroupKeysMembers(posts, key);
    forall k ensures forall p :: p in InGroup(posts, k, key) <==> p in posts && key(p) == k {
      InGroupMembers(posts, k, key);
    }
  }

  /** The bucket sizes add up to the number of posts grouped, the count the page shows. */
  lemma {:induction false} GroupingCount(posts: seq<Post>, key: Post -> string)
    ensures BucketSizes(posts, GroupKeys(posts, key), key) == |posts|
  {
    if posts != [] {
      var init, x := posts[..|posts| - 1], posts[|posts| - 1];
      assert posts == init + [x];
      GroupingCount(init, key);
      GroupStep(init, x, key);
      GroupKeysMembers(init, key);
      var ks := GroupKeys(init, key);
      BucketSizesAppend(init, x, ks, key);
      if key(x) !in ks {
        InGroupAppend(init, x, key(x), key);
        assert (ks + [key(x)])[..|ks|] == ks;
        BucketSizesAppend(init, x, ks, key);
      }
    }
  }

  /** Each bucket is its key's posts sorted newest first: a permutation of what was pushed,
      never with an older post before a newer one, posts of one day in push order. */
  lemma BucketCorrect(posts: seq<Post>, k: string, key: Post -> string)
    ensures multiset(SortByDate(InGroup(posts, k, key), Newest)) == multiset(InGroup(posts, k, key))
    ensures SortedBy(SortByDate(InGroup(posts, k, key), Newest), Newest)
    ensures forall d :: OnDate(SortByDate(InGroup(posts, k, key), Newest), d) == OnDate(InGroup(posts, k, key), d)
    ensures forall p :: p in SortByDate(InGroup(posts, k, key), Newest) ==> p in posts && key(p) == k
  {
    SortByDateCorrect(InGroup(posts, k, key), Newest);
    InGroupMembers(posts, k, key);
    var r := SortByDate(InGroup(posts, k, key), Newest);
    assert forall p :: p in r <==> p in multiset(r);
    assert forall p :: p in InGroup(posts, k, key) <==> p in multiset(InGroup(posts, k, key));
  }

  /* ---------- month order ---------- */

  /** The comparator `(a, b) => b.localeCompare(a)`: the greater key goes first. */
  predicate KeyAfter(a: string, b: string) {
    StrLess(b, a)
  }

  lemma KeyAfterOrder()
    ensures StrictOrder(KeyAfter)
  {
    forall a ensures !KeyAfter(a, a) {
      StrLessTotal(a, a);
    }
    forall a, b | a != b ensures KeyAfter(a, b) || KeyAfter(b, a) {
      StrLessTotal(a, b);
    }
    forall a, b, c | KeyAfter(a, b) && KeyAfter(b, c) ensures KeyAfter(a, c) {
      StrLessTransitive(c, b, a);
    }
  }

  /** `Object.keys(groupedPosts).sort((a, b) => b.localeCompare(a))`. */
  function SortedMonths(keys: seq<string>): seq<string> {
    SortWith(keys, KeyAfter)
  }

  /** The sorted months list every bucket key once, in strictly descending string order;
      with MonthKeyOrder this is newest month first. */
  lemma SortedMonthsCorrect(posts: seq<Post>)
    ensures forall k :: k in SortedMonths(GroupKeys(posts, PostMonth)) <==> k in GroupKeys(posts, PostMonth)
    ensures NoDup(SortedMonths(GroupKeys(posts, PostMonth)))
    ensures forall i, j :: 0 <= i < j < |SortedMonths(GroupKeys(posts, PostMonth))| ==>
              StrLess(SortedMonths(GroupKeys(posts, PostMonth))[j], SortedMonths(GroupKeys(posts, PostMonth))[i])
  {
    var ks := GroupKeys(posts, PostMonth);
    GroupKeysMembers(posts, PostMonth);
    KeyAfterOrder();
    SortWithCorrect(ks, KeyAfter);
    var r := SortedMonths(ks);
    assert forall k :: k in r <==> k in multiset(r);
    assert forall k :: k in ks <==> k in multiset(ks);
    PermutationNoDup(ks, r);
    assert SortedWith(r, KeyAfter);
  }

  /** For four-digit years, a month listed earlier is a later calendar month than one listed
      after it: descending key order is newest month first. */
  lemma SortedMonthsChronological(posts: seq<Post>, i: nat, j: nat, p: Post, q: Post)
    requires i < j < |SortedMonths(GroupKeys(posts, PostMonth))|
    requires PostMonth(p) == SortedMonths(GroupKeys(posts, PostMonth))[i]
    requires PostMonth(q) == SortedMonths(GroupKeys(posts, PostMonth))[j]
    requires 1000 <= p.date.year <= 9999 && 1000 <= q.date.year <= 9999
    requires p.date.month < 100 && q.date.month < 100
    ensures q.date.year < p.date.year || (q.date.year == p.date.year && q.date.month < p.date.month)
  {
    SortedMonthsCorrect(posts);
    MonthKeyOrder(q.date, p.date);
  }
}
