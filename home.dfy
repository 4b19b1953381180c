/** The home feed: the search box, the search history and the sort toggle over the
    displayed posts. */
module Home {
  import opened Wrappers
  import opened Text
  import opened Seqs
  import opened Posts
  import opened BlogPosts

  /* ---------- search history ---------- */

  /** The history keeps at most this many entries (`slice(0, 10)`). */
  const HistoryLimit: nat := 10

  /** `prev.filter(item => item !== value)`. */
  function WithoutValue(prev: seq<string>, value: string): (r: seq<string>)
    ensures value !in r
    ensures forall x :: x in r <==> x in prev && x != value
    ensures IsSubseq(r, prev)
  {
    Filter(prev, (item: string) => item != value)
  }

  /** `[value, ...prev.filter(item => item !== value)].slice(0, 10)`. */
  function NextHistory(prev: seq<string>, value: string): seq<string> {
    var entries := [value] + WithoutValue(prev, value);
    entries[..if |entries| < HistoryLimit then |entries| else HistoryLimit]
  }

  /** The new history starts with the query, holds it nowhere else and has at most ten
      entries. */
  lemma NextHistoryHead(prev: seq<string>, value: string)
    ensures NextHistory(prev, value) != [] && NextHistory(prev, value)[0] == value
    ensures forall i :: 0 < i < |NextHistory(prev, value)| ==> NextHistory(prev, value)[i] != value
    ensures |NextHistory(prev, value)| <= HistoryLimit
  {
    var w := WithoutValue(prev, value);
    var r := NextHistory(prev, value);
    forall i | 0 < i < |r| ensures r[i] != value {
      assert r[i] == w[i - 1];
    }
  }

  /** The other entries are the earlier ones in their earlier order with the copies of the
      query taken out, cut at the tenth slot: an earlier entry that is neither the query nor
      in the new history was cut off by the limit. */
  lemma NextHistoryRest(prev: seq<string>, value: string)
    ensures NextHistory(prev, value)[1..] == WithoutValue(prev, value)[..|NextHistory(prev, value)| - 1]
    ensures IsSubseq(NextHistory(prev, value)[1..], prev)
    ensures |NextHistory(prev, value)| == if |WithoutValue(prev, value)| + 1 < HistoryLimit then |WithoutValue(prev, value)| + 1 else HistoryLimit
    ensures forall x :: x in prev && x != value && x !in NextHistory(prev, value) ==> |NextHistory(prev, value)| == HistoryLimit
  {
    var w := WithoutValue(prev, value);
    var r := NextHistory(prev, value);
    NextHistoryHead(prev, value);
    assert r[1..] == w[..|r| - 1];
    SubseqPrefix(w, prev, |r| - 1);
    assert |r| < HistoryLimit ==> r[1..] == w;
    forall x | x in prev && x != value && x !in r ensures |r| == HistoryLimit {
      assert x in w;
      assert x !in r[1..];
    }
  }

  /** A history without duplicates stays without duplicates. */
  lemma NextHistoryNoDup(prev: seq<string>, value: string)
    requires NoDup(prev)
    ensures NoDup(NextHistory(prev, value))
  {
    var w := WithoutValue(prev, value);
    var r := NextHistory(prev, value);
    SubseqNoDup(w, prev);
    NextHistoryHead(prev, value);
    NextHistoryRest(prev, value);
    forall i, j | 0 <= i < j < |r| ensures r[i] != r[j] {
      if i > 0 {
        assert r[i] == w[i - 1] && r[j] == w[j - 1];
      }
    }
  }

  /** Searching the same query twice in a row leaves the history as after the first. */
  lemma NextHistoryIdempotent(prev: seq<string>, value: string)
    ensures NextHistory(NextHistory(prev, value), value) == NextHistory(prev, value)
  {
    var r := NextHistory(prev, value);
    NextHistoryHead(prev, value);
    assert r == [value] + r[1..];
    assert WithoutValue(r, value) == r[1..] by {
      FilterAllPass(r[1..], (item: string) => item != value);
    }
  }

  /** Searching the entry at the head of a duplicate-free history of at most ten entries
      leaves the history unchanged. */
  lemma NextHistoryHeadAgain(prev: seq<string>)
    requires prev != [] && NoDup(prev) && |prev| <= HistoryLimit
    ensures NextHistory(prev, prev[0]) == prev
  {
    var v := prev[0];
    assert prev == [v] + prev[1..];
    assert forall i :: 0 <= i < |prev[1..]| ==> prev[1..][i] != v by {
      forall i | 0 <= i < |prev[1..]| ensures prev[1..][i] != v {
        assert prev[1..][i] == prev[i + 1];
      }
    }
    assert WithoutValue(prev, v) == prev[1..] by {
      FilterAllPass(prev[1..], (item: string) => item != v);
    }
  }

  /** A history with no repeats and at most ten entries: what searching and clearing
      produce. */
  ghost predicate HistoryShape(h: seq<string>) {
    NoDup(h) && |h| <= HistoryLimit
  }

  /** A search keeps the history's shape, and searching its head changes nothing. */
  lemma NextHistoryKeepsShape(prev: seq<string>, value: string)
    ensures HistoryShape(prev) ==> HistoryShape(NextHistory(prev, value))
    ensures HistoryShape(prev) && prev != [] && value == prev[0] ==> NextHistory(prev, value) == prev
  {
    NextHistoryHead(prev, value);
    if HistoryShape(prev) {
      NextHistoryNoDup(prev, value);
      if prev != [] && value == prev[0] {
        NextHistoryHeadAgain(prev);
      }
    }
  }

  /* ---------- the page ---------- */

  /** The state of the home page. `store` is the post collection the content index serves. */
  class HomePage {
    const store: seq<Post>
    var searchText: string
    var displayPosts: seq<Post>
    var searchHistory: seq<string>
    var sortOrder: Order

    /** Initial state: empty box, every post newest first, the saved history (none when
        nothing was saved), newest-first order. */
    constructor(store: seq<Post>, saved: Option<seq<string>>)
      ensures this.store == store
      ensures searchText == "" && displayPosts == GetAllPosts(store)
      ensures searchHistory == saved.GetOr([]) && sortOrder == Newest
      ensures InOrder()
      ensures HistoryShape(saved.GetOr([])) ==> HistoryOk()
    {
      SortByDateCorrect(store, Newest);
      this.store := store;
      searchText := "";
      displayPosts := GetAllPosts(store);
      searchHistory := saved.GetOr([]);
      sortOrder := Newest;
    }

    /** The displayed list is in the order the sort button shows. */
    ghost predicate InOrder()
      reads this
    {
      SortedBy(displayPosts, sortOrder)
    }

    /** The history has the shape every handler leaves it in. */
    ghost predicate HistoryOk()
      reads this
    {
      HistoryShape(searchHistory)
    }

    /** `handleSearch(value)`: a query that is not blank is recorded in the history,
        untrimmed, and its results are shown; a blank one keeps the history and shows every
        post. The sort order is left as it is. */
    method HandleSearch(value: string)
      modifies this
      ensures searchText == old(searchText) && sortOrder == old(sortOrder)
      ensures IsBlank(value) ==> searchHistory == old(searchHistory) && displayPosts == GetAllPosts(store)
      ensures !IsBlank(value) ==>
                searchHistory == NextHistory(old(searchHistory), value) && displayPosts == SearchPosts(store, value)
      ensures old(HistoryOk()) ==> HistoryOk()
      ensures old(HistoryOk()) && old(searchHistory) != [] && value == old(searchHistory)[0] ==>
                searchHistory == old(searchHistory)
    {
      TrimEmptyIffBlank(value);
      if value != "" && Trim(value) != "" {
        NextHistoryKeepsShape(searchHistory, value);
        searchHistory := NextHistory(searchHistory, value);
        displayPosts := SearchPosts(store, value);
      } else {
        displayPosts := GetAllPosts(store);
      }
    }

    /** handleSearch as evidently intended: the same history update, with the shown list
        in the current sort order. Under newest-first it shows what handleSearch shows. */
    method HandleSearchInOrder(value: string)
      modifies this
      ensures searchText == old(searchText) && sortOrder == old(sortOrder)
      ensures IsBlank(value) ==> searchHistory == old(searchHistory) && displayPosts == SortByDate(GetAllPosts(store), sortOrder)
      ensures !IsBlank(value) ==>
                searchHistory == NextHistory(old(searchHistory), value)
                && displayPosts == SortByDate(SearchPosts(store, value), sortOrder)
      ensures sortOrder == Newest ==>
                displayPosts == if IsBlank(value) then GetAllPosts(store) else SearchPosts(store, value)
      ensures InOrder()
      ensures old(HistoryOk()) ==> HistoryOk()
    {
      TrimEmptyIffBlank(value);
      var results;
      if value != "" && Trim(value) != "" {
        NextHistoryKeepsShape(searchHistory, value);
        searchHistory := NextHistory(searchHistory, value);
        results := SearchPosts(store, value);
        SearchPostsNewestFirst(store, value);
      } else {
        results := GetAllPosts(store);
        SortByDateCorrect(store, Newest);
      }
      SortByDateCorrect(results, sortOrder);
      if sortOrder == Newest {
        SortSortedIsIdentity(results, Newest);
      }
      displayPosts := SortByDate(results, sortOrder);
    }

    /** `handleSearchChange`: typing only updates the box. */
    method HandleSearchChange(value: string)
      modifies this
      ensures searchText == value
      ensures displayPosts == old(displayPosts) && searchHistory == old(searchHistory) && sortOrder == old(sortOrder)
    {
      searchText := value;
    }

    /** Picking a history entry or clicking a tag: puts it in the box and searches it. */
    method SelectQuery(value: string)
      modifies this
      ensures searchText == value && sortOrder == old(sortOrder)
      ensures IsBlank(value) ==> searchHistory == old(searchHistory) && displayPosts == GetAllPosts(store)
      ensures !IsBlank(value) ==>
                searchHistory == NextHistory(old(searchHistory), value) && displayPosts == SearchPosts(store, value)
      ensures old(HistoryOk()) ==> HistoryOk()
      ensures old(HistoryOk()) && old(searchHistory) != [] && value == old(searchHistory)[0] ==>
                searchHistory == old(searchHistory)
    {
      searchText := value;
      HandleSearch(value);
    }

    /** The history's clear action. */
    method ClearHistory()
      modifies this
      ensures searchHistory == [] && HistoryOk()
      ensures searchText == old(searchText) && displayPosts == old(displayPosts) && sortOrder == old(sortOrder)
    {
      searchHistory := [];
    }

    /** The sort button: flips the order and re-sorts a copy of the displayed posts by it. */
    method ToggleSort()
      modifies this
      ensures sortOrder == old(sortOrder).Flip()
      ensures displayPosts == SortByDate(old(displayPosts), sortOrder)
      ensures searchText == old(searchText) && searchHistory == old(searchHistory)
      ensures InOrder()
    {
      SortByDateCorrect(displayPosts, sortOrder.Flip());
      var newOrder := sortOrder.Flip();
      sortOrder := newOrder;
      displayPosts := SortByDate(displayPosts, newOrder);
    }
  }

  /** After the toggle the list holds the same posts, in the new order, ties as before. */
  lemma ToggleSortCorrect(shown: seq<Post>, o: Order)
    ensures multiset(SortByDate(shown, o.Flip())) == multiset(shown)
    ensures SortedBy(SortByDate(shown, o.Flip()), o.Flip())
    ensures forall d :: OnDate(SortByDate(shown, o.Flip()), d) == OnDate(shown, d)
  {
    SortByDateCorrect(shown, o.Flip());
  }

  /** Toggling twice shows the list of the first toggle's input re-sorted in the original
      order; a list that was in that order comes back unchanged. */
  lemma ToggleTwice(shown: seq<Post>, o: Order)
    ensures SortByDate(SortByDate(shown, o.Flip()), o.Flip().Flip()) == SortByDate(shown, o)
    ensures SortedBy(shown, o) ==> SortByDate(SortByDate(shown, o.Flip()), o.Flip().Flip()) == shown
  {
    assert o.Flip().Flip() == o;
    ResortForgets(shown, o.Flip(), o);
    if SortedBy(shown, o) {
      SortSortedIsIdentity(shown, o);
    }
  }
}
