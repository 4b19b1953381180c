/** The content index: read-only queries over the fixed post collection `blogPosts`.

    The collection is an object from integer keys to posts whose `id` equals the key;
    `Object.values` lists integer keys in ascending order, so the store is modelled as the
    sequence of posts in ascending id order (ValidStore). */
module BlogPosts {
  import opened Wrappers
  import opened Text
  import opened Seqs
  import opened Posts

  /** Keys are non-negative integers listed in ascending order, hence distinct. */
  ghost predicate ValidStore(store: seq<Post>) {
    (forall i :: 0 <= i < |store| ==> store[i].id >= 0)
    && (forall i, j :: 0 <= i < j < |store| ==> store[i].id < store[j].id)
  }

  lemma ValidStoreNoDup(store: seq<Post>)
    requires ValidStore(store)
    ensures NoDup(store)
  {
    forall i, j | 0 <= i < j < |store| ensures store[i] != store[j] {
      assert store[i].id < store[j].id;
    }
  }

  /* ---------- getAllPosts ---------- */

  /** `getAllPosts()`: the stored posts sorted by date, newest first. */
  function GetAllPosts(store: seq<Post>): seq<Post> {
    SortByDate(store, Newest)
  }

  /** getAllPosts is a permutation of the store in which every post is at least as recent
      as the next, and posts of one day stay in key order. */
  lemma GetAllPostsCorrect(store: seq<Post>)
    ensures multiset(GetAllPosts(store)) == multiset(store)
    ensures forall i :: 0 < i < |GetAllPosts(store)| ==>
              !Earlier(GetAllPosts(store)[i - 1].date, GetAllPosts(store)[i].date)
    ensures forall i, j :: 0 <= i < j < |GetAllPosts(store)| ==>
              !Earlier(GetAllPosts(store)[i].date, GetAllPosts(store)[j].date)
    ensures forall d :: OnDate(GetAllPosts(store), d) == OnDate(store, d)
  {
    SortByDateCorrect(store, Newest);
  }

  /** Every post in the store is in getAllPosts, once when the store is valid. */
  lemma GetAllPostsMembers(store: seq<Post>)
    ensures forall p :: p in GetAllPosts(store) <==> p in store
    ensures ValidStore(store) ==> NoDup(GetAllPosts(store))
  {
    SortByDateCorrect(store, Newest);
    var r := GetAllPosts(store);
    assert forall p :: p in r <==> p in multiset(r);
    assert forall p :: p in store <==> p in multiset(store);
    if ValidStore(store) {
      ValidStoreNoDup(store);
      PermutationNoDup(store, r);
    }
  }

  /* ---------- getPost ---------- */

  /** `getPost(id)`: the post stored under id, or None (`null`) when there is none. */
  function GetPost(store: seq<Post>, id: int): (r: Option<Post>)
    ensures r.Some? <==> exists i :: 0 <= i < |store| && store[i].id == id
    ensures r.Some? ==> r.value in store && r.value.id == id
  {
    if store == [] then None
    else if store[0].id == id then Some(store[0])
    else
      var r := GetPost(store[1..], id);
      assert forall i :: 0 < i < |store| ==> store[i] == store[1..][i - 1];
      r
  }

  /** In a valid store the lookup by a stored post's id yields exactly that post. */
  lemma GetPostStored(store: seq<Post>, i: nat)
    requires ValidStore(store) && i < |store|
    ensures GetPost(store, store[i].id) == Some(store[i])
  {
    var r := GetPost(store, store[i].id);
    var j :| 0 <= j < |store| && store[j] == r.value;
    assert !(j < i) && !(i < j);
  }

  /* ---------- getPostsByTag ---------- */

  predicate HasTag(p: Post, tag: string) {
    tag in p.tags
  }

  /** `getPostsByTag(tag)`: the posts of getAllPosts carrying tag exactly. */
  function GetPostsByTag(store: seq<Post>, tag: string): (r: seq<Post>)
    ensures IsSubseq(r, GetAllPosts(store))
    ensures forall p :: p in r <==> p in store && tag in p.tags
  {
    GetAllPostsMembers(store);
    Filter(GetAllPosts(store), (p: Post) => HasTag(p, tag))
  }

  /* ---------- getAllTags ---------- */

  /** The tag lists of posts, concatenated in list order. */
  function Flat(posts: seq<Post>): (r: seq<string>)
  {
    if posts == [] then [] else Flat(posts[..|posts| - 1]) + posts[|posts| - 1].tags
  }

  lemma {:induction false} FlatMembers(posts: seq<Post>)
    ensures forall t :: t in Flat(posts) <==> exists i :: 0 <= i < |posts| && t in posts[i].tags
  {
    if posts != [] {
      var init := posts[..|posts| - 1];
      FlatMembers(init);
      assert forall i :: 0 <= i < |init| ==> init[i] == posts[i];
    }
  }

  /** A truthy tag (`if (tag)`): the empty string is skipped. */
  predicate IsNonEmpty(t: string) {
    t != ""
  }

  function NonEmptyTags(ts: seq<string>): seq<string> {
    Filter(ts, IsNonEmpty)
  }

  /** Reference for getAllTags: the non-empty tags of posts, each at its first occurrence. */
  function DistinctTags(posts: seq<Post>): seq<string> {
    Dedup(NonEmptyTags(Flat(posts)))
  }

  /** Walking one more tag adds it at the end exactly when it is non-empty and new. */
  lemma DistinctTagsStep(seen: seq<string>, t: string)
    ensures Dedup(NonEmptyTags(seen + [t])) ==
              if t != "" && t !in Dedup(NonEmptyTags(seen)) then Dedup(NonEmptyTags(seen)) + [t]
              else Dedup(NonEmptyTags(seen))
  {
    FilterAppend(seen, t, IsNonEmpty);
    var kept := NonEmptyTags(seen);
    if t != "" {
      var s2 := kept + [t];
      assert NonEmptyTags(seen + [t]) == s2;
      assert s2[..|s2| - 1] == kept && s2[|s2| - 1] == t;
    } else {
      assert NonEmptyTags(seen + [t]) == kept;
    }
  }

  /** `getAllTags()`: fills a `Set` by walking getAllPosts and each post's tags, then lists it
      in insertion order. */
  method GetAllTags(store: seq<Post>) returns (tags: seq<string>)
    ensures tags == DistinctTags(GetAllPosts(store))
  {
    var posts := GetAllPosts(store);
    tags := [];
    var i := 0;
    while i < |posts|
      invariant 0 <= i <= |posts|
      invariant tags == Dedup(NonEmptyTags(Flat(posts[..i])))
    {
      var ts := posts[i].tags;
      ghost var seen := Flat(posts[..i]);
      var j := 0;
      assert seen + ts[..0] == seen;
      while j < |ts|
        invariant 0 <= j <= |ts|
        invariant tags == Dedup(NonEmptyTags(seen + ts[..j]))
      {
        var t := ts[j];
        assert seen + ts[..j + 1] == (seen + ts[..j]) + [t];
        DistinctTagsStep(seen + ts[..j], t);
        if t != "" && t !in tags {
          tags := tags + [t];
        }
        j := j + 1;
      }
      assert posts[..i + 1][..i] == posts[..i];
      assert ts[..|ts|] == ts;
      assert Flat(posts[..i + 1]) == seen + ts;
      i := i + 1;
    }
    assert posts[..|posts|] == posts;
  }

  /** getAllTags has no duplicates and no empty entry, holds every non-empty tag of every
      post, and lists tags in the order of their first occurrence along the posts. */
  lemma DistinctTagsProperties(posts: seq<Post>)
    ensures NoDup(DistinctTags(posts))
    ensures "" !in DistinctTags(posts)
    ensures forall t :: t in DistinctTags(posts) <==>
              t != "" && exists i :: 0 <= i < |posts| && t in posts[i].tags
    ensures InFirstOccurrenceOrder(DistinctTags(posts), Flat(posts))
  {
    var flat := Flat(posts);
    var kept := NonEmptyTags(flat);
    var r := DistinctTags(posts);
    DedupProperties(kept);
    FlatMembers(posts);
    assert forall t :: t in r <==> t in flat && t != "";
    FilterFirstOccurrenceOrder(r, flat, IsNonEmpty);
  }

  /* ---------- getRecentPosts ---------- */

  /** The `limit` parameter's default. */
  const DefaultRecentLimit: int := 5

  /** `getRecentPosts(limit)`: `getAllPosts().slice(0, limit)`; a negative limit counts from
      the end, as `slice` does. */
  function GetRecentPosts(store: seq<Post>, limit: int): (r: seq<Post>)
    ensures |r| <= |store| && r == GetAllPosts(store)[..|r|]
    ensures limit >= 0 ==> |r| == if limit < |store| then limit else |store|
    ensures limit < 0 ==> |r| == if |store| + limit > 0 then |store| + limit else 0
  {
    var all := GetAllPosts(store);
    var end := if limit < 0 then (if |all| + limit > 0 then |all| + limit else 0)
               else if limit < |all| then limit else |all|;
    all[..end]
  }

  /** The recent posts are at least as new as every post left out. */
  lemma RecentPostsAreNewest(store: seq<Post>, limit: int)
    ensures forall p, q :: p in GetRecentPosts(store, limit) && q in GetAllPosts(store)[|GetRecentPosts(store, limit)|..]
              ==> !Earlier(p.date, q.date)
  {
    var all, r := GetAllPosts(store), GetRecentPosts(store, limit);
    GetAllPostsCorrect(store);
    forall p, q | p in r && q in all[|r|..] ensures !Earlier(p.date, q.date) {
      var i :| 0 <= i < |r| && r[i] == p;
      var j :| 0 <= j < |all| - |r| && all[|r|..][j] == q;
      assert all[i] == p && all[|r| + j] == q;
    }
  }

  /* ---------- searchPosts ---------- */

  /** Some tag contains the lower-cased query (`tags.some(...)`). */
  predicate AnyTagContains(tags: seq<string>, lowerQuery: string) {
    tags != [] && (Contains(Lower(tags[0]), lowerQuery) || AnyTagContains(tags[1..], lowerQuery))
  }

  lemma {:induction false} AnyTagContainsIff(tags: seq<string>, lowerQuery: string)
    ensures AnyTagContains(tags, lowerQuery) <==>
              exists i :: 0 <= i < |tags| && Contains(Lower(tags[i]), lowerQuery)
  {
    if tags != [] {
      AnyTagContainsIff(tags[1..], lowerQuery);
      assert forall i :: 0 < i < |tags| ==> tags[i] == tags[1..][i - 1];
    }
  }

  /** The search filter: the lower-cased query occurs in the lower-cased title, summary or
      one of the tags. */
  predicate Matches(p: Post, lowerQuery: string) {
    Contains(Lower(p.title), lowerQuery)
    || Contains(Lower(p.summary), lowerQuery)
    || AnyTagContains(p.tags, lowerQuery)
  }

  /** `searchPosts(query)`: all posts for the empty query, otherwise the posts of
      getAllPosts matching it case-insensitively, in that order. */
  function SearchPosts(store: seq<Post>, query: string): (r: seq<Post>)
    ensures query == "" ==> r == GetAllPosts(store)
    ensures IsSubseq(r, GetAllPosts(store))
    ensures query != "" ==> forall p :: p in r <==> p in store && Matches(p, Lower(query))
  {
    if query == "" then
      assert IsSubseq(GetAllPosts(store), GetAllPosts(store)) by {
        SubseqReflexive(GetAllPosts(store));
      }
      GetAllPosts(store)
    else
      GetAllPostsMembers(store);
      var lowerQuery := Lower(query);
      Filter(GetAllPosts(store), (p: Post) => Matches(p, lowerQuery))
  }

  /** Results never repeat a post. */
  lemma SearchPostsNoDup(store: seq<Post>, query: string)
    requires ValidStore(store)
    ensures NoDup(SearchPosts(store, query))
  {
    GetAllPostsMembers(store);
    SubseqNoDup(SearchPosts(store, query), GetAllPosts(store));
  }

  /** Search results come newest first, like getAllPosts. */
  lemma SearchPostsNewestFirst(store: seq<Post>, query: string)
    ensures SortedBy(SearchPosts(store, query), Newest)
  {
    SortByDateCorrect(store, Newest);
    SubseqSorted(SearchPosts(store, query), GetAllPosts(store), Newest);
  }
}
